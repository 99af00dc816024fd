/**
 * The list endpoint's query pipeline over the collection: match (search text
 * and course filter), sort (name, or roll number compared as integers), then
 * skip and limit.
 */
module Listing {
  import opened Wrappers
  import opened Text
  import opened Students
  import opened QueryString

  /** The query string of the list endpoint, `page` and `limit` already parsed. */
  datatype ListQuery = ListQuery(
    search: Option<string>,
    sortBy: Option<string>,
    order: Option<string>,
    page: Option<int>,
    limit: Option<int>,
    course: Option<string>)

  function PageOf(q: ListQuery): int {
    q.page.GetOr(1)
  }

  function LimitOf(q: ListQuery): int {
    q.limit.GetOr(10)
  }

  /** The largest count `$skip` and `$limit` accept: the signed 64-bit maximum. */
  const Int64Max: int := 0x7FFF_FFFF_FFFF_FFFF

  /** The match stage: the search text in name or course, and the exact course. */
  predicate Matches(search: Option<string>, course: Option<string>, r: Record) {
    && (Given(search) ==>
          ContainsIgnoreCase(r.student.name, search.value) || ContainsIgnoreCase(r.student.course, search.value))
    && (Given(course) ==> r.student.course == course.value)
  }

  /** Ids strictly increase along `s`, so no document occurs twice. */
  predicate IdsIncrease(s: seq<Record>) {
    forall i, j :: 0 <= i < j < |s| ==> s[i].id < s[j].id
  }

  /** The documents of `s` the match stage keeps, in their original order. */
  function Filter(s: seq<Record>, search: Option<string>, course: Option<string>): (r: seq<Record>)
    ensures forall x :: x in r <==> x in s && Matches(search, course, x)
    ensures |r| <= |s|
    ensures IdsIncrease(s) ==> IdsIncrease(r)
    decreases |s|
  {
    if s == [] then []
    else
      var rest := Filter(s[1..], search, course);
      assert forall x :: x in s <==> x == s[0] || x in s[1..];
      if Matches(search, course, s[0]) then
        assert IdsIncrease(s) ==> forall x :: x in rest ==> s[0].id < x.id by {
          if IdsIncrease(s) {
            forall x | x in rest
              ensures s[0].id < x.id
            {
              var k :| 0 <= k < |s[1..]| && s[1..][k] == x;
              assert s[k + 1] == x;
            }
          }
        }
        [s[0]] + rest
      else rest
  }

  datatype SortField = ByName | ByRollNumber

  datatype SortSpec = SortSpec(field: SortField, descending: bool)

  /** The sort fields the list endpoint accepts; any other value falls back to "name". */
  const AllowedSortFields: seq<string> := ["name", "rollNumber"]

  /** The allow-list of sort fields, with "name" as the fallback, and "dsc" as the only descending order. */
  function SpecOf(q: ListQuery): (spec: SortSpec)
    ensures spec.field == ByRollNumber <==> q.sortBy == Some("rollNumber")
    ensures spec.descending <==> q.order == Some("dsc")
  {
    var sortBy := q.sortBy.GetOr("name");
    var order := q.order.GetOr("asc");
    var sortField := if sortBy in AllowedSortFields then sortBy else "name";
    var field := if sortField == "rollNumber" then ByRollNumber else ByName;
    SortSpec(field, order == "dsc")
  }

  /** The value `$toInt` projects a roll number to; meaningful only when the conversion succeeds. */
  function RollKey(r: Record): int {
    match ToInt32(r.student.rollNumber)
    case Some(v) => v
    case None => 0
  }

  predicate RollsConvertible(s: seq<Record>) {
    forall i :: 0 <= i < |s| ==> ToInt32(s[i].student.rollNumber).Some?
  }

  /** `a` may come before `b` under the sort stage. */
  predicate Le(spec: SortSpec, a: Record, b: Record) {
    match spec.field
    case ByName =>
      if spec.descending then LexLe(b.student.name, a.student.name) else LexLe(a.student.name, b.student.name)
    case ByRollNumber =>
      if spec.descending then RollKey(b) <= RollKey(a) else RollKey(a) <= RollKey(b)
  }

  lemma LeTotal(spec: SortSpec, a: Record, b: Record)
    ensures Le(spec, a, b) || Le(spec, b, a)
  {
    if spec.field == ByName {
      LexLeTotal(a.student.name, b.student.name);
    }
  }

  lemma LeTransitive(spec: SortSpec, a: Record, b: Record, c: Record)
    requires Le(spec, a, b) && Le(spec, b, c)
    ensures Le(spec, a, c)
  {
    if spec.field == ByName {
      if spec.descending {
        LexLeTransitive(c.student.name, b.student.name, a.student.name);
      } else {
        LexLeTransitive(a.student.name, b.student.name, c.student.name);
      }
    }
  }

  /** Each neighbour pair is in order. */
  predicate Sorted(spec: SortSpec, s: seq<Record>) {
    forall i :: 0 < i < |s| ==> Le(spec, s[i - 1], s[i])
  }

  /** Any two documents are in order, not just neighbours. */
  lemma {:induction false} SortedPairwise(spec: SortSpec, s: seq<Record>, i: int, j: int)
    requires Sorted(spec, s)
    requires 0 <= i < j < |s|
    ensures Le(spec, s[i], s[j])
    decreases j - i
  {
    if j > i + 1 {
      SortedPairwise(spec, s, i + 1, j);
      LeTransitive(spec, s[i], s[i + 1], s[j]);
    }
  }

  function InsertSorted(spec: SortSpec, x: Record, s: seq<Record>): (r: seq<Record>)
    requires Sorted(spec, s)
    ensures Sorted(spec, r)
    ensures multiset(r) == multiset(s) + multiset{x}
    ensures |r| > 0 && (r[0] == x || (|s| > 0 && r[0] == s[0]))
    decreases |s|
  {
    if |s| == 0 then [x]
    else if Le(spec, x, s[0]) then [x] + s
    else
      LeTotal(spec, x, s[0]);
      var rest := InsertSorted(spec, x, s[1..]);
      assert s == [s[0]] + s[1..];
      [s[0]] + rest
  }

  /** The sort stage: an ordered permutation of its input. */
  function SortRecords(spec: SortSpec, s: seq<Record>): (r: seq<Record>)
    ensures Sorted(spec, r)
    ensures multiset(r) == multiset(s)
    ensures |r| == |s|
    decreases |s|
  {
    if s == [] then []
    else
      assert s == [s[0]] + s[1..];
      InsertSorted(spec, s[0], SortRecords(spec, s[1..]))
  }

  /** The skip and limit stages. */
  function Window(s: seq<Record>, skip: nat, limit: nat): (r: seq<Record>)
    ensures |r| == if skip >= |s| then 0 else if |s| - skip < limit then |s| - skip else limit
    ensures forall i :: 0 <= i < |r| ==> r[i] == s[skip + i]
  {
    var lo := if skip < |s| then skip else |s|;
    var hi := if lo + limit < |s| then lo + limit else |s|;
    s[lo..hi]
  }

  /** The documents the list query matches, in the collection's natural order. */
  function Matched(q: ListQuery, st: Store): seq<Record> {
    Filter(Records(st), q.search, q.course)
  }

  /** The matched documents after the sort stage. */
  function Ordered(q: ListQuery, st: Store): seq<Record> {
    SortRecords(SpecOf(q), Matched(q, st))
  }

  /** A document is listed exactly when it is stored and matches the query's filters. */
  lemma MatchedExactly(q: ListQuery, st: Store, x: Record)
    ensures x in Matched(q, st) <==> x.id in st && st[x.id] == x.student && Matches(q.search, q.course, x)
  {
  }

  /** The ids of the documents in `s`. */
  function IdsOf(s: seq<Record>): set<Id> {
    if s == [] then {} else {s[0].id} + IdsOf(s[1..])
  }

  /** An id is in `IdsOf(s)` exactly when some document of `s` carries it. */
  lemma {:induction false} IdsOfMembers(s: seq<Record>, id: Id)
    ensures id in IdsOf(s) <==> exists x :: x in s && x.id == id
    decreases |s|
  {
    if s != [] {
      var t := s[1..];
      IdsOfMembers(t, id);
      assert IdsOf(s) == {s[0].id} + IdsOf(t);
      assert forall x :: x in s <==> x == s[0] || x in t;
    }
  }

  /** Along increasing ids, every document contributes one id of its own. */
  lemma {:induction false} IdsOfIncreasing(s: seq<Record>)
    requires IdsIncrease(s)
    ensures |IdsOf(s)| == |s|
    decreases |s|
  {
    if s != [] {
      var t := s[1..];
      assert IdsIncrease(t);
      IdsOfIncreasing(t);
      forall x | x in t
        ensures s[0].id < x.id
      {
        var k :| 0 <= k < |t| && t[k] == x;
        assert s[k + 1] == x;
      }
      IdsOfMembers(t, s[0].id);
      assert IdsOf(s) == {s[0].id} + IdsOf(t);
    }
  }

  /** The ids of the stored documents the match stage keeps. */
  function MatchingIds(q: ListQuery, st: Store): set<Id> {
    set id | id in st && Matches(q.search, q.course, Record(id, st[id]))
  }

  /**
   * The matched list holds each matching document once: its ids increase, and
   * its length, the reported `total`, is the number of matching documents.
   */
  lemma MatchedCountsMatchingDocuments(q: ListQuery, st: Store)
    ensures IdsIncrease(Matched(q, st))
    ensures |Matched(q, st)| == |MatchingIds(q, st)|
  {
    var m := Matched(q, st);
    IdsOfIncreasing(m);
    forall id
      ensures id in IdsOf(m) <==> id in MatchingIds(q, st)
    {
      IdsOfMembers(m, id);
      if id in MatchingIds(q, st) {
        MatchedExactly(q, st, Record(id, st[id]));
      }
      if id in IdsOf(m) {
        var x :| x in m && x.id == id;
        MatchedExactly(q, st, x);
      }
    }
    assert IdsOf(m) == MatchingIds(q, st);
  }

  /** The sorted list is a permutation of the matched documents, in non-decreasing (or, for "dsc", non-increasing) order. */
  lemma OrderedIsSortedPermutation(q: ListQuery, st: Store)
    ensures multiset(Ordered(q, st)) == multiset(Matched(q, st))
    ensures forall i, j :: 0 <= i < j < |Ordered(q, st)| ==> Le(SpecOf(q), Ordered(q, st)[i], Ordered(q, st)[j])
  {
    var s := Ordered(q, st);
    forall i, j | 0 <= i < j < |s|
      ensures Le(SpecOf(q), s[i], s[j])
    {
      SortedPairwise(SpecOf(q), s, i, j);
    }
  }

  /**
   * Sorting by roll number orders by the integer value: ascending, an earlier
   * document never has a larger number; with "dsc", never a smaller one.
   */
  lemma RollOrderIsNumeric(q: ListQuery, st: Store, i: int, j: int)
    requires q.sortBy == Some("rollNumber")
    requires RollsConvertible(Ordered(q, st))
    requires 0 <= i < j < |Ordered(q, st)|
    ensures var s := Ordered(q, st);
      var a := ToInt32(s[i].student.rollNumber).value;
      var b := ToInt32(s[j].student.rollNumber).value;
      if q.order == Some("dsc") then a >= b else a <= b
  {
    SortedPairwise(SpecOf(q), Ordered(q, st), i, j);
  }

  /** Any other `sortBy` value sorts by name. */
  lemma OtherSortFieldsSortByName(q: ListQuery, st: Store, i: int, j: int)
    requires q.sortBy != Some("rollNumber")
    requires 0 <= i < j < |Ordered(q, st)|
    ensures var s := Ordered(q, st);
      if q.order == Some("dsc") then LexLe(s[j].student.name, s[i].student.name)
      else LexLe(s[i].student.name, s[j].student.name)
  {
    SortedPairwise(SpecOf(q), Ordered(q, st), i, j);
  }

  function Rolled(id: Id, roll: string): Record {
    Record(id, Student("Student " + roll, roll, "Course", 10.0, "5", "A"))
  }

  lemma SmallRollKeys()
    ensures RollKey(Rolled(0, "2")) == 2 && RollKey(Rolled(1, "10")) == 10 && RollKey(Rolled(2, "1")) == 1
  {
    assert "10"[..1] == "1" && "1"[..0] == "" && "2"[..0] == "";
    assert DigitsValue("10") == 10;
    assert ParseDecimal("10") == Some(10);
    assert ParseDecimal("2") == Some(2);
    assert ParseDecimal("1") == Some(1);
  }

  lemma SortTwoRolls()
    ensures SortRecords(SortSpec(ByRollNumber, false), [Rolled(1, "10"), Rolled(2, "1")])
         == [Rolled(2, "1"), Rolled(1, "10")]
  {
    var spec := SortSpec(ByRollNumber, false);
    var b, c := Rolled(1, "10"), Rolled(2, "1");
    SmallRollKeys();
    assert [b, c][1..] == [c];
    assert SortRecords(spec, [c]) == [c];
    assert InsertSorted(spec, b, [c]) == [c, b];
  }

  lemma InsertTwo()
    ensures InsertSorted(SortSpec(ByRollNumber, false), Rolled(0, "2"), [Rolled(2, "1"), Rolled(1, "10")])
         == [Rolled(2, "1"), Rolled(0, "2"), Rolled(1, "10")]
  {
    var spec := SortSpec(ByRollNumber, false);
    var a, b, c := Rolled(0, "2"), Rolled(1, "10"), Rolled(2, "1");
    SmallRollKeys();
    assert [c, b][1..] == [b];
    assert InsertSorted(spec, a, [b]) == [a, b];
  }

  /** Roll numbers "2", "10", "1" come out as "1", "2", "10", although "10" precedes "2" as text. */
  lemma RollNumbersSortAsIntegers()
    ensures SortRecords(SortSpec(ByRollNumber, false), [Rolled(0, "2"), Rolled(1, "10"), Rolled(2, "1")])
         == [Rolled(2, "1"), Rolled(0, "2"), Rolled(1, "10")]
    ensures LexLe("10", "2") && !LexLe("2", "10")
  {
    var a, b, c := Rolled(0, "2"), Rolled(1, "10"), Rolled(2, "1");
    assert [a, b, c][1..] == [b, c];
    SortTwoRolls();
    InsertTwo();
  }
}
