/**
 * The student document and the collection that holds it: the schema's
 * setters (trim), its validators (required, min) and the unique index on
 * `rollNumber`. The collection is a finite map from document id to document.
 */
module Students {
  import opened Wrappers
  import opened Text

  /** A document id. Ids are only compared for equality and ordered for listing. */
  type Id = nat

  datatype Student = Student(
    name: string,
    rollNumber: string,
    course: string,
    age: real,
    std: string,
    division: string)

  /** A stored document together with its id, as queries return it. */
  datatype Record = Record(id: Id, student: Student)

  type Store = map<Id, Student>

  /** The validators `save` runs: every string is required (non-empty) and age is at least 1. */
  predicate Admissible(s: Student) {
    && s.name != ""
    && s.rollNumber != ""
    && s.course != ""
    && s.age >= 1.0
    && s.std != ""
    && s.division != ""
  }

  /** The invariant of a stored document: admissible, with every string trimmed. */
  predicate Conforms(s: Student) {
    && Admissible(s)
    && IsTrimmed(s.name)
    && IsTrimmed(s.rollNumber)
    && IsTrimmed(s.course)
    && IsTrimmed(s.std)
    && IsTrimmed(s.division)
  }

  /** The schema's `trim` setters, applied when values are assigned to a document. */
  function Normalize(s: Student): (n: Student)
    ensures n.age == s.age
    ensures Conforms(n) <==> Admissible(n)
    ensures Conforms(s) ==> n == s
  {
    s.(name := Trim(s.name), rollNumber := Trim(s.rollNumber), course := Trim(s.course),
       std := Trim(s.std), division := Trim(s.division))
  }

  /** The unique index: no two documents share a roll number. */
  predicate RollUnique(m: Store) {
    forall a, b :: a in m && b in m && m[a].rollNumber == m[b].rollNumber ==> a == b
  }

  /** The collection-wide invariant every operation preserves. */
  predicate Valid(m: Store) {
    && (forall id :: id in m ==> Conforms(m[id]))
    && RollUnique(m)
  }

  /** `findOne({ rollNumber: roll })` finds a document: some stored roll number equals `roll` as given, untrimmed. */
  predicate RollHeld(m: Store, roll: string) {
    exists id :: id in m && m[id].rollNumber == roll
  }

  /** Some document other than `id` holds `roll`. */
  predicate RollHeldByOther(m: Store, id: Id, roll: string) {
    exists k :: k in m && k != id && m[k].rollNumber == roll
  }

  predicate IsMin(ks: set<Id>, m: Id) {
    m in ks && forall k :: k in ks ==> m <= k
  }

  lemma {:induction false} MinExists(ks: set<Id>)
    requires ks != {}
    ensures exists m :: IsMin(ks, m)
    decreases |ks|
  {
    var x :| x in ks;
    var rest := ks - {x};
    if rest == {} {
      assert ks == {x};
      assert IsMin(ks, x);
    } else {
      MinExists(rest);
      var m :| IsMin(rest, m);
      var lo := if x < m then x else m;
      forall k | k in ks
        ensures lo <= k
      {
        if k != x {
          assert k in rest;
        }
      }
      assert IsMin(ks, lo);
    }
  }

  function MinId(ks: set<Id>): (m: Id)
    requires ks != {}
    ensures m in ks && forall k :: k in ks ==> m <= k
  {
    MinExists(ks);
    var m :| IsMin(ks, m);
    m
  }

  /** The ids of `ks` in increasing order: the collection's natural order. */
  function IdsInOrder(ks: set<Id>): (r: seq<Id>)
    ensures forall k :: k in r <==> k in ks
    ensures forall i, j :: 0 <= i < j < |r| ==> r[i] < r[j]
    decreases |ks|
  {
    if ks == {} then []
    else
      var m := MinId(ks);
      var rest := IdsInOrder(ks - {m});
      var r := [m] + rest;
      assert forall i, j :: 0 <= i < j < |r| ==> r[i] < r[j] by {
        forall i, j | 0 <= i < j < |r|
          ensures r[i] < r[j]
        {
          assert r[j] == rest[j - 1] && rest[j - 1] in rest;
          if i > 0 {
            assert r[i] == rest[i - 1];
          }
        }
      }
      r
  }

  /** Every document of the collection, in id order. */
  function Records(m: Store): (r: seq<Record>)
    ensures forall x :: x in r <==> x.id in m && m[x.id] == x.student
    ensures forall i, j :: 0 <= i < j < |r| ==> r[i].id < r[j].id
  {
    var ids := IdsInOrder(m.Keys);
    var r := seq(|ids|, i requires 0 <= i < |ids| => Record(ids[i], m[ids[i]]));
    forall x: Record | x.id in m && m[x.id] == x.student
      ensures x in r
    {
      assert x.id in ids;
      var i :| 0 <= i < |ids| && ids[i] == x.id;
      assert r[i] == x;
    }
    r
  }

  /** An id no document holds: a stand-in for the store generating a fresh ObjectId. */
  function FreshId(m: Store): (r: Id)
    ensures r !in m
    ensures forall k :: k in m ==> k < r
  {
    var ids := IdsInOrder(m.Keys);
    if |ids| == 0 then 0
    else
      assert forall k :: k in m ==> k in ids;
      ids[|ids| - 1] + 1
  }

  /**
   * `save()` of a new document: trim, run the validators, then insert under a
   * fresh id unless the unique index already holds the roll number. Returns
   * the stored document; None when the save fails and nothing is written.
   */
  function SaveNew(m: Store, s: Student): (r: Option<Record>)
    ensures r.Some? <==> Admissible(Normalize(s)) && !RollHeld(m, Normalize(s).rollNumber)
    ensures r.Some? ==> r.value.id !in m && r.value.student == Normalize(s) && Conforms(r.value.student)
    ensures r.Some? && Valid(m) ==> Valid(m[r.value.id := r.value.student])
  {
    var n := Normalize(s);
    if !Admissible(n) || RollHeld(m, n.rollNumber) then None
    else
      var id := FreshId(m);
      InsertKeepsValid(m, id, n);
      Some(Record(id, n))
  }

  /**
   * `save()` of the existing document `id` with new contents: trim, run the
   * validators, and check the unique index against the other documents.
   * Returns the stored document; None when the save fails and nothing is written.
   */
  function SaveExisting(m: Store, id: Id, s: Student): (r: Option<Student>)
    requires id in m
    ensures r.Some? <==> Admissible(Normalize(s)) && !RollHeldByOther(m, id, Normalize(s).rollNumber)
    ensures r.Some? ==> r.value == Normalize(s) && Conforms(r.value)
    ensures r.Some? && Valid(m) ==> Valid(m[id := r.value])
  {
    var n := Normalize(s);
    if !Admissible(n) || RollHeldByOther(m, id, n.rollNumber) then None
    else
      ReplaceKeepsValid(m, id, n);
      Some(n)
  }

  /** Inserting a conforming document under a new id with an unused roll number keeps the invariant. */
  lemma InsertKeepsValid(m: Store, id: Id, s: Student)
    requires id !in m && Conforms(s) && !RollHeld(m, s.rollNumber)
    ensures Valid(m) ==> Valid(m[id := s])
  {
  }

  /** Replacing document `id` by a conforming one whose roll number no other document holds keeps the invariant. */
  lemma ReplaceKeepsValid(m: Store, id: Id, s: Student)
    requires id in m && Conforms(s) && !RollHeldByOther(m, id, s.rollNumber)
    ensures Valid(m) ==> Valid(m[id := s])
  {
  }

}
