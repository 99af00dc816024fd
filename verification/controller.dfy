/**
 * The six request handlers. Write handlers map a request and the collection
 * to an envelope and the new collection; read handlers return only the
 * envelope, so they cannot change the collection.
 */
module StudentsController {
  import opened Wrappers
  import opened Text
  import opened Json
  import opened Students
  import opened ApiResponse
  import opened Listing
  import opened QueryString

  /** The controller's first check: every one of the six body fields is truthy. */
  predicate AllGiven(body: Body) {
    && Truthy(Get(body, "name"))
    && Truthy(Get(body, "rollNumber"))
    && Truthy(Get(body, "course"))
    && Truthy(Get(body, "age"))
    && Truthy(Get(body, "std"))
    && Truthy(Get(body, "division"))
  }

  /** The document the body describes, when its fields have the schema's types. */
  function Requested(body: Body): Option<Student> {
    if && "name" in body && body["name"].JStr?
       && "rollNumber" in body && body["rollNumber"].JStr?
       && "course" in body && body["course"].JStr?
       && "age" in body && body["age"].JNum?
       && "std" in body && body["std"].JStr?
       && "division" in body && body["division"].JStr?
    then Some(Student(body["name"].s, body["rollNumber"].s, body["course"].s,
                      body["age"].x, body["std"].s, body["division"].s))
    else None
  }

  /** The raw roll number the duplicate pre-check looks up. */
  predicate PreCheckFinds(body: Body, st: Store) {
    "rollNumber" in body && body["rollNumber"].JStr? && RollHeld(st, body["rollNumber"].s)
  }

  /** createStudent */
  function Create(body: Body, st: Store): (r: Reply)
    ensures r.envelope.statusCode in {CREATED, BAD_REQUEST, CONFLICT, INTERNAL_SERVER_ERROR}
    ensures r.envelope.statusCode == BAD_REQUEST <==> !AllGiven(body)
    ensures r.envelope.statusCode == BAD_REQUEST ==> r.envelope.message == "All fields are required."
    ensures r.envelope.statusCode == CONFLICT <==> AllGiven(body) && PreCheckFinds(body, st)
    ensures r.envelope.statusCode == CREATED <==>
      && AllGiven(body) && !PreCheckFinds(body, st) && Requested(body).Some?
      && Admissible(Normalize(Requested(body).value))
      && !RollHeld(st, Normalize(Requested(body).value).rollNumber)
    ensures r.envelope.statusCode != CREATED ==> r.store == st && !r.envelope.status && r.envelope.data.None?
    ensures r.envelope.statusCode == CREATED ==>
      && r.envelope.status
      && r.envelope.data.Some? && r.envelope.data.value.One?
      && var rec := r.envelope.data.value.record;
      && rec.id !in st
      && r.store == st[rec.id := rec.student]
      && rec.student == Normalize(Requested(body).value)
  {
    if !AllGiven(body) then
      Reply(Failure("All fields are required.", BAD_REQUEST), st)
    else if !body["rollNumber"].JStr? then
      Reply(Failure("Failed to create student.", INTERNAL_SERVER_ERROR), st)
    else if RollHeld(st, body["rollNumber"].s) then
      Reply(Failure("Roll number already exists.", CONFLICT), st)
    else
      match Requested(body)
      case None => Reply(Failure("Failed to create student.", INTERNAL_SERVER_ERROR), st)
      case Some(s) =>
        match SaveNew(st, s)
        case None => Reply(Failure("Failed to create student.", INTERNAL_SERVER_ERROR), st)
        case Some(rec) =>
          Reply(Envelope(true, "Student created successfully.", Some(One(rec)), CREATED),
                st[rec.id := rec.student])
  }

  /** The `$skip` stage's count: the documents of the pages before `page`. */
  function SkipOf(q: ListQuery): (n: nat)
    requires PageOf(q) >= 1 && LimitOf(q) >= 1
    ensures n == 0 <==> PageOf(q) == 1
    ensures PageOf(q) > 1 ==> n >= LimitOf(q)
  {
    (PageOf(q) - 1) * LimitOf(q)
  }

  /** The page of the list response: total before slicing, the echoed page and limit, and the window of the sorted matches. */
  function ListPage(q: ListQuery, st: Store): (d: Data)
    requires PageOf(q) >= 1 && LimitOf(q) >= 1
    ensures d.Page?
    ensures d.total == |Matched(q, st)|
    ensures d.page == PageOf(q) && d.limit == LimitOf(q)
    ensures var skip := SkipOf(q);
      && |d.students| == (if skip >= d.total then 0 else if d.total - skip < d.limit then d.total - skip else d.limit)
      && forall i :: 0 <= i < |d.students| ==> d.students[i] == Ordered(q, st)[skip + i]
  {
    var page := PageOf(q);
    var limit := LimitOf(q);
    var skip := SkipOf(q);
    var matched := Matched(q, st);
    var ordered := Ordered(q, st);
    assert |ordered| == |matched|;
    Page(|matched|, page, limit, Window(ordered, skip, limit))
  }

  /** getStudentsList */
  function List(q: ListQuery, st: Store): (e: Envelope)
    ensures e.statusCode == OK || e.statusCode == INTERNAL_SERVER_ERROR
    ensures e.statusCode == INTERNAL_SERVER_ERROR <==>
      || PageOf(q) < 1 || LimitOf(q) < 1
      || SkipOf(q) > Int64Max || LimitOf(q) > Int64Max
      || (q.sortBy == Some("rollNumber") && !RollsConvertible(Matched(q, st)))
    ensures e.statusCode == INTERNAL_SERVER_ERROR ==> e == Failure("Failed to fetch student list.", INTERNAL_SERVER_ERROR)
    ensures e.statusCode == OK ==> e.status && e.data == Some(ListPage(q, st))
  {
    if || PageOf(q) < 1 || LimitOf(q) < 1
       || SkipOf(q) > Int64Max || LimitOf(q) > Int64Max
       || (SpecOf(q).field == ByRollNumber && !RollsConvertible(Matched(q, st)))
    then
      Failure("Failed to fetch student list.", INTERNAL_SERVER_ERROR)
    else
      Envelope(true, "Students fetched successfully.", Some(ListPage(q, st)), OK)
  }

  /** A successful list answer carries the page of `ListPage`. */
  lemma ListAnswersPage(q: ListQuery, st: Store)
    requires List(q, st).statusCode == OK
    ensures PageOf(q) >= 1 && LimitOf(q) >= 1
    ensures List(q, st).data == Some(ListPage(q, st))
  {
  }

  /** getStudentById */
  function GetById(id: Id, st: Store): (e: Envelope)
    ensures id !in st ==> e == Failure("Student not found.", NOT_FOUND)
    ensures id in st ==> e.status && e.statusCode == OK && e.data == Some(One(Record(id, st[id])))
  {
    if id !in st then Failure("Student not found.", NOT_FOUND)
    else Envelope(true, "Student fetched successfully.", Some(One(Record(id, st[id]))), OK)
  }

  /** An update body: every field optional; None is null or undefined. */
  datatype Patch = Patch(
    name: Option<string>,
    rollNumber: Option<string>,
    course: Option<string>,
    age: Option<real>,
    std: Option<string>,
    division: Option<string>)

  /** `field = body.field ?? field` for all six fields. */
  function ApplyPatch(s: Student, p: Patch): Student {
    Student(p.name.GetOr(s.name), p.rollNumber.GetOr(s.rollNumber), p.course.GetOr(s.course),
            p.age.GetOr(s.age), p.std.GetOr(s.std), p.division.GetOr(s.division))
  }

  /** The update handler's conflict check: a truthy roll number that differs from the current one and is already held. */
  predicate RollConflict(st: Store, id: Id, p: Patch)
    requires id in st
  {
    p.rollNumber.Some? && p.rollNumber.value != "" && p.rollNumber.value != st[id].rollNumber
    && RollHeld(st, p.rollNumber.value)
  }

  /** updateStudent */
  function Update(id: Id, p: Patch, st: Store): (r: Reply)
    ensures r.envelope.statusCode in {OK, NOT_FOUND, CONFLICT, INTERNAL_SERVER_ERROR}
    ensures id !in st <==> r.envelope.statusCode == NOT_FOUND
    ensures id !in st ==> r.envelope.message == "Student not found."
    ensures r.envelope.statusCode == CONFLICT <==> id in st && RollConflict(st, id, p)
    ensures r.envelope.statusCode == CONFLICT ==>
      r.envelope.message == "Another student with this roll number already exists."
    ensures r.envelope.statusCode == OK <==>
      && id in st && !RollConflict(st, id, p)
      && Admissible(Normalize(ApplyPatch(st[id], p)))
      && !RollHeldByOther(st, id, Normalize(ApplyPatch(st[id], p)).rollNumber)
    ensures r.envelope.statusCode != OK ==> r.store == st && !r.envelope.status && r.envelope.data.None?
    ensures r.envelope.statusCode == OK ==>
      && r.envelope.status
      && r.store == st[id := Normalize(ApplyPatch(st[id], p))]
      && r.envelope.data == Some(One(Record(id, r.store[id])))
    ensures r.store.Keys == st.Keys
    ensures forall k :: k in st && k != id ==> r.store[k] == st[k]
  {
    if id !in st then
      Reply(Failure("Student not found.", NOT_FOUND), st)
    else if RollConflict(st, id, p) then
      Reply(Failure("Another student with this roll number already exists.", CONFLICT), st)
    else
      match SaveExisting(st, id, ApplyPatch(st[id], p))
      case None => Reply(Failure("Failed to update student.", INTERNAL_SERVER_ERROR), st)
      case Some(saved) =>
        ReplaceIsLocal(st, id, saved);
        Reply(Envelope(true, "Student updated successfully.", Some(One(Record(id, saved))), OK),
              st[id := saved])
  }

  lemma ReplaceIsLocal(m: Store, id: Id, s: Student)
    requires id in m
    ensures m[id := s].Keys == m.Keys
    ensures forall k :: k in m && k != id ==> m[id := s][k] == m[k]
  {
  }

  /** deleteStudent */
  function Delete(id: Id, st: Store): (r: Reply)
    ensures id !in st ==> r == Reply(Failure("Student not found.", NOT_FOUND), st)
    ensures id in st ==>
      && r.envelope.status && r.envelope.statusCode == OK && r.envelope.data.None?
      && r.store.Keys == st.Keys - {id}
      && forall k :: k in r.store ==> r.store[k] == st[k]
  {
    if id !in st then Reply(Failure("Student not found.", NOT_FOUND), st)
    else Reply(Envelope(true, "Student deleted successfully.", None, OK), st - {id})
  }

  /** checkDuplicateRoll */
  function CheckRoll(rollNumber: Option<string>, st: Store): (e: Envelope)
    ensures !Given(rollNumber) <==> e.statusCode == BAD_REQUEST
    ensures !Given(rollNumber) ==> e == Failure("Roll number is required.", BAD_REQUEST)
    ensures Given(rollNumber) ==>
      && e.status && e.statusCode == OK
      && e.data.Some? && e.data.value.RollExists?
      && (e.data.value.found <==> exists id :: id in st && st[id].rollNumber == rollNumber.value)
  {
    if !Given(rollNumber) then Failure("Roll number is required.", BAD_REQUEST)
    else
      var found := RollHeld(st, rollNumber.value);
      Envelope(true, if found then "Duplicate found" else "Roll number is available",
               Some(RollExists(found)), OK)
  }

  /** A falsy age (0) is rejected by the controller's own check, with nothing written. */
  lemma ZeroAgeRejected(body: Body, st: Store)
    requires "age" in body && body["age"] == JNum(0.0)
    ensures Create(body, st) == Reply(Failure("All fields are required.", BAD_REQUEST), st)
  {
  }

  /**
   * A created document can be fetched back by its id, with the requested
   * fields trimmed, and every earlier document is still there unchanged.
   */
  lemma CreateThenGet(body: Body, st: Store)
    requires Create(body, st).envelope.statusCode == CREATED
    ensures var r := Create(body, st);
      var rec := r.envelope.data.value.record;
      && GetById(rec.id, r.store) == Envelope(true, "Student fetched successfully.", Some(One(rec)), OK)
      && rec.student.name == Trim(body["name"].s)
      && rec.student.rollNumber == Trim(body["rollNumber"].s)
      && rec.student.course == Trim(body["course"].s)
      && rec.student.age == body["age"].x
      && rec.student.std == Trim(body["std"].s)
      && rec.student.division == Trim(body["division"].s)
      && |r.store| == |st| + 1
      && forall k :: k in st ==> k in r.store && r.store[k] == st[k]
  {
    var r := Create(body, st);
    var rec := r.envelope.data.value.record;
    var req := Requested(body).value;
    assert rec.student == Normalize(req);
    assert rec.id !in st && r.store == st[rec.id := rec.student];
    InsertGrowsByOne(st, rec.id, rec.student);
  }

  lemma InsertGrowsByOne(m: Store, id: Id, s: Student)
    requires id !in m
    ensures |m[id := s]| == |m| + 1
  {
    assert m[id := s].Keys == m.Keys + {id};
  }

  /** Creating the same (already trimmed) roll number twice: the second request conflicts and writes nothing. */
  lemma SecondCreateConflicts(body: Body, body2: Body, st: Store)
    requires Create(body, st).envelope.statusCode == CREATED
    requires IsTrimmed(body["rollNumber"].s)
    requires AllGiven(body2) && "rollNumber" in body2 && body2["rollNumber"] == body["rollNumber"]
    ensures var st1 := Create(body, st).store;
      Create(body2, st1) == Reply(Failure("Roll number already exists.", CONFLICT), st1)
  {
    var r := Create(body, st);
    var rec := r.envelope.data.value.record;
    assert rec.student.rollNumber == body["rollNumber"].s;
    assert rec.id in r.store && r.store[rec.id].rollNumber == body["rollNumber"].s;
  }

  /** Applying a patch to a stored document and trimming: supplied fields are replaced (trimmed), omitted ones kept. */
  lemma PatchFields(s: Student, p: Patch)
    requires Conforms(s)
    ensures var s' := Normalize(ApplyPatch(s, p));
      && s'.name == (if p.name.Some? then Trim(p.name.value) else s.name)
      && s'.rollNumber == (if p.rollNumber.Some? then Trim(p.rollNumber.value) else s.rollNumber)
      && s'.course == (if p.course.Some? then Trim(p.course.value) else s.course)
      && s'.age == (if p.age.Some? then p.age.value else s.age)
      && s'.std == (if p.std.Some? then Trim(p.std.value) else s.std)
      && s'.division == (if p.division.Some? then Trim(p.division.value) else s.division)
  {
  }

  /**
   * A partial update overwrites exactly the supplied fields (trimmed), and
   * every omitted field of the document keeps its value.
   */
  lemma UpdateKeepsOmittedFields(id: Id, p: Patch, st: Store)
    requires Update(id, p, st).envelope.statusCode == OK
    requires Conforms(st[id])
    ensures var s := st[id];
      var s' := Update(id, p, st).store[id];
      && s'.name == (if p.name.Some? then Trim(p.name.value) else s.name)
      && s'.rollNumber == (if p.rollNumber.Some? then Trim(p.rollNumber.value) else s.rollNumber)
      && s'.course == (if p.course.Some? then Trim(p.course.value) else s.course)
      && s'.age == (if p.age.Some? then p.age.value else s.age)
      && s'.std == (if p.std.Some? then Trim(p.std.value) else s.std)
      && s'.division == (if p.division.Some? then Trim(p.division.value) else s.division)
  {
    PatchFields(st[id], p);
  }

  /** An empty patch changes nothing and succeeds on any stored document. */
  lemma EmptyPatchIsIdentity(id: Id, st: Store)
    requires Valid(st) && id in st
    ensures Update(id, Patch(None, None, None, None, None, None), st)
         == Reply(Envelope(true, "Student updated successfully.", Some(One(Record(id, st[id]))), OK), st)
  {
    var p := Patch(None, None, None, None, None, None);
    assert ApplyPatch(st[id], p) == st[id];
    assert Conforms(st[id]);
    assert st[id := st[id]] == st;
  }

  /** An updated document reads back as the response returned it. */
  lemma UpdateThenGet(id: Id, p: Patch, st: Store)
    requires Update(id, p, st).envelope.statusCode == OK
    ensures var r := Update(id, p, st);
      GetById(id, r.store) == Envelope(true, "Student fetched successfully.", r.envelope.data, OK)
  {
  }

  /** After a delete, fetching, updating or deleting the same id finds nothing. */
  lemma DeleteThenNotFound(id: Id, p: Patch, st: Store)
    ensures var st' := Delete(id, st).store;
      && GetById(id, st') == Failure("Student not found.", NOT_FOUND)
      && Update(id, p, st').envelope.statusCode == NOT_FOUND
      && Delete(id, st').envelope.statusCode == NOT_FOUND
  {
  }

  /** After a successful create, check-roll reports the stored roll number as taken. */
  lemma CheckRollAfterCreate(body: Body, st: Store)
    requires Create(body, st).envelope.statusCode == CREATED
    ensures var r := Create(body, st);
      var roll := r.envelope.data.value.record.student.rollNumber;
      CheckRoll(Some(roll), r.store) == Envelope(true, "Duplicate found", Some(RollExists(true)), OK)
  {
    var r := Create(body, st);
    var rec := r.envelope.data.value.record;
    assert rec.student.rollNumber != "";
    assert r.store == st[rec.id := rec.student];
    HeldAfterInsert(st, rec);
  }

  /** Helper for `CheckRollAfterCreate`: after inserting a document, the roll-number lookup finds it. */
  lemma HeldAfterInsert(st: Store, rec: Record)
    ensures RollHeld(st[rec.id := rec.student], rec.student.rollNumber)
  {
    var m := st[rec.id := rec.student];
    assert rec.id in m && m[rec.id].rollNumber == rec.student.rollNumber;
  }

  /** `total` counts every match, whatever page and limit ask for. */
  lemma TotalIgnoresPaging(q: ListQuery, q2: ListQuery, st: Store)
    requires q2 == q.(page := q2.page, limit := q2.limit)
    requires List(q, st).statusCode == OK && List(q2, st).statusCode == OK
    ensures List(q, st).data.value.total == List(q2, st).data.value.total == |Matched(q, st)|
  {
  }

  /** Without page or limit the first ten sorted matches are returned. */
  lemma DefaultPaging(q: ListQuery, st: Store)
    requires q.page.None? && q.limit.None?
    requires List(q, st).statusCode == OK
    ensures var d := List(q, st).data.value;
      && d.page == 1 && d.limit == 10
      && |d.students| == (if |Matched(q, st)| < 10 then |Matched(q, st)| else 10)
      && forall i :: 0 <= i < |d.students| ==> d.students[i] == Ordered(q, st)[i]
  {
    ListAnswersPage(q, st);
    var d := ListPage(q, st);
    assert SkipOf(q) == 0 && d.page == 1 && d.limit == 10;
    forall i | 0 <= i < |d.students|
      ensures d.students[i] == Ordered(q, st)[i]
    {
      assert d.students[i] == Ordered(q, st)[SkipOf(q) + i];
    }
  }

  /** Twelve matches, page 2, limit 5: the sorted matches 6 to 10, with total 12. */
  lemma SecondPageOfTwelve(q: ListQuery, st: Store)
    requires q.page == Some(2) && q.limit == Some(5)
    requires |Matched(q, st)| == 12
    requires q.sortBy != Some("rollNumber") || RollsConvertible(Matched(q, st))
    ensures var e := List(q, st);
      && e.statusCode == OK
      && e.data.value.total == 12
      && e.data.value.students == Ordered(q, st)[5..10]
  {
    assert PageOf(q) == 2 && LimitOf(q) == 5 && SkipOf(q) == 5;
    assert List(q, st).statusCode == OK;
    var d := List(q, st).data.value;
    assert |Ordered(q, st)| == 12;
    assert d.students == Ordered(q, st)[5..10];
  }

  /** Create keeps every stored document conforming and roll numbers unique. */
  lemma CreateKeepsValid(body: Body, st: Store)
    requires Valid(st)
    ensures Valid(Create(body, st).store)
  {
    var r := Create(body, st);
    if r.envelope.statusCode == CREATED {
      var rec := r.envelope.data.value.record;
      var n := Normalize(Requested(body).value);
      assert rec.student == n && Conforms(n) && !RollHeld(st, n.rollNumber);
      InsertKeepsValid(st, rec.id, n);
    }
  }

  /** Update keeps every stored document conforming and roll numbers unique. */
  lemma UpdateKeepsValid(id: Id, p: Patch, st: Store)
    requires Valid(st)
    ensures Valid(Update(id, p, st).store)
  {
    var r := Update(id, p, st);
    if r.envelope.statusCode == OK {
      var saved := SaveExisting(st, id, ApplyPatch(st[id], p));
      assert saved.Some? && r.store == st[id := saved.value];
    }
  }

  /** Delete keeps every stored document conforming and roll numbers unique. */
  lemma DeleteKeepsValid(id: Id, st: Store)
    requires Valid(st)
    ensures Valid(Delete(id, st).store)
  {
  }
}
