/**
 * The routing table's one modelled fact: create runs behind the validation
 * middleware, update does not.
 */
module StudentsRoute {
  import opened Wrappers
  import opened Json
  import opened Students
  import opened ApiResponse
  import opened StudentValidation
  import opened ValidateMiddleware
  import opened StudentsController

  /** POST /create: the middleware with the create schema, then the handler on the unchanged body. */
  function CreateRoute(body: Body, st: Store): (r: Reply)
    ensures !Accepts(CreateStudentSchema, body) ==>
      r == Reply(Failure(Violations(CreateStudentSchema, body)[0], BAD_REQUEST), st)
    ensures Accepts(CreateStudentSchema, body) ==> r == Create(body, st)
  {
    match Validate(Some(CreateStudentSchema), body)
    case Some(e) => Reply(e, st)
    case None => Create(body, st)
  }

  /** PUT /update/:id: the handler alone, with no validation in front. */
  function UpdateRoute(id: Id, p: Patch, st: Store): (r: Reply)
    ensures r.envelope.statusCode != BAD_REQUEST
    ensures r == Update(id, p, st)
  {
    Update(id, p, st)
  }

  /** Every payload the schema accepts passes the controller's falsy check. */
  lemma AcceptedIsAllGiven(body: Body)
    requires Accepts(CreateStudentSchema, body)
    ensures AllGiven(body)
  {
    AcceptsIff(body);
    assert FieldOk(body, Name) && FieldOk(body, RollNumber) && FieldOk(body, Course);
    assert FieldOk(body, Age) && FieldOk(body, Std) && FieldOk(body, Division);
  }

  /**
   * Behind the validator the controller's "All fields are required." branch
   * is unreachable: every 400 from the route is a schema message.
   */
  lemma GuardedCreateSkipsFieldCheck(body: Body, st: Store)
    ensures var r := CreateRoute(body, st);
      r.envelope.statusCode == BAD_REQUEST ==>
        && !Accepts(CreateStudentSchema, body)
        && r.envelope.message == Violations(CreateStudentSchema, body)[0]
        && r.store == st
  {
    if Accepts(CreateStudentSchema, body) {
      AcceptedIsAllGiven(body);
    }
  }

  /**
   * The update route lets an age of 0 through to the handler: the save then
   * fails and the response is 500 with nothing written, where the create
   * route answers 400 "Age must be at least 1".
   */
  lemma UnvalidatedUpdateOfAgeZero(id: Id, st: Store)
    requires id in st
    ensures UpdateRoute(id, Patch(None, None, None, Some(0.0), None, None), st)
         == Reply(Failure("Failed to update student.", INTERNAL_SERVER_ERROR), st)
  {
  }

  /** On the create route an integer age below 1 is reported once every earlier field is valid. */
  lemma CreateRouteRejectsAgeZero(body: Body, st: Store)
    requires forall j :: 0 <= j < 3 ==> FieldOk(body, Fields[j])
    requires "age" in body && body["age"] == JNum(0.0)
    ensures CreateRoute(body, st) == Reply(Failure("Age must be at least 1", BAD_REQUEST), st)
  {
    assert Fields[3] == Age;
    assert !FieldOk(body, Age);
    ReportsFirstOffendingField(body, 3);
  }
}
