/**
 * `validate(schema)`: the route middleware in front of a handler. It either
 * answers the request itself (400) or passes control on, leaving the body as
 * it was.
 */
module ValidateMiddleware {
  import opened Wrappers
  import opened Json
  import opened StudentValidation
  import opened ApiResponse

  /**
   * None means "call the next handler"; Some(e) is the response sent instead.
   * All violations are collected but only the first is reported.
   */
  function Validate(schema: Option<Schema>, body: Body): (r: Option<Envelope>)
    ensures schema.None? ==> r == Some(Failure("Validation schema not found", BAD_REQUEST))
    ensures r.None? <==> schema.Some? && Accepts(schema.value, body)
    ensures schema.Some? && !Accepts(schema.value, body) ==>
      r == Some(Failure(Violations(schema.value, body)[0], BAD_REQUEST))
  {
    match schema
    case None => Some(Failure("Validation schema not found", BAD_REQUEST))
    case Some(sc) =>
      var errors := Violations(sc, body);
      if errors != [] then Some(Failure(errors[0], BAD_REQUEST)) else None
  }

  /** A body missing its name is answered with "Name is required", whatever else is wrong with it. */
  lemma MissingNameReported(body: Body)
    requires "name" !in body
    ensures Validate(Some(CreateStudentSchema), body) == Some(Failure("Name is required", BAD_REQUEST))
  {
    assert Fields[0] == Name;
    assert Key(Name) !in body;
    assert Label(Name) + " is required" == "Name is required";
    FirstViolationOf(body, Fields, 0);
  }

  /**
   * When every field before the first offending one is fine, the response
   * carries that field's first message.
   */
  lemma ReportsFirstOffendingField(body: Body, i: nat)
    requires i < |Fields|
    requires forall j :: 0 <= j < i ==> FieldOk(body, Fields[j])
    requires !FieldOk(body, Fields[i])
    ensures Validate(Some(CreateStudentSchema), body) == Some(Failure(FieldViolations(body, Fields[i])[0], BAD_REQUEST))
  {
    FirstViolationOf(body, Fields, i);
  }
}
