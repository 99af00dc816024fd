/**
 * The create-payload schema: five required non-empty strings and a required
 * integer age of at least 1, each rule with its own message. Violations are
 * collected for all keys (no early abort) in schema order.
 */
module StudentValidation {
  import opened Json

  /** The schemas the service declares; only the create payload has one. */
  datatype Schema = CreateStudentSchema

  datatype Field = Name | RollNumber | Course | Age | Std | Division

  /** Schema order, which is also the order violations are reported in. */
  const Fields: seq<Field> := [Name, RollNumber, Course, Age, Std, Division]

  function Key(f: Field): string {
    match f
    case Name => "name"
    case RollNumber => "rollNumber"
    case Course => "course"
    case Age => "age"
    case Std => "std"
    case Division => "division"
  }

  function Label(f: Field): string {
    match f
    case Name => "Name"
    case RollNumber => "Roll number"
    case Course => "Course"
    case Age => "Age"
    case Std => "Standard"
    case Division => "Division"
  }

  /** The library's default message for the integer rule, which the schema does not override. */
  const AgeIntegerMessage: string := "\"age\" must be an integer"

  predicate IsInteger(x: real) {
    x.Floor as real == x
  }

  /** What the schema accepts for one field, stated directly. */
  predicate FieldOk(body: Body, f: Field) {
    && Key(f) in body
    && match body[Key(f)]
       case JStr(s) => f != Age && s != ""
       case JNum(x) => f == Age && IsInteger(x) && x >= 1.0
       case _ => false
  }

  /** The rule violations of the `age` value, in rule order: type, integer, min. */
  function AgeViolations(v: Value): (r: seq<string>)
    ensures r == [] <==> v.JNum? && IsInteger(v.x) && v.x >= 1.0
    ensures v.JNum? && IsInteger(v.x) && v.x < 1.0 ==> r == ["Age must be at least 1"]
    ensures !v.JNum? ==> r == ["Age must be a number"]
  {
    match v
    case JNum(x) =>
      (if IsInteger(x) then [] else [AgeIntegerMessage])
      + (if x < 1.0 then ["Age must be at least 1"] else [])
    case _ => ["Age must be a number"]
  }

  /** The messages one field contributes. */
  function FieldViolations(body: Body, f: Field): (r: seq<string>)
    ensures r == [] <==> FieldOk(body, f)
    ensures Key(f) !in body ==> r == [Label(f) + " is required"]
    ensures f != Age && Key(f) in body && body[Key(f)] == JStr("") ==> r == [Label(f) + " cannot be empty"]
    ensures f != Age && Key(f) in body && !body[Key(f)].JStr? ==> r == [Label(f) + " must be a string"]
  {
    if Key(f) !in body then [Label(f) + " is required"]
    else if f == Age then AgeViolations(body[Key(f)])
    else
      match body[Key(f)]
      case JStr(s) => if s == "" then [Label(f) + " cannot be empty"] else []
      case _ => [Label(f) + " must be a string"]
  }

  /** The messages of the fields `fs`, in order. */
  function ViolationsOf(body: Body, fs: seq<Field>): (r: seq<string>)
    ensures r == [] <==> forall i :: 0 <= i < |fs| ==> FieldOk(body, fs[i])
    decreases |fs|
  {
    if fs == [] then [] else FieldViolations(body, fs[0]) + ViolationsOf(body, fs[1..])
  }

  /** Every violation of `schema` by `body`, in schema order. */
  function Violations(schema: Schema, body: Body): seq<string> {
    ViolationsOf(body, Fields)
  }

  predicate Accepts(schema: Schema, body: Body) {
    Violations(schema, body) == []
  }

  /**
   * The schema accepts exactly the bodies whose every field has the accepted
   * shape: five non-empty strings and an integer age of at least 1.
   */
  lemma AcceptsIff(body: Body)
    ensures Accepts(CreateStudentSchema, body) <==> forall f: Field :: FieldOk(body, f)
  {
    assert Fields[0] == Name && Fields[1] == RollNumber && Fields[2] == Course;
    assert Fields[3] == Age && Fields[4] == Std && Fields[5] == Division;
    if forall i :: 0 <= i < |Fields| ==> FieldOk(body, Fields[i]) {
      forall f: Field
        ensures FieldOk(body, f)
      {
        match f
        case Name => assert FieldOk(body, Fields[0]);
        case RollNumber => assert FieldOk(body, Fields[1]);
        case Course => assert FieldOk(body, Fields[2]);
        case Age => assert FieldOk(body, Fields[3]);
        case Std => assert FieldOk(body, Fields[4]);
        case Division => assert FieldOk(body, Fields[5]);
      }
    }
  }

  /**
   * The first reported violation belongs to the first offending field in
   * schema order, and is that field's first message.
   */
  lemma {:induction false} FirstViolationOf(body: Body, fs: seq<Field>, i: nat)
    requires i < |fs|
    requires forall j :: 0 <= j < i ==> FieldOk(body, fs[j])
    requires !FieldOk(body, fs[i])
    ensures |ViolationsOf(body, fs)| > 0
    ensures ViolationsOf(body, fs)[0] == FieldViolations(body, fs[i])[0]
    decreases i
  {
    var head := FieldViolations(body, fs[0]);
    var tail := ViolationsOf(body, fs[1..]);
    assert ViolationsOf(body, fs) == head + tail;
    if i > 0 {
      assert FieldOk(body, fs[0]);
      assert head == [];
      assert forall j :: 0 <= j < i - 1 ==> fs[1..][j] == fs[j + 1];
      FirstViolationOf(body, fs[1..], i - 1);
    } else {
      assert head != [];
    }
  }

  /** Keys the schema does not name are stripped, never reported. */
  lemma {:induction false} IgnoresUnknownKeys(body: Body, fs: seq<Field>, k: string, v: Value)
    requires forall i :: 0 <= i < |fs| ==> Key(fs[i]) != k
    ensures ViolationsOf(body[k := v], fs) == ViolationsOf(body, fs)
    decreases |fs|
  {
    if fs != [] {
      IgnoresUnknownKeys(body, fs[1..], k, v);
      assert FieldViolations(body[k := v], fs[0]) == FieldViolations(body, fs[0]);
    }
  }
}
