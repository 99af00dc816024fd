/** The JSON request body as `express.json()` delivers it to the handlers. */
module Json {
  import opened Wrappers

  /** A JSON value. Numbers are reals so that non-integer ages can be expressed. */
  datatype Value =
    | JNull
    | JBool(b: bool)
    | JNum(x: real)
    | JStr(s: string)
    | JArray(items: seq<Value>)
    | JObject(members: seq<(string, Value)>)

  /** A request body: an absent key is JavaScript's `undefined`. */
  type Body = map<string, Value>

  function Get(body: Body, key: string): Option<Value> {
    if key in body then Some(body[key]) else None
  }

  /** JavaScript truthiness of a (possibly undefined) JSON value. */
  predicate Truthy(v: Option<Value>) {
    match v
    case None => false
    case Some(JNull) => false
    case Some(JBool(b)) => b
    case Some(JNum(x)) => x != 0.0
    case Some(JStr(s)) => s != ""
    case Some(_) => true
  }
}
