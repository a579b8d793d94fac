/**
 * Parsed JSON values as the relay sees them in the provider's reply, with the
 * two pieces of JavaScript semantics the error path uses: optional-chaining
 * property access (`v?.key`) and truthiness (`a || b`).
 */
module Json {
  import opened Wrappers

  /** A parsed JSON value. An object is a map because `JSON.parse` keeps the last of duplicate keys. */
  datatype Json =
    | JNull
    | JBool(b: bool)
    | JNumber(n: real)
    | JString(s: string)
    | JArray(items: seq<Json>)
    | JObject(members: map<string, Json>)

  /**
   * `v?.key` where `v` may itself be undefined (`None`). Only an object has an
   * own property named by a JSON key; on `null`, a primitive or an array the
   * properties the relay asks for (`status`, `msg`) are undefined.
   */
  function Member(v: Option<Json>, key: string): (r: Option<Json>)
    ensures r.Some? <==> v.Some? && v.value.JObject? && key in v.value.members
    ensures r.Some? ==> r.value == v.value.members[key]
  {
    match v
    case Some(JObject(m)) => if key in m then Some(m[key]) else None
    case _ => None
  }

  /** JavaScript truthiness of a defined JSON value: `null`, `false`, `0` and `""` are falsy. */
  predicate Truthy(v: Json)
  {
    match v
    case JNull => false
    case JBool(b) => b
    case JNumber(n) => n != 0.0
    case JString(s) => s != ""
    case JArray(_) => true
    case JObject(_) => true
  }

  /** `{ error: e }`, the body of every error response. */
  function ErrorBody(e: Json): (r: Json)
    ensures r.JObject? && r.members.Keys == {"error"} && r.members["error"] == e
  {
    JObject(map["error" := e])
  }
}
