/** JSON values as decoded by `JSON.parse` (the build step) and by Python's
    `json.loads` / `resp.json()` (the data pipeline). Objects are maps from
    keys to values; numbers are reals. */
module Json {

  datatype Json =
    | JNull
    | JBool(b: bool)
    | JNumber(n: real)
    | JString(s: string)
    | JArray(items: seq<Json>)
    | JObject(fields: map<string, Json>)

  /** JavaScript truthiness: `null`, `false`, `0` and `""` are falsy, every
      array and every object (even an empty one) is truthy. */
  predicate JsTruthy(j: Json)
  {
    match j
    case JNull => false
    case JBool(b) => b
    case JNumber(n) => n != 0.0
    case JString(s) => s != ""
    case JArray(_) => true
    case JObject(_) => true
  }

  /** Python truthiness: additionally empty lists and empty dicts are falsy. */
  predicate PyTruthy(j: Json)
  {
    match j
    case JNull => false
    case JBool(b) => b
    case JNumber(n) => n != 0.0
    case JString(s) => s != ""
    case JArray(xs) => |xs| > 0
    case JObject(f) => |f| > 0
  }

  function Str(s: string): Json
  {
    JString(s)
  }
}
