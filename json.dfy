/** The values `JSON.parse` can produce, and JavaScript truthiness on them. */
module JsonValues {

  /** A parsed JSON document. Numbers are kept as exact reals: the `Infinity` that
      JavaScript gives an out-of-range literal such as `1e999` has no counterpart here. */
  datatype Json =
    | JNull
    | JBool(b: bool)
    | JNumber(n: real)
    | JString(s: string)
    | JArray(elems: seq<Json>)
    | JObject(members: seq<(string, Json)>)

  /** What `if (json)` tests: `null`, `false`, `0`, `-0` and `""` are falsy; every array
      and object (even an empty one) is truthy. */
  predicate Truthy(j: Json) {
    match j
    case JNull => false
    case JBool(b) => b
    case JNumber(n) => n != 0.0
    case JString(s) => s != ""
    case JArray(_) => true
    case JObject(_) => true
  }
}
