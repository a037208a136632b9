/**
 * The values a Lambda event and `json.loads` hand to the handler, with the two Python
 * operations the handler applies to them before looking at strings: truthiness (`not v`)
 * and membership of a str key (`key in v`).
 */
module Json {
  import opened Wrappers

  /** A JSON value as Python holds it once an event is built or `json.loads` has run. A
      number is significand * 10^exponent; `json.loads` rounds non-integer literals to a
      double, so a decoder turns a literal such as 1e-400 into the zero it becomes. */
  datatype JsonValue =
    | JNull
    | JBool(b: bool)
    | JNumber(significand: int, exponent: int)
    | JString(s: string)
    | JArray(items: seq<JsonValue>)
    | JObject(fields: map<string, JsonValue>)

  /** Python truthiness: None, False, zero, "", [] and {} are false, everything else true. */
  predicate Truthy(v: JsonValue)
  {
    match v
    case JNull => false
    case JBool(b) => b
    case JNumber(m, _) => m != 0
    case JString(s) => s != ""
    case JArray(items) => items != []
    case JObject(fields) => fields != map[]
  }

  /** Python's `needle in hay` on two str values: needle occurs as a contiguous run of hay. */
  predicate IsSubstring(needle: string, hay: string)
    decreases |hay|
  {
    needle <= hay || (hay != [] && IsSubstring(needle, hay[1..]))
  }

  /** Python's `key in v` for a str key: dict key membership, list element equality,
      substring search in a str; None when Python raises TypeError (None, a bool, a number). */
  function Contains(v: JsonValue, key: string): Option<bool>
  {
    match v
    case JObject(fields) => Some(key in fields)
    case JArray(items) => Some(JString(key) in items)
    case JString(s) => Some(IsSubstring(key, s))
    case _ => None
  }

  /** The str values in ss as JSON strings, the shape json.dumps gives a list of str. */
  function Strings(ss: seq<string>): seq<JsonValue>
  {
    seq(|ss|, i requires 0 <= i < |ss| => JString(ss[i]))
  }
}
