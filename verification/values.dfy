/** Parsed JSON values as the bridge receives them from `json.loads`, together
    with the two pieces of Python semantics the bridge relies on: truthiness
    (`if v:`) and comparison against a string literal (`v == 'lit'`). */
module Values {

  /** A value that may be absent, such as the result of a dictionary lookup. */
  datatype Option<+T> = None | Some(value: T)

  /** A JSON value after decoding: `null`, booleans, integers, floats,
      strings, arrays and objects. */
  datatype Json =
    | JNull
    | JBool(b: bool)
    | JInt(i: int)
    | JFloat(x: real)
    | JStr(s: string)
    | JList(items: seq<Json>)
    | JObject(fields: map<string, Json>)

  /** Python's `bool(v)` for a decoded JSON value: `None`, `False`, zero,
      the empty string and empty containers are false, everything else true. */
  predicate Truthy(v: Json)
  {
    match v
    case JNull => false
    case JBool(b) => b
    case JInt(i) => i != 0
    case JFloat(x) => x != 0.0
    case JStr(s) => |s| > 0
    case JList(items) => |items| > 0
    case JObject(fields) => |fields| > 0
  }

  /** Python's `v == lit` for a string literal `lit`: only a `str` with the
      same characters compares equal (no number or boolean equals a string). */
  predicate IsString(v: Json, lit: string)
  {
    v.JStr? && v.s == lit
  }

  /** Whether `v` can be used as a dictionary key: lists and dicts raise
      `TypeError: unhashable type`. */
  predicate Hashable(v: Json)
  {
    !v.JList? && !v.JObject?
  }

  /** Looking a key up in a dictionary, `d.get(k)`. */
  function Get<K, V>(m: map<K, V>, k: K): (r: Option<V>)
    ensures r.Some? <==> k in m
    ensures r.Some? ==> m[k] == r.value
  {
    if k in m then Some(m[k]) else None
  }
}
