/** The values a decoded JSON request body may hold. */
module Json {
  import opened Wrappers

  /** A decoded JSON value. Numbers keep only an integer; see README. */
  datatype Value =
    | Str(s: string)
    | Num(n: int)
    | Bool(b: bool)
    | Null
    | Arr(items: seq<Value>)
    | Obj(fields: map<string, Value>)

  /** Python's `len` on a decoded value: the characters of a string, the
      elements of a list, the keys of a dict; `None` where `len` raises
      `TypeError` (numbers, booleans and null). */
  function Len(v: Value): (n: Option<nat>)
    ensures n.Some? <==> (v.Str? || v.Arr? || v.Obj?)
  {
    match v
    case Str(s) => Some(|s|)
    case Arr(items) => Some(|items|)
    case Obj(fields) => Some(|fields|)
    case _ => None
  }
}
