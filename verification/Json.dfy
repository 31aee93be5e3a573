/** JSON values as serde_json holds them: an object is a map, so equality of values is
    equality up to key order. A number is kept as the text serde_json renders it to. */
module Json {
  import opened Wrappers

  datatype Json =
    | Null
    | Bool(b: bool)
    | Number(text: string)
    | Str(s: string)
    | Array(items: seq<Json>)
    | Object(fields: map<string, Json>)

  predicate IsNumberChar(c: char) { '0' <= c <= '9' || c in "+-.eE" }

  /** Rendered numbers begin with a minus sign or a digit and hold number characters only. */
  predicate IsNumberText(t: string) {
    t != [] && (t[0] == '-' || '0' <= t[0] <= '9') && forall i :: 0 <= i < |t| ==> IsNumberChar(t[i])
  }

  predicate WellFormed(v: Json) {
    match v
    case Number(t) => IsNumberText(t)
    case Array(items) => forall i :: 0 <= i < |items| ==> WellFormed(items[i])
    case Object(fields) => forall k :: k in fields ==> WellFormed(fields[k])
    case _ => true
  }

  /** `Value::get` and, for a text, `as_str` behind it. */
  function Get(v: Json, key: string): Option<Json> {
    if v.Object? && key in v.fields then Some(v.fields[key]) else None
  }

  function GetText(v: Json, key: string): Option<string> {
    match Get(v, key)
    case Some(Str(s)) => Some(s)
    case _ => None
  }
}
