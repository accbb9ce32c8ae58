/**
 * Parsed JSON values, the shape every record takes once `JSON.parse` has
 * read it, with the JavaScript operations the persistence layer applies to
 * them: truthiness, property access and `String(x)`. Numbers are integers.
 */
module JsonModel {
  import opened Wrappers
  import opened JsText

  datatype Json =
    | JNull
    | JBool(b: bool)
    | JNum(n: int)
    | JStr(s: string)
    | JArr(elems: seq<Json>)
    | JObj(fields: map<string, Json>)

  /** JavaScript truthiness: `null`, `false`, `0` and `""` are falsy. */
  predicate Truthy(j: Json) {
    match j
    case JNull => false
    case JBool(b) => b
    case JNum(n) => n != 0
    case JStr(s) => s != []
    case _ => true
  }

  /** Truthiness of a value that may be `undefined` (`None`). */
  predicate Present(v: Option<Json>) {
    v.Some? && Truthy(v.value)
  }

  /** `j[name]` for the record fields used here; `None` is `undefined`. */
  function Get(j: Json, name: string): (v: Option<Json>)
    ensures v.Some? ==> j.JObj? && name in j.fields && v.value == j.fields[name]
    ensures j.JObj? && name in j.fields ==> v.Some?
  {
    if j.JObj? && name in j.fields then Some(j.fields[name]) else None
  }

  /** `String(v)`: what an array element contributes to `Array.prototype.join`. */
  function JoinPart(j: Json): string {
    match j
    case JNull => ""
    case JBool(b) => if b then "true" else "false"
    case JNum(n) => IntToString(n)
    case JStr(s) => s
    case JArr(e) => Join(seq(|e|, i requires 0 <= i < |e| => JoinPart(e[i])))
    case JObj(_) => "[object Object]"
  }

  /** `parts.join(",")`. */
  function Join(parts: seq<string>): string {
    if parts == [] then ""
    else if |parts| == 1 then parts[0]
    else parts[0] + "," + Join(parts[1..])
  }

  /** `String(v)`, with `None` for `undefined`. */
  function ToJsString(v: Option<Json>): (r: string)
    ensures v.Some? && v.value.JStr? ==> r == v.value.s
  {
    match v
    case None => "undefined"
    case Some(JNull) => "null"
    case Some(j) => JoinPart(j)
  }
}
