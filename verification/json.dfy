/**
 * JSON values as they reach the model's JavaScript and Python code, with the two
 * languages' truthiness rules and JavaScript's `String(v)` conversion.
 * Numbers are integers here (see README, "Left out").
 */
module JsonData {
  import opened Wrappers
  import opened Strings

  datatype Json =
    | JNull
    | JBool(b: bool)
    | JNum(n: int)
    | JStr(s: string)
    | JArr(items: seq<Json>)
    | JObj(fields: map<string, Json>)

  /** A JSON object (`Record<string, unknown>`, a Python `dict`). */
  type Record = map<string, Json>

  /** ECMAScript ToBoolean: `null`, `false`, `0` and `""` are falsy; every array and object is truthy. */
  predicate JsTruthy(j: Json) {
    match j
    case JNull => false
    case JBool(b) => b
    case JNum(n) => n != 0
    case JStr(s) => s != ""
    case JArr(_) => true
    case JObj(_) => true
  }

  /** Python truth testing: `None`, `False`, `0`, `""`, `[]` and `{}` are falsy. */
  predicate PyTruthy(j: Json) {
    match j
    case JNull => false
    case JBool(b) => b
    case JNum(n) => n != 0
    case JStr(s) => s != ""
    case JArr(items) => items != []
    case JObj(fields) => fields != map[]
  }

  /** Property read `j.key` (JavaScript) or `j.get(key)` (Python): the own field, or nothing. */
  function Field(j: Json, key: string): Option<Json> {
    if j.JObj? && key in j.fields then Some(j.fields[key]) else None
  }

  /** ECMAScript `String(v)`; an array joins its elements with "," and shows `null` elements as "". */
  function JsString(j: Json): string
    decreases j
  {
    match j
    case JNull => "null"
    case JBool(b) => if b then "true" else "false"
    case JNum(n) => if n < 0 then "-" + NatToDecimal(-n) else NatToDecimal(n)
    case JStr(s) => s
    case JArr(items) =>
      Join(seq(|items|, i requires 0 <= i < |items| =>
        if items[i].JNull? then "" else JsString(items[i])), ",")
    case JObj(_) => "[object Object]"
  }
}
