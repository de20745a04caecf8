/**
 * The shared `variables` object: every variable the procedure knows, by name.
 * The source passes one object around and updates it in place; here it is a map
 * value that each operation takes and returns.
 */
module Variables {

  /** The JavaScript values that reach the variables object. `Other` stands for any value
      produced by user code, carried with its string conversion. */
  datatype JsValue = Undefined | Null | Str(s: string) | Other(shown: string)

  type Registry = map<string, JsValue>

  /** `String(value)`, the text a value shows as. */
  function Display(v: JsValue): (r: string)
    ensures v.Str? ==> r == v.s
    ensures v.Other? ==> r == v.shown
  {
    match v
    case Undefined => "undefined"
    case Null => "null"
    case Str(s) => s
    case Other(shown) => shown
  }
}
