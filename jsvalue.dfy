/** Front-matter values and records as the build scripts see them: untyped
    key/value objects whose fields are tested for truthiness and turned into
    text with `String(...)` or a template literal. */
module JsValue {
  import opened Text

  datatype Option<+T> = None | Some(value: T) {
    function GetOr(default: T): T {
      match this
      case Some(v) => v
      case None => default
    }
  }

  /** A computation that either returns or throws. */
  datatype Result<+T> = Ok(value: T) | Throws

  /** A front-matter value. YAML values other than strings, integers and
      null (dates, floats, booleans, lists, maps) are carried abstractly by
      their truthiness and by the text `String(v)` gives for them. */
  datatype Value =
    | Str(s: string)
    | Int(n: int)
    | Null
    | Other(truthy: bool, text: string)

  /** A content record: the object spread from front-matter and extended by
      the loaders. An absent key is `undefined`. */
  type Record = map<string, Value>

  predicate Truthy(v: Value) {
    match v
    case Str(s) => s != ""
    case Int(n) => n != 0
    case Null => false
    case Other(t, _) => t
  }

  /** `record.field` used as a condition: present and truthy. */
  predicate TruthyField(m: Record, k: string) {
    k in m && Truthy(m[k])
  }

  /** `String(v)`. */
  function ToJsString(v: Value): string {
    match v
    case Str(s) => s
    case Int(n) => IntToString(n)
    case Null => "null"
    case Other(_, text) => text
  }

  /** `${record.field}` in a template literal: an absent field reads "undefined". */
  function FieldText(m: Record, k: string): string {
    if k in m then ToJsString(m[k]) else "undefined"
  }
}
