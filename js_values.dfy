/** The JavaScript values a request's parameters hold, and the parameter
    object itself. */
module JsValues {

  datatype Value = Undefined | Null | Bool(b: bool) | Str(s: string)

  /** What `if (v)` tests: `false`, `""`, `null` and `undefined` are falsy. */
  predicate Truthy(v: Value) {
    match v
    case Undefined => false
    case Null => false
    case Bool(b) => b
    case Str(s) => s != ""
  }

  /** The string a value becomes in `a + b` with a string operand, in a
      template literal and as the argument of `encodeURIComponent`. */
  function ToJsString(v: Value): string {
    match v
    case Undefined => "undefined"
    case Null => "null"
    case Bool(b) => if b then "true" else "false"
    case Str(s) => s
  }

  /** The own properties of a plain object, by name. */
  type Params = map<string, Value>

  /** Property access `p.key`: a missing property reads as `undefined`. */
  function Get(p: Params, key: string): Value {
    if key in p then p[key] else Undefined
  }

  /** `p` and `q` agree on property `key`: both lack it, or both hold the
      same value. */
  predicate SameAt(p: Params, q: Params, key: string) {
    (key !in p && key !in q) || (key in p && key in q && p[key] == q[key])
  }

  /** A plain JavaScript object; its properties are assigned and deleted in
      place. */
  class JsObject {
    var props: Params

    constructor (props: Params)
      ensures this.props == props
    {
      this.props := props;
    }
  }
}
