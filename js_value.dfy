/**
 * JavaScript values as the research service meets them: what `JSON.parse` yields from the
 * upstream text, plus `undefined` for a property that is not there and `NaN` for a number that
 * is not one. Only the operations the service applies to them are modelled: truthiness,
 * `a || b`, `Array.isArray` and a property read.
 */
module JsValue {

  datatype Value =
    | Undefined
    | Null
    | Bool(b: bool)
    | Number(x: real)
    | NaN
    | Str(s: string)
    | Array(elems: seq<Value>)
    | Object(props: map<string, Value>)

  /** JavaScript truthiness: `undefined`, `null`, `false`, `0`, `-0`, `NaN` and `""` are falsy. */
  predicate Truthy(v: Value) {
    match v
    case Undefined => false
    case Null => false
    case Bool(b) => b
    case Number(x) => x != 0.0
    case NaN => false
    case Str(s) => s != ""
    case Array(_) => true
    case Object(_) => true
  }

  /** The values whose property reads throw a `TypeError`. */
  predicate Nullish(v: Value) {
    v.Undefined? || v.Null?
  }

  /** `a || b`: the left operand when it is truthy, otherwise the right one. */
  function Or(a: Value, b: Value): Value {
    if Truthy(a) then a else b
  }

  /**
   * `v[key]` for a value that is not nullish: an own property of an object, `undefined` otherwise
   * (none of the keys the service reads is a property of a primitive or of an array).
   */
  function Get(v: Value, key: string): Value {
    match v
    case Object(props) => if key in props then props[key] else Undefined
    case _ => Undefined
  }
}
