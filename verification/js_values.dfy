/** The JavaScript values that flow through the codec, the parser's type validators and the method callables. */
module JsValues {

  /**
   * A JavaScript value as far as the core distinguishes values:
   * `undefined`, `null`, booleans, numbers (integral only here), BN big numbers,
   * strings and plain objects (their own enumerable properties).
   */
  datatype Value =
    | Undefined
    | Null
    | Bool(b: bool)
    | Num(n: int)
    | BigNum(n: int)
    | Str(s: string)
    | Obj(props: map<string, Value>)

  /** `obj[key]`: a missing property reads as `undefined`. */
  function Get(props: map<string, Value>, key: string): (v: Value)
    ensures key !in props ==> v == Undefined
    ensures key in props ==> v == props[key]
  {
    if key in props then props[key] else Undefined
  }

  /** JavaScript truthiness: a BN is an object, so even BN(0) is truthy. */
  predicate Truthy(v: Value) {
    match v
    case Undefined => false
    case Null => false
    case Bool(b) => b
    case Num(n) => n != 0
    case BigNum(_) => true
    case Str(s) => s != ""
    case Obj(_) => true
  }

  /** `typeof v === 'object'`, which holds for `null` as well. */
  predicate IsObjectType(v: Value) {
    v.Null? || v.BigNum? || v.Obj?
  }
}
