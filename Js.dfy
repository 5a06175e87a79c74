/** The few pieces of JavaScript semantics the article store relies on. */
module Js {

  /** The result of `parseInt`: a number, or `None` for NaN. */
  datatype Option<+T> = None | Some(value: T)

  /**
   * A value decoded from a JSON request body. A field the body does not
   * carry reads as `Undefined`. JSON numbers are kept as reals.
   */
  datatype Value =
    | Undefined
    | Null
    | Bool(b: bool)
    | Num(n: real)
    | Str(s: string)
    | Arr(items: seq<Value>)
    | Obj(entries: seq<(string, Value)>)

  /** JavaScript's ToBoolean, restricted to values a JSON body can hold. */
  predicate Truthy(v: Value) {
    match v
    case Undefined => false
    case Null => false
    case Bool(b) => b
    case Num(n) => n != 0.0
    case Str(s) => s != ""
    case Arr(_) => true
    case Obj(_) => true
  }

  /** The `a || b` operator: `a` when it is truthy, otherwise `b`. */
  function Or(a: Value, b: Value): (r: Value)
    ensures r == a || r == b
    ensures Truthy(r) <==> Truthy(a) || Truthy(b)
    ensures Truthy(a) ==> r == a
    ensures !Truthy(a) ==> r == b
  {
    if Truthy(a) then a else b
  }
}
