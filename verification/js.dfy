/** The slice of JavaScript value semantics the adapter depends on: what a
    property read yields, which values are truthy, what `a || b` returns and
    how `String(v)` renders a value before `parseInt` reads it. */
module Js {
  import opened Wrappers
  import JsNumber

  /** A JavaScript value. Numbers are integral (`NaN` apart); `PlainObject`
      stands for any non-null plain object, which is always truthy. */
  datatype Value =
    | Undefined
    | Null
    | Bool(b: bool)
    | Num(n: int)
    | NaN
    | Str(s: string)
    | PlainObject

  /** A plain object seen as its own enumerable properties. */
  type Props = map<string, Value>

  /** `obj[key]`: a missing property reads as `undefined`. */
  function Prop(obj: Props, key: string): (v: Value)
    ensures key !in obj ==> v == Undefined
    ensures key in obj ==> v == obj[key]
  {
    if key in obj then obj[key] else Undefined
  }

  /** ToBoolean: `undefined`, `null`, `false`, `0`, `NaN` and `""` are the falsy values. */
  predicate Truthy(v: Value) {
    match v
    case Undefined => false
    case Null => false
    case Bool(b) => b
    case Num(n) => n != 0
    case NaN => false
    case Str(s) => s != []
    case PlainObject => true
  }

  /** `a || b`: the left operand when it is truthy, the right one otherwise. */
  function Or(a: Value, b: Value): (r: Value)
    ensures Truthy(a) ==> r == a
    ensures !Truthy(a) ==> r == b
  {
    if Truthy(a) then a else b
  }

  /** `String(v)`. */
  function ToString(v: Value): string {
    match v
    case Undefined => "undefined"
    case Null => "null"
    case Bool(b) => if b then "true" else "false"
    case Num(n) => JsNumber.IntToString(n)
    case NaN => "NaN"
    case Str(s) => s
    case PlainObject => "[object Object]"
  }

  /** `parseInt(v) || 0`: the parsed integer, with NaN replaced by 0. */
  function ParseIntOrZero(v: Value): (r: int)
    // `parseInt` yields NaN or a number; `|| 0` turns both NaN and 0 into 0
    ensures Num(r) == Or(match JsNumber.ParseInt(ToString(v)) case None => NaN case Some(p) => Num(p), Num(0))
  {
    match JsNumber.ParseInt(ToString(v))
    case Some(p) => p
    case None => 0
  }
}
