/**
 * The part of JavaScript's value space that the deal-search handler and the
 * dashboard helpers touch. Record fields read from the database or from the
 * network can hold any of these, so they are typed `Value`; numbers produced
 * by the code itself are typed `Number`.
 */
module JsValues {

  /** A value the modelled code may leave out; `None` is what the code
      writes as `null`. */
  datatype Option<T> = None | Some(value: T)

  /** An IEEE number as far as this model needs it: NaN or a finite value.
      Infinities and negative zero are not modelled. */
  datatype Number = NaN | Fin(v: real)

  /** A JavaScript value. Objects are told apart by identity (`addr`), as
      `Set` and `===` do. */
  datatype Value =
    | Undefined
    | Null
    | Bool(b: bool)
    | Num(n: Number)
    | Str(s: string)
    | Ref(addr: nat)

  /** ToBoolean: the values `if (x)`, `!x` and `filter(Boolean)` treat as true. */
  predicate Truthy(x: Value) {
    match x
    case Undefined => false
    case Null => false
    case Bool(b) => b
    case Num(n) => n.Fin? && n.v != 0.0
    case Str(s) => s != []
    case Ref(_) => true
  }

  /** `null` or `undefined`: the values `??` replaces. */
  predicate Nullish(x: Value) {
    x.Undefined? || x.Null?
  }

  /** `a > b` on numbers: false as soon as either side is NaN. */
  predicate Greater(a: Number, b: Number) {
    a.Fin? && b.Fin? && a.v > b.v
  }

  /** ToIntegerOrInfinity (section 7.1.5 of ECMA-262) on a finite number:
      the fraction is dropped, rounding toward zero. */
  function Truncate(x: real): (t: int)
    ensures x >= 0.0 ==> 0 <= t && t as real <= x < t as real + 1.0
    ensures x < 0.0 ==> t <= 0 && t as real - 1.0 < x <= t as real
  {
    if x < 0.0 then -((-x).Floor) else x.Floor
  }

  /** An integer is its own truncation. */
  lemma TruncateInteger(k: int)
    ensures Truncate(k as real) == k
  {
  }

  /** The host's conversions from text to number that the model takes as
      given rather than defining: the global `parseFloat`, and
      StringToNumber (section 7.1.4.1.1 of ECMA-262), which `-` applies to
      a string operand. */
  datatype Host = Host(parseFloat: string -> Number, stringToNumber: string -> Number)

  /** ToNumber (section 7.1.4 of ECMA-262), as the subtraction `a - b`
      applies it to each operand. An object is converted through its
      `valueOf`/`toString`, which this model does not follow: it gives NaN. */
  function ToNumber(x: Value, js: Host): Number {
    match x
    case Undefined => NaN
    case Null => Fin(0.0)
    case Bool(b) => Fin(if b then 1.0 else 0.0)
    case Num(n) => n
    case Str(s) => js.stringToNumber(s)
    case Ref(_) => NaN
  }
}
