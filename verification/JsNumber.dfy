/**
 * JavaScript numbers. Finite values are exact reals: the code modelled here
 * only compares, truncates and counts with them.
 */
module JsNumbers {

  datatype JsNumber = NaN | PosInfinity | NegInfinity | Finite(value: real)

  /** Math.trunc on a finite value. */
  function Trunc(r: real): int {
    if r >= 0.0 then r.Floor else -(-r).Floor
  }

  function Ceil(r: real): int { -(-r).Floor }

  predicate IsInteger(r: real) { r.Floor as real == r }

  /** x < y and x >= y; every comparison with NaN is false. */
  predicate Lt(x: JsNumber, y: JsNumber) {
    match x
    case NaN => false
    case PosInfinity => false
    case NegInfinity => y.Finite? || y.PosInfinity?
    case Finite(a) => y.PosInfinity? || (y.Finite? && a < y.value)
  }

  predicate Ge(x: JsNumber, y: JsNumber) {
    !x.NaN? && !y.NaN? && !Lt(x, y)
  }

  const MAX_SAFE_INTEGER := 0x20_0000_0000_0000 - 1

  /** Number.isSafeInteger */
  predicate IsSafeInteger(x: JsNumber) {
    x.Finite? && IsInteger(x.value) && -MAX_SAFE_INTEGER as real <= x.value <= MAX_SAFE_INTEGER as real
  }
}
