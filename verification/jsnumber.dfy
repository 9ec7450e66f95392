/**
 The slice of JavaScript's number type the counter touches: the arithmetic
 is exact (real numbers), and `NaN` is kept because a label without digits
 makes `parseInt` return it. Infinities are not modelled: with exact arithmetic
 and a positive duration they never arise.
 */
module JsNumber {

  datatype Num = Real(v: real) | NaN

  /** `a + b`: NaN is absorbing. */
  function Add(a: Num, b: Num): (r: Num)
    ensures r.NaN? <==> a.NaN? || b.NaN?
  {
    if a.NaN? || b.NaN? then NaN else Real(a.v + b.v)
  }

  /** `a / b` for a non-zero finite divisor. */
  function Div(a: Num, b: real): (r: Num)
    requires b != 0.0
    ensures r.NaN? <==> a.NaN?
    ensures a.Real? ==> r.v * b == a.v
  {
    if a.NaN? then NaN else Real(a.v / b)
  }

  /** `a >= b`: every comparison involving NaN is false. */
  function AtLeast(a: Num, b: Num): (r: bool)
    ensures a.NaN? || b.NaN? ==> !r
    ensures a.Real? && b.Real? ==> (r <==> !(a.v < b.v))
  {
    a.Real? && b.Real? && a.v >= b.v
  }

  /** `Math.floor(a)`. */
  function Floor(a: Num): (r: Num)
    ensures r.NaN? <==> a.NaN?
    ensures r.Real? ==> IsWhole(r) && r.v <= a.v < r.v + 1.0
  {
    if a.NaN? then NaN else Real(a.v.Floor as real)
  }

  /** A finite number with no fractional part. */
  predicate IsWhole(a: Num) {
    a.Real? && a.v == a.v.Floor as real
  }

  function FromNat(n: nat): (r: Num)
    ensures IsWhole(r) && r.v >= 0.0
  {
    Real(n as real)
  }
}
