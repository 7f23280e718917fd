/** JavaScript `number` values as the interpolator and the generator see them.

    A finite double is modelled as an exact `real`; the three non-finite
    values are explicit, so that `Number.isNaN`, `Number.isInteger` and the
    IEEE-754 special cases of `+ - * /` (infinities, `0/0`, `x/0`) can be
    stated.  Signed zero, overflow to Infinity and binary rounding are not
    modelled. */
module JsNumber {

  datatype Num = NaN | PosInf | NegInf | Val(r: real)

  predicate IsFinite(a: Num) { a.Val? }

  /** `Number.isNaN` */
  predicate IsNaN(a: Num) { a.NaN? }

  /** `Number.isInteger`: finite and without a fractional part. */
  predicate IsInteger(a: Num)
  {
    a.Val? && a.r == a.r.Floor as real
  }

  function Neg(a: Num): Num
  {
    match a
    case NaN => NaN
    case PosInf => NegInf
    case NegInf => PosInf
    case Val(x) => Val(-x)
  }

  /** Sign of a non-NaN number: -1, 0 or 1. */
  function Sign(a: Num): int
    requires !a.NaN?
  {
    match a
    case PosInf => 1
    case NegInf => -1
    case Val(x) => if x > 0.0 then 1 else if x < 0.0 then -1 else 0
  }

  function Add(a: Num, b: Num): (c: Num)
    ensures a.Val? && b.Val? ==> c == Val(a.r + b.r)
    ensures c.NaN? <==> a.NaN? || b.NaN? || (a.PosInf? && b.NegInf?) || (a.NegInf? && b.PosInf?)
  {
    match (a, b)
    case (NaN, _) => NaN
    case (_, NaN) => NaN
    case (PosInf, NegInf) => NaN
    case (NegInf, PosInf) => NaN
    case (PosInf, _) => PosInf
    case (_, PosInf) => PosInf
    case (NegInf, _) => NegInf
    case (_, NegInf) => NegInf
    case (Val(x), Val(y)) => Val(x + y)
  }

  function Sub(a: Num, b: Num): Num
  {
    Add(a, Neg(b))
  }

  function Mul(a: Num, b: Num): Num
  {
    if a.NaN? || b.NaN? then NaN
    else if a.Val? && b.Val? then Val(a.r * b.r)
    else if Sign(a) * Sign(b) == 0 then NaN            // Infinity * 0
    else if Sign(a) * Sign(b) > 0 then PosInf
    else NegInf
  }

  /** IEEE-754 division; a zero divisor is taken to be +0. */
  function Div(a: Num, b: Num): Num
  {
    if a.NaN? || b.NaN? then NaN
    else if !a.Val? && !b.Val? then NaN                // Infinity / Infinity
    else if !a.Val? then (if b.r >= 0.0 then a else Neg(a))
    else if !b.Val? then Val(0.0)
    else if b.r != 0.0 then Val(a.r / b.r)
    else if a.r == 0.0 then NaN                        // 0 / 0
    else if a.r > 0.0 then PosInf
    else NegInf
  }

  /** The `<` operator on numbers: false whenever NaN is involved. */
  predicate Lt(a: Num, b: Num)
  {
    if a.NaN? || b.NaN? then false
    else if a.Val? && b.Val? then a.r < b.r
    else (a.NegInf? && !b.NegInf?) || (b.PosInf? && !a.PosInf?)
  }

  /** The `==` operator on numbers: NaN equals nothing. */
  predicate Eq(a: Num, b: Num)
  {
    !a.NaN? && a == b
  }

  predicate Le(a: Num, b: Num) { Lt(a, b) || Eq(a, b) }

  predicate Gt(a: Num, b: Num) { Lt(b, a) }

  /** `Math.min` of two numbers: NaN if either is NaN, else the smaller. */
  function MathMin(a: Num, b: Num): (c: Num)
    ensures c.NaN? <==> a.NaN? || b.NaN?
    ensures !c.NaN? ==> (c == a || c == b) && Le(c, a) && Le(c, b)
  {
    if a.NaN? || b.NaN? then NaN else if Lt(a, b) then a else b
  }

  /** `Math.max` of two numbers: NaN if either is NaN, else the larger. */
  function MathMax(a: Num, b: Num): (c: Num)
    ensures c.NaN? <==> a.NaN? || b.NaN?
    ensures !c.NaN? ==> (c == a || c == b) && Le(a, c) && Le(b, c)
  {
    if a.NaN? || b.NaN? then NaN else if Lt(a, b) then b else a
  }

  /** `Math.min(a, b) <= Math.max(a, b)` for any two numbers that are not NaN. */
  lemma MinLeMax(a: Num, b: Num)
    requires !a.NaN? && !b.NaN?
    ensures Le(MathMin(a, b), MathMax(a, b))
  {
  }

  /** Round half away from zero to an integer, as `toFixed` does on magnitudes. */
  function RoundHalfAway(x: real): int
  {
    if x >= 0.0 then (x + 0.5).Floor else -((-x + 0.5).Floor)
  }

  /** `+x.toFixed(2)`: the number rounded to two decimal places. */
  function Round2(a: Num): (c: Num)
    ensures a.Val? <==> c.Val?
    ensures !a.Val? ==> c == a
    ensures a.Val? ==> -0.005 <= c.r - a.r <= 0.005
    ensures a.Val? ==> (c.r * 100.0).Floor as real == c.r * 100.0
  {
    match a
    case Val(x) =>
      var k := RoundHalfAway(x * 100.0);
      assert -0.5 <= k as real - x * 100.0 <= 0.5;
      Val(k as real / 100.0)
    case _ => a
  }

  function DigitChar(d: nat): char
    requires d < 10
  {
    "0123456789"[d]
  }

  /** Decimal digits of a natural number, most significant first. */
  function NatText(n: nat): (s: string)
    ensures |s| >= 1
  {
    if n < 10 then [DigitChar(n)] else NatText(n / 10) + [DigitChar(n % 10)]
  }

  /** The decimal digits of a fraction in [0, 1), stopping when it is exhausted
      or after `limit` digits. */
  function FractionDigits(f: real, limit: nat): string
    requires 0.0 <= f < 1.0
    decreases limit
  {
    if f == 0.0 || limit == 0 then ""
    else
      var d := (f * 10.0).Floor;
      [DigitChar(d)] + FractionDigits(f * 10.0 - d as real, limit - 1)
  }

  function MagnitudeText(x: real): string
    requires x >= 0.0
  {
    var whole := x.Floor;
    var fraction := FractionDigits(x - whole as real, 20);
    NatText(whole) + (if fraction == "" then "" else "." + fraction)
  }

  /** The text a template literal `${x}` produces for a number. */
  function NumberText(a: Num): string
  {
    match a
    case NaN => "NaN"
    case PosInf => "Infinity"
    case NegInf => "-Infinity"
    case Val(x) => if x < 0.0 then "-" + MagnitudeText(-x) else MagnitudeText(x)
  }
}
