/** Linear interpolation between two breakpoints as a CSS length
    (`lerpBreakpoints`).

    The line through the two breakpoints is written `n px + 100·m vw`, with
    slope `m` per px of viewport width and intercept `n`, and wrapped in
    `calc()`, `clamp()`, `max()` or `min()` according to the clamp mode and to
    whether the value rises, falls or stays along the segment. */
module Interpolator {
  import opened JsNumber
  import opened Css

  /** At viewport width `viewportValue` px the property is `resultingValue` px. */
  datatype Breakpoint = Breakpoint(viewportValue: Num, resultingValue: Num)

  /** How the interpolated value is held outside the segment:
      `From` stops it scaling before the first breakpoint, `To` past the
      second, `Both` does both, `None` neither. */
  datatype ClampMode = None | From | To | Both

  datatype Direction = Constant | Increasing | Decreasing

  /** The direction of a segment, from the difference of its resulting values
      (`d1 == 0`, then `d1 > 0`; a NaN difference falls through to decreasing). */
  function DirectionOf(source: Breakpoint, target: Breakpoint): Direction
  {
    var d1 := Sub(target.resultingValue, source.resultingValue);
    if Eq(d1, Val(0.0)) then Constant else if Gt(d1, Val(0.0)) then Increasing else Decreasing
  }

  /** The line through the two breakpoints: slope `m = d1 / d2` per px of
      viewport width, intercept `n`, written `n px + (m * 100) vw`. */
  function LineFormula(source: Breakpoint, target: Breakpoint): Linear
  {
    var d1 := Sub(target.resultingValue, source.resultingValue);
    var d2 := Sub(target.viewportValue, source.viewportValue);
    var m := Div(d1, d2);
    var n := Sub(source.resultingValue, Mul(source.viewportValue, m));
    Linear(n, Mul(m, Val(100.0)))
  }

  /** The CSS value interpolating from `source` to `target`; the clamp mode
      defaults to `None`. */
  function Lerp(source: Breakpoint, target: Breakpoint, clamp: ClampMode := None): (v: CssValue)
    ensures v.formula == LineFormula(source, target)
    ensures v.Calc? <==> DirectionOf(source, target) == Constant || clamp == None
    ensures v.Clamp? <==> DirectionOf(source, target) != Constant && clamp == Both
    ensures v.Max? <==> ((clamp == From && DirectionOf(source, target) == Increasing) ||
                         (clamp == To && DirectionOf(source, target) == Decreasing))
    ensures v.Min? <==> ((clamp == From && DirectionOf(source, target) == Decreasing) ||
                         (clamp == To && DirectionOf(source, target) == Increasing))
    ensures v.Clamp? || v.Max? ==> v.lo == MathMin(source.resultingValue, target.resultingValue)
    ensures v.Clamp? || v.Min? ==> v.hi == MathMax(source.resultingValue, target.resultingValue)
  {
    var min := MathMin(source.resultingValue, target.resultingValue);
    var max := MathMax(source.resultingValue, target.resultingValue);
    var direction := DirectionOf(source, target);
    var code := LineFormula(source, target);
    if direction == Constant || clamp == None then Calc(code)
    else if clamp == Both then Clamp(min, code, max)
    else if (clamp == From && direction == Increasing) || (clamp == To && direction == Decreasing) then
      Max(min, code)
    else
      assert (clamp == From && direction == Decreasing) || (clamp == To && direction == Increasing);
      Min(max, code)
  }

  /** `lerpBreakpoints`: the CSS text of the interpolated value.  It is a
      `calc()` exactly when the segment is constant or nothing is clamped. */
  function LerpBreakpoints(source: Breakpoint, target: Breakpoint, clamp: ClampMode := None): (s: string)
    ensures (|s| > 5 && s[..5] == "calc(") <==> (DirectionOf(source, target) == Constant || clamp == None)
  {
    RenderCalcPrefix(Lerp(source, target, clamp));
    Render(Lerp(source, target, clamp))
  }

  // ---------------------------------------------------------------------
  // Meaning over the reals

  /** A breakpoint whose two numbers are finite, as a point in the plane. */
  datatype Point = Point(width: real, value: real)

  predicate FiniteBreakpoint(b: Breakpoint)
  {
    b.viewportValue.Val? && b.resultingValue.Val?
  }

  function PointOf(b: Breakpoint): Point
    requires FiniteBreakpoint(b)
  {
    Point(b.viewportValue.r, b.resultingValue.r)
  }

  /** The straight line through two points of different widths, at `x`. */
  function LineThrough(p: Point, q: Point, x: real): real
    requires p.width != q.width
  {
    p.value + (q.value - p.value) * (x - p.width) / (q.width - p.width)
  }

  /** What a clamp mode promises at viewport width `x` for the segment from
      `p` to `q`: the value is held at `p` before `p` (`From`, `Both`), held
      at `q` after `q` (`To`, `Both`), and follows the line otherwise. */
  function Intended(p: Point, q: Point, clamp: ClampMode, x: real): real
    requires p.width < q.width
  {
    if (clamp == From || clamp == Both) && x <= p.width then p.value
    else if (clamp == To || clamp == Both) && x >= q.width then q.value
    else LineThrough(p, q, x)
  }

  lemma LineThroughEnds(p: Point, q: Point)
    requires p.width != q.width
    ensures LineThrough(p, q, p.width) == p.value
    ensures LineThrough(p, q, q.width) == q.value
  {
    var d := q.width - p.width;
    assert (q.value - p.value) * d / d == q.value - p.value;
  }

  /** On a rising segment the line lies below `p` before it and above it
      after it, and likewise around `q`; mirrored on a falling segment. */
  lemma LineOrder(p: Point, q: Point, x: real)
    requires p.width < q.width
    ensures p.value <= q.value ==>
      (x <= p.width ==> LineThrough(p, q, x) <= p.value) &&
      (p.width <= x ==> p.value <= LineThrough(p, q, x)) &&
      (x <= q.width ==> LineThrough(p, q, x) <= q.value) &&
      (q.width <= x ==> q.value <= LineThrough(p, q, x))
    ensures q.value <= p.value ==>
      (x <= p.width ==> p.value <= LineThrough(p, q, x)) &&
      (p.width <= x ==> LineThrough(p, q, x) <= p.value) &&
      (x <= q.width ==> q.value <= LineThrough(p, q, x)) &&
      (q.width <= x ==> LineThrough(p, q, x) <= q.value)
  {
    var d := q.width - p.width;
    var rise := q.value - p.value;
    var y := LineThrough(p, q, x);
    assert y - p.value == (rise / d) * (x - p.width);
    assert q.value - y == (rise / d) * (q.width - x) by {
      assert rise == (rise / d) * d;
    }
    SignOfProduct(rise / d, x - p.width);
    SignOfProduct(rise / d, q.width - x);
    assert rise >= 0.0 <==> rise / d >= 0.0;
    assert rise <= 0.0 <==> rise / d <= 0.0;
  }

  lemma SignOfProduct(a: real, b: real)
    ensures a >= 0.0 && b >= 0.0 ==> a * b >= 0.0
    ensures a <= 0.0 && b <= 0.0 ==> a * b >= 0.0
    ensures a >= 0.0 && b <= 0.0 ==> a * b <= 0.0
    ensures a <= 0.0 && b >= 0.0 ==> a * b <= 0.0
  {
  }

  /** With finite breakpoints of different widths every number in the
      generated value is finite, and the unrounded formula `n + m·x` is the
      line through the two breakpoints. */
  lemma LerpFormulaIsLine(source: Breakpoint, target: Breakpoint, clamp: ClampMode, x: real)
    requires FiniteBreakpoint(source) && FiniteBreakpoint(target)
    requires source.viewportValue.r != target.viewportValue.r
    ensures Finite(Lerp(source, target, clamp))
    ensures FormulaAt(Lerp(source, target, clamp).formula, x) == LineThrough(PointOf(source), PointOf(target), x)
  {
    var a, b := source.viewportValue.r, target.viewportValue.r;
    var A, B := source.resultingValue.r, target.resultingValue.r;
    LineFormulaFinite(source, target);
    LineArithmetic(a, b, A, B, x);
  }

  /** Between finite numbers the source's arithmetic is exact arithmetic on
      the reals: `m = (B - A) / (b - a)` and `n = A - a·m`. */
  lemma LineFormulaFinite(source: Breakpoint, target: Breakpoint)
    requires FiniteBreakpoint(source) && FiniteBreakpoint(target)
    requires source.viewportValue.r != target.viewportValue.r
    ensures var a, b := source.viewportValue.r, target.viewportValue.r;
            var A, B := source.resultingValue.r, target.resultingValue.r;
            var m := (B - A) / (b - a);
            LineFormula(source, target) == Linear(Val(A - a * m), Val(m * 100.0))
  {
    var a, b := source.viewportValue.r, target.viewportValue.r;
    var A, B := source.resultingValue.r, target.resultingValue.r;
    var d1 := Sub(target.resultingValue, source.resultingValue);
    var d2 := Sub(target.viewportValue, source.viewportValue);
    assert d1 == Val(B - A);
    assert d2 == Val(b - a);
    var m := Div(d1, d2);
    assert m == Val((B - A) / (b - a));
    assert Mul(source.viewportValue, m) == Val(a * m.r);
  }

  lemma LineArithmetic(a: real, b: real, A: real, B: real, x: real)
    requires a != b
    ensures var m := (B - A) / (b - a);
            (A - a * m) + m * 100.0 * x / 100.0 == LineThrough(Point(a, A), Point(b, B), x)
  {
    var m := (B - A) / (b - a);
    calc {
      (A - a * m) + m * 100.0 * x / 100.0;
      A + m * (x - a);
      { assert m * (x - a) == (B - A) * (x - a) / (b - a); }
      LineThrough(Point(a, A), Point(b, B), x);
    }
  }

  /** The unrounded formula equals `source.resultingValue` at
      `source.viewportValue` and `target.resultingValue` at
      `target.viewportValue`. */
  lemma LerpPassesThroughBreakpoints(source: Breakpoint, target: Breakpoint, clamp: ClampMode)
    requires FiniteBreakpoint(source) && FiniteBreakpoint(target)
    requires source.viewportValue.r != target.viewportValue.r
    ensures Finite(Lerp(source, target, clamp))
    ensures FormulaAt(Lerp(source, target, clamp).formula, source.viewportValue.r) == source.resultingValue.r
    ensures FormulaAt(Lerp(source, target, clamp).formula, target.viewportValue.r) == target.resultingValue.r
  {
    LerpFormulaIsLine(source, target, clamp, source.viewportValue.r);
    LerpFormulaIsLine(source, target, clamp, target.viewportValue.r);
    LineThroughEnds(PointOf(source), PointOf(target));
  }

  /** For finite breakpoints the direction is the sign of the change in the
      resulting value. */
  lemma DirectionFollowsValues(source: Breakpoint, target: Breakpoint)
    requires source.resultingValue.Val? && target.resultingValue.Val?
    ensures DirectionOf(source, target) == Constant <==> target.resultingValue.r == source.resultingValue.r
    ensures DirectionOf(source, target) == Increasing <==> target.resultingValue.r > source.resultingValue.r
    ensures DirectionOf(source, target) == Decreasing <==> target.resultingValue.r < source.resultingValue.r
  {
  }

  /** The bounds of `clamp()` are in order for any two resulting values that
      are numbers, infinite ones included. */
  lemma ClampBoundsOrdered(source: Breakpoint, target: Breakpoint, clamp: ClampMode)
    requires !source.resultingValue.NaN? && !target.resultingValue.NaN?
    ensures Lerp(source, target, clamp).Clamp? ==>
      Le(Lerp(source, target, clamp).lo, Lerp(source, target, clamp).hi)
  {
    MinLeMax(source.resultingValue, target.resultingValue);
  }

  /** The main property of the interpolator: on a segment of positive width,
      the generated value at every viewport width `x` is what the clamp mode
      promises, computed on the unrounded line. */
  lemma LerpMeetsIntent(source: Breakpoint, target: Breakpoint, clamp: ClampMode, x: real)
    requires FiniteBreakpoint(source) && FiniteBreakpoint(target)
    requires source.viewportValue.r < target.viewportValue.r
    ensures Finite(Lerp(source, target, clamp))
    ensures ValueAt(Lerp(source, target, clamp), x) == Intended(PointOf(source), PointOf(target), clamp, x)
  {
    var p, q := PointOf(source), PointOf(target);
    var v := Lerp(source, target, clamp);
    LerpFormulaIsLine(source, target, clamp, x);
    LineThroughEnds(p, q);
    LineOrder(p, q, x);
    var y := LineThrough(p, q, x);
    if p.value == q.value {
      assert y == p.value;
    } else if p.value < q.value {
      assert DirectionOf(source, target) == Increasing;
    } else {
      assert DirectionOf(source, target) == Decreasing;
    }
  }

  /** `clamp` mode `Both` keeps the value between the smaller and the larger
      resulting value at every viewport width. */
  lemma BothStaysWithinBounds(source: Breakpoint, target: Breakpoint, x: real)
    requires FiniteBreakpoint(source) && FiniteBreakpoint(target)
    requires source.viewportValue.r != target.viewportValue.r
    ensures Finite(Lerp(source, target, Both))
    ensures RealMin(source.resultingValue.r, target.resultingValue.r)
            <= ValueAt(Lerp(source, target, Both), x)
            <= RealMax(source.resultingValue.r, target.resultingValue.r)
  {
    LerpFormulaIsLine(source, target, Both, x);
    if source.resultingValue.r == target.resultingValue.r {
      assert LineThrough(PointOf(source), PointOf(target), x) == source.resultingValue.r;
    }
  }

  /** `From` on a rising segment never goes below the first breakpoint's
      value; `To` on a rising segment never goes above the second's. */
  lemma RisingClampsHold(source: Breakpoint, target: Breakpoint, x: real)
    requires FiniteBreakpoint(source) && FiniteBreakpoint(target)
    requires source.viewportValue.r != target.viewportValue.r
    requires source.resultingValue.r < target.resultingValue.r
    ensures Finite(Lerp(source, target, From)) && Finite(Lerp(source, target, To))
    ensures ValueAt(Lerp(source, target, From), x) >= source.resultingValue.r
    ensures ValueAt(Lerp(source, target, To), x) <= target.resultingValue.r
  {
    LerpFormulaIsLine(source, target, From, x);
    LerpFormulaIsLine(source, target, To, x);
  }
}
