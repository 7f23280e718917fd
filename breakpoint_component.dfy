/** The `lerpTo` method of the breakpoint custom element.

    The element reads its two numbers from its input fields; here they are
    passed in as a plain `Breakpoint`.  The body is a copy of
    `lerpBreakpoints`, kept as a copy so that the two can be shown to agree. */
module BreakpointComponent {
  import opened JsNumber
  import opened Css
  import opened Interpolator

  /** `element.lerpTo(target, clamp)`: the CSS text interpolating from this
      element's breakpoint to `target`'s; the clamp mode defaults to `None`.
      It yields exactly what `lerpBreakpoints(element, target, clamp)` does,
      so every property of the interpolator holds of it too. */
  function LerpTo(element: Breakpoint, target: Breakpoint, clamp: ClampMode := None): (s: string)
    ensures s == LerpBreakpoints(element, target, clamp)
  {
    var viewportFrom, viewportTo := element.viewportValue, target.viewportValue;
    var resultFrom, resultTo := element.resultingValue, target.resultingValue;
    var min := MathMin(resultFrom, resultTo);
    var max := MathMax(resultFrom, resultTo);
    var d1 := Sub(resultTo, resultFrom);
    var d2 := Sub(viewportTo, viewportFrom);
    var m := Div(d1, d2);
    var n := Sub(resultFrom, Mul(viewportFrom, m));
    var direction := if Eq(d1, Val(0.0)) then Constant else if Gt(d1, Val(0.0)) then Increasing else Decreasing;
    var code := Linear(n, Mul(m, Val(100.0)));
    assert code == LineFormula(element, target);
    assert direction == DirectionOf(element, target);
    var value :=
      if direction == Constant || clamp == None then Calc(code)
      else if clamp == Both then Clamp(min, code, max)
      else if (clamp == From && direction == Increasing) || (clamp == To && direction == Decreasing) then
        Max(min, code)
      else Min(max, code);
    assert value == Lerp(element, target, clamp);
    Render(value)
  }
}
