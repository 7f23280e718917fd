/** The CSS values the interpolator emits, as a small syntax tree, with
    their meaning at a given viewport width and their text.

    A formula `n px + k vw` is kept with its exact coefficients; the text
    rounds them to two decimals, the meaning does not.  `min()`, `max()` and
    `clamp()` mean what section 10.2 of CSS Values and Units Module Level 4
    says: the smallest argument, the largest argument, and
    `max(MIN, min(VAL, MAX))`. */
module Css {
  import opened JsNumber

  /** `px px + vw vw`: `vw` is one hundredth of the viewport width. */
  datatype Linear = Linear(px: Num, vw: Num)

  /** The four wrappers the interpolator chooses from. */
  datatype CssValue =
    | Calc(formula: Linear)
    | Clamp(lo: Num, formula: Linear, hi: Num)
    | Max(lo: Num, formula: Linear)
    | Min(hi: Num, formula: Linear)

  predicate LinearFinite(f: Linear)
  {
    f.px.Val? && f.vw.Val?
  }

  /** Every number in the value is finite, so the value has a meaning. */
  predicate Finite(v: CssValue)
  {
    LinearFinite(v.formula) &&
    match v
    case Calc(_) => true
    case Clamp(lo, _, hi) => lo.Val? && hi.Val?
    case Max(lo, _) => lo.Val?
    case Min(hi, _) => hi.Val?
  }

  function RealMin(a: real, b: real): real { if a <= b then a else b }

  function RealMax(a: real, b: real): real { if a <= b then b else a }

  /** The length in px a formula denotes at viewport width `width` px. */
  function FormulaAt(f: Linear, width: real): real
    requires LinearFinite(f)
  {
    f.px.r + f.vw.r * width / 100.0
  }

  /** The length in px a value denotes at viewport width `width` px. */
  function ValueAt(v: CssValue, width: real): (y: real)
    requires Finite(v)
    ensures v.Calc? ==> y == FormulaAt(v.formula, width)
    ensures v.Max? ==> y >= v.lo.r && y >= FormulaAt(v.formula, width)
    ensures v.Max? ==> y == v.lo.r || y == FormulaAt(v.formula, width)
    ensures v.Min? ==> y <= v.hi.r && y <= FormulaAt(v.formula, width)
    ensures v.Min? ==> y == v.hi.r || y == FormulaAt(v.formula, width)
    ensures v.Clamp? && v.lo.r <= v.hi.r ==> v.lo.r <= y <= v.hi.r
    ensures v.Clamp? && v.lo.r <= FormulaAt(v.formula, width) <= v.hi.r ==> y == FormulaAt(v.formula, width)
  {
    var f := FormulaAt(v.formula, width);
    match v
    case Calc(_) => f
    case Clamp(lo, _, hi) => RealMax(lo.r, RealMin(f, hi.r))
    case Max(lo, _) => RealMax(lo.r, f)
    case Min(hi, _) => RealMin(hi.r, f)
  }

  /** `n px + k vw`, each coefficient as `+x.toFixed(2)` prints it. */
  function LinearText(f: Linear): string
  {
    NumberText(Round2(f.px)) + "px + " + NumberText(Round2(f.vw)) + "vw"
  }

  /** The CSS function that wraps a value. */
  function FunctionName(v: CssValue): string
  {
    match v
    case Calc(_) => "calc"
    case Clamp(_, _, _) => "clamp"
    case Max(_, _) => "max"
    case Min(_, _) => "min"
  }

  /** The arguments of the wrapper, comma separated. */
  function Arguments(v: CssValue): string
  {
    match v
    case Calc(f) => LinearText(f)
    case Clamp(lo, f, hi) => NumberText(lo) + "px, " + LinearText(f) + ", " + NumberText(hi) + "px"
    case Max(lo, f) => NumberText(lo) + "px, " + LinearText(f)
    case Min(hi, f) => NumberText(hi) + "px, " + LinearText(f)
  }

  /** The CSS text of a value: a functional notation named after its wrapper. */
  function Render(v: CssValue): (s: string)
    ensures |s| > |FunctionName(v)| && s[..|FunctionName(v)| + 1] == FunctionName(v) + "("
    ensures s[|s| - 1] == ')'
  {
    Wrapped(FunctionName(v), Arguments(v));
    FunctionName(v) + "(" + Arguments(v) + ")"
  }

  lemma Wrapped(name: string, args: string)
    ensures (name + "(" + args + ")")[..|name| + 1] == name + "("
  {
    assert name + "(" + args + ")" == (name + "(") + (args + ")");
  }

  /** The text names the wrapper: two values with different wrappers never
      render to the same text. */
  lemma RenderKeepsWrapper(v: CssValue, w: CssValue)
    requires FunctionName(v) != FunctionName(w)
    ensures Render(v) != Render(w)
  {
    var a, b := FunctionName(v), FunctionName(w);
    // the four names already differ in one of their first two letters
    assert a[0] != b[0] || a[1] != b[1];
    PrefixAt(Render(v), a + "(", 0);
    PrefixAt(Render(v), a + "(", 1);
    PrefixAt(Render(w), b + "(", 0);
    PrefixAt(Render(w), b + "(", 1);
  }

  /** Only a `calc()` value renders to text beginning with `calc(`. */
  lemma RenderCalcPrefix(v: CssValue)
    ensures (|Render(v)| > 5 && Render(v)[..5] == "calc(") <==> v.Calc?
  {
    var s, name := Render(v), FunctionName(v);
    if !v.Calc? && |s| > 5 && s[..5] == "calc(" {
      // `clamp` parts from `calc` at its second letter, `max` and `min` at their first
      var i := if v.Clamp? then 1 else 0;
      PrefixAt(s, "calc(", i);
      PrefixAt(s, name + "(", i);
    }
  }

  lemma PrefixAt(s: string, p: string, i: nat)
    requires |p| <= |s| && s[..|p|] == p && i < |p|
    ensures s[i] == p[i]
  {
    assert s[..|p|][i] == s[i];
  }
}
