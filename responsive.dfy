/** What the generated stylesheet means, read with its coefficients
    unrounded.

    The declarations `generateCode` writes are read by the rules of the CSS
    cascade: a declaration inside `@media screen and (min-width: Wpx)`
    applies when the viewport is at least `W` px wide, one outside any media
    query always applies, and of the declarations that apply the last one
    written wins.  Each value is taken as its syntax tree, with the exact
    intercept and slope; the text a browser reads rounds both to two
    decimals, which this module does not account for.  The theorem of this
    module is that the value so chosen, at every viewport width, is the
    piecewise-linear interpolation through the breakpoints, held constant
    before the first and after the last. */
module Responsive {
  import opened JsNumber
  import opened Css
  import opened Interpolator
  import opened Generator

  /** Whether a declaration's media condition holds at viewport width `x` px. */
  predicate Applies(m: Media, x: real)
  {
    match m
    case Always => true
    case MinWidth(w) => Le(w, Val(x))
  }

  /** The outcome of the cascade for one property. */
  datatype Cascaded = Unset | Set(value: CssValue)

  /** The value the cascade gives the property at viewport width `x`: the
      last declaration that applies, if any. */
  function Cascade(ds: seq<Declaration>, x: real): (c: Cascaded)
    ensures c.Set? <==> exists k :: 0 <= k < |ds| && Applies(ds[k].media, x)
  {
    if ds == [] then Unset
    else if Applies(ds[|ds| - 1].media, x) then Set(ds[|ds| - 1].value)
    else
      var rest := ds[..|ds| - 1];
      assert forall k :: 0 <= k < |rest| ==> rest[k] == ds[k];
      Cascade(rest, x)
  }

  /** The declaration at `k` is the one that wins when it applies and no
      later one does. */
  lemma {:induction false} CascadePicks(ds: seq<Declaration>, x: real, k: nat)
    requires k < |ds| && Applies(ds[k].media, x)
    requires forall j :: k < j < |ds| ==> !Applies(ds[j].media, x)
    ensures Cascade(ds, x) == Set(ds[k].value)
    decreases |ds|
  {
    if k < |ds| - 1 {
      var rest := ds[..|ds| - 1];
      assert !Applies(ds[|ds| - 1].media, x);
      assert rest[k] == ds[k];
      assert forall j :: k < j < |rest| ==> rest[j] == ds[j];
      CascadePicks(rest, x, k);
    }
  }

  // ---------------------------------------------------------------------
  // The reference: interpolation through points

  /** Widths strictly increase from each point to the next. */
  predicate WidthsIncrease(ps: seq<Point>)
  {
    forall i :: 0 < i < |ps| ==> ps[i - 1].width < ps[i].width
  }

  lemma {:induction false} WidthsAscend(ps: seq<Point>, i: nat, j: nat)
    requires WidthsIncrease(ps) && i < j < |ps|
    ensures ps[i].width < ps[j].width
    decreases j - i
  {
    if i + 1 < j {
      WidthsAscend(ps, i + 1, j);
    }
  }

  /** The value through the points at width `x`: the first point's value up
      to its width, the straight line between the two neighbours around
      `x`, and the last point's value from its width on. */
  function Interpolated(ps: seq<Point>, x: real): real
    requires |ps| >= 1 && WidthsIncrease(ps)
    decreases |ps|
  {
    if |ps| == 1 || x <= ps[0].width then ps[0].value
    else if x <= ps[1].width then LineThrough(ps[0], ps[1], x)
    else Interpolated(ps[1..], x)
  }

  /** Between two neighbouring points, the interpolation is the line
      through them. */
  lemma {:induction false} InterpolatedOnSegment(ps: seq<Point>, k: nat, x: real)
    requires WidthsIncrease(ps) && 1 <= k < |ps|
    requires ps[k - 1].width <= x <= ps[k].width
    ensures Interpolated(ps, x) == LineThrough(ps[k - 1], ps[k], x)
    decreases k
  {
    LineThroughEnds(ps[k - 1], ps[k]);
    LineThroughEnds(ps[0], ps[1]);
    if k > 1 {
      if k > 2 {
        WidthsAscend(ps, 1, k - 1);
      }
      if x > ps[1].width {
        var rest := ps[1..];
        assert rest[k - 2] == ps[k - 1] && rest[k - 1] == ps[k];
        InterpolatedOnSegment(rest, k - 1, x);
      }
    }
  }

  /** From the last point's width on, the interpolation is the last value. */
  lemma {:induction false} InterpolatedBeyond(ps: seq<Point>, x: real)
    requires |ps| >= 1 && WidthsIncrease(ps)
    requires x >= ps[|ps| - 1].width
    ensures Interpolated(ps, x) == ps[|ps| - 1].value
    decreases |ps|
  {
    if |ps| > 1 {
      WidthsAscend(ps, 0, |ps| - 1);
      if x <= ps[1].width {
        if |ps| > 2 {
          WidthsAscend(ps, 1, |ps| - 1);
        }
        LineThroughEnds(ps[0], ps[1]);
      } else {
        InterpolatedBeyond(ps[1..], x);
      }
    }
  }

  /** Where the clamping of the first and the last segment makes a segment
      agree with the interpolation: at any `x` from the start of segment
      `k` (or anywhere, for the first) up to its end (or anywhere beyond,
      for the last). */
  lemma IntendedIsInterpolated(ps: seq<Point>, k: nat, clamp: ClampMode, x: real)
    requires WidthsIncrease(ps) && 1 <= k < |ps|
    requires k > 1 ==> ps[k - 1].width <= x
    requires k < |ps| - 1 ==> x < ps[k].width
    requires k == 1 ==> clamp == From || clamp == Both
    requires k == |ps| - 1 ==> clamp == To || clamp == Both
    ensures Intended(ps[k - 1], ps[k], clamp, x) == Interpolated(ps, x)
  {
    LineThroughEnds(ps[k - 1], ps[k]);
    if x >= ps[k].width {
      InterpolatedBeyond(ps, x);
    } else if x >= ps[k - 1].width {
      InterpolatedOnSegment(ps, k, x);
    }
  }

  // ---------------------------------------------------------------------
  // The generated declarations, read by the cascade

  /** The breakpoints as points, once their numbers are all finite. */
  function Points(bps: seq<Breakpoint>): seq<Point>
    requires forall i :: 0 <= i < |bps| ==> FiniteBreakpoint(bps[i])
  {
    seq(|bps|, i requires 0 <= i < |bps| => PointOf(bps[i]))
  }

  /** The segment whose declaration wins at `x`: the last one that starts
      at or before `x`, or the first when `x` lies before the second point. */
  lemma SegmentAt(ps: seq<Point>, x: real) returns (k: nat)
    requires |ps| >= 2
    ensures 1 <= k < |ps|
    ensures k > 1 ==> ps[k - 1].width <= x
    ensures k < |ps| - 1 ==> x < ps[k].width
  {
    k := 1;
    while k < |ps| - 1 && ps[k].width <= x
      invariant 1 <= k < |ps|
      invariant k > 1 ==> ps[k - 1].width <= x
    {
      k := k + 1;
    }
  }

  /** With the segment chosen that way, its declaration is the one the
      cascade keeps. */
  lemma WinningDeclaration(bps: seq<Breakpoint>, k: nat, x: real)
    requires WellFormed(bps)
    requires 1 <= k < |bps|
    requires k > 1 ==> bps[k - 1].viewportValue.r <= x
    requires k < |bps| - 1 ==> x < bps[k].viewportValue.r
    ensures Cascade(Declarations(bps), x) == Set(SegmentDeclaration(bps, k).value)
  {
    var ds := Declarations(bps);
    SegmentWins(ds, bps, k, x);
  }

  /** The cascade over one declaration per segment, the first unconditional
      and each later one under `min-width` of its starting width, keeps the
      declaration of the segment around `x`. */
  lemma SegmentWins(ds: seq<Declaration>, bps: seq<Breakpoint>, k: nat, x: real)
    requires WellFormed(bps)
    requires 1 <= k < |bps| && |ds| == |bps| - 1
    requires ds[0].media == Always
    requires forall j :: 0 < j < |ds| ==> ds[j].media == MinWidth(bps[j].viewportValue)
    requires k > 1 ==> bps[k - 1].viewportValue.r <= x
    requires k < |bps| - 1 ==> x < bps[k].viewportValue.r
    ensures Cascade(ds, x) == Set(ds[k - 1].value)
  {
    assert AcceptedBreakpoint(bps[k - 1]);
    assert Applies(ds[k - 1].media, x);
    LaterDeclarationsIdle(ds, bps, k, x);
    CascadePicks(ds, x, k - 1);
  }

  /** Every declaration after that of segment `k` waits for a width past
      the end of segment `k`. */
  lemma LaterDeclarationsIdle(ds: seq<Declaration>, bps: seq<Breakpoint>, k: nat, x: real)
    requires WellFormed(bps)
    requires |ds| == |bps| - 1
    requires forall j :: 0 < j < |ds| ==> ds[j].media == MinWidth(bps[j].viewportValue)
    requires 1 <= k < |bps|
    requires k < |bps| - 1 ==> x < bps[k].viewportValue.r
    ensures forall j :: k - 1 < j < |ds| ==> !Applies(ds[j].media, x)
  {
    forall j | k - 1 < j < |ds|
      ensures !Applies(ds[j].media, x)
    {
      var w := bps[j].viewportValue;
      assert AcceptedBreakpoint(bps[j]);
      assert x < w.r by {
        if k < j {
          assert bps[k].viewportValue.r < w.r;
        }
      }
      BelowMinWidth(w, x);
    }
  }

  /** A `min-width` condition does not hold below its width. */
  lemma BelowMinWidth(w: Num, x: real)
    requires w.Val? && x < w.r
    ensures !Applies(MinWidth(w), x)
  {
  }

  /** The generated declarations interpolate: at every viewport width `x`
      some declaration applies, and the value the cascade keeps, evaluated
      with its unrounded coefficients, is the piecewise-linear interpolation
      through the breakpoints, held at the first value before the first
      breakpoint and at the last value after the last. */
  lemma GeneratedCssInterpolates(property: string, bps: seq<Breakpoint>, x: real)
    requires Validate(property, bps) == Pass
    requires forall i :: 0 <= i < |bps| ==> bps[i].resultingValue.Val?
    ensures forall i :: 0 <= i < |bps| ==> FiniteBreakpoint(bps[i])
    ensures |bps| >= 2 && WidthsIncrease(Points(bps))
    ensures Cascade(Declarations(bps), x).Set?
    ensures Finite(Cascade(Declarations(bps), x).value)
    ensures ValueAt(Cascade(Declarations(bps), x).value, x) == Interpolated(Points(bps), x)
  {
    assert forall i :: 0 <= i < |bps| ==> AcceptedBreakpoint(bps[i]);
    var ps := Points(bps);
    var k := SegmentAt(ps, x);
    WinningDeclaration(bps, k, x);
    var clamp := SegmentClamp(|bps|, k);
    LerpMeetsIntent(bps[k - 1], bps[k], clamp, x);
    IntendedIsInterpolated(ps, k, clamp, x);
  }
}
