/** The CSS generator (`generateCode`): validates a property name and an
    ordered list of breakpoints, then writes one declaration per pair of
    consecutive breakpoints under a comment that lists them.

    A failed check yields a placeholder comment instead of code; `Validate`
    is the tagged form of that outcome and `GeneratedText` the text. */
module Generator {
  import opened JsNumber
  import opened Css
  import opened Interpolator

  /** The six checks, in the order they are made. */
  datatype Failure =
    | MissingProperty
    | TooFewBreakpoints
    | EmptyField
    | NegativeViewport
    | NotAscending
    | NonIntegerViewport

  datatype Verdict = Pass | Fail(failure: Failure)

  /** The opening the sign and order messages share. */
  const MakeSure := "Make sure viewport values are "

  /** The sentence telling the user what to correct. */
  function Message(f: Failure): (m: string)
    ensures |m| > 0 && m[0] != 'I'
  {
    match f
    case MissingProperty => "Specify a property name."
    case TooFewBreakpoints => "Add more breakpoints."
    case EmptyField => "Fill in all fields."
    case NegativeViewport => MakeSure + "positive."
    case NotAscending => MakeSure + "in ascending order."
    case NonIntegerViewport => "Viewport values must be integers."
  }

  /** The comment shown in place of code when a check fails.  Its fourth
      character is never `I`: that tells it from the header of a successful
      output, whose first word is `Interpolates`. */
  function Placeholder(f: Failure): (s: string)
    ensures |s| > 6 && s[..3] == "/* " && s[|s| - 3..] == " */"
    ensures s[3] != 'I'
  {
    Commented(Message(f));
    "/* " + Message(f) + " */"
  }

  lemma Commented(m: string)
    requires |m| > 0
    ensures var s := "/* " + m + " */";
            s[..3] == "/* " && s[|s| - 3..] == " */" && s[3] == m[0]
  {
    var s := "/* " + m + " */";
    assert s == "/* " + (m + " */");
  }

  /** Some breakpoint has a field that is not a number (an empty input). */
  predicate HasEmptyField(bps: seq<Breakpoint>)
  {
    exists i :: 0 <= i < |bps| && (IsNaN(bps[i].viewportValue) || IsNaN(bps[i].resultingValue))
  }

  predicate HasNegativeViewport(bps: seq<Breakpoint>)
  {
    exists i :: 0 <= i < |bps| && Lt(bps[i].viewportValue, Val(0.0))
  }

  /** What breakpoint `i` is compared against: its predecessor's viewport
      value, or -1 for the first. */
  function Preceding(bps: seq<Breakpoint>, i: nat): Num
    requires i < |bps|
  {
    if i == 0 then Val(-1.0) else bps[i - 1].viewportValue
  }

  predicate HasOutOfOrder(bps: seq<Breakpoint>)
  {
    exists i {:trigger Preceding(bps, i)} :: 0 <= i < |bps| && Le(bps[i].viewportValue, Preceding(bps, i))
  }

  predicate HasNonIntegerViewport(bps: seq<Breakpoint>)
  {
    exists i :: 0 <= i < |bps| && !IsInteger(bps[i].viewportValue)
  }

  /** A breakpoint the checks accept on its own, apart from the check for
      whole widths: a finite, non-negative viewport width and a resulting
      value that is a number. */
  predicate AcceptedBreakpoint(b: Breakpoint)
  {
    b.viewportValue.Val? && b.viewportValue.r >= 0.0 && !b.resultingValue.NaN?
  }

  /** What the checks demand of the breakpoints, stated on the reals: every
      breakpoint accepted, viewport widths strictly increasing. */
  predicate WellFormed(bps: seq<Breakpoint>)
  {
    (forall i :: 0 <= i < |bps| ==> AcceptedBreakpoint(bps[i])) &&
    (forall i, j :: 0 <= i < j < |bps| ==> bps[i].viewportValue.r < bps[j].viewportValue.r)
  }

  /** Every viewport width is a whole number of pixels. */
  predicate WholeWidths(bps: seq<Breakpoint>)
  {
    forall i :: 0 <= i < |bps| ==> IsInteger(bps[i].viewportValue)
  }

  lemma ChecksPassIffWellFormed(bps: seq<Breakpoint>)
    ensures !HasEmptyField(bps) && !HasNegativeViewport(bps) && !HasOutOfOrder(bps) && !HasNonIntegerViewport(bps)
            <==> WellFormed(bps) && WholeWidths(bps)
  {
    if !HasEmptyField(bps) && !HasNegativeViewport(bps) && !HasOutOfOrder(bps) && !HasNonIntegerViewport(bps) {
      forall i | 0 <= i < |bps| ensures AcceptedBreakpoint(bps[i]) {
        assert !IsNaN(bps[i].resultingValue);
        assert IsInteger(bps[i].viewportValue);
        assert !Lt(bps[i].viewportValue, Val(0.0));
      }
      forall i, j | 0 <= i < j < |bps| ensures bps[i].viewportValue.r < bps[j].viewportValue.r {
        ComparedNeighboursAscend(bps, i, j);
      }
    }
    if WellFormed(bps) && WholeWidths(bps) {
      forall i | 0 <= i < |bps| ensures !Le(bps[i].viewportValue, Preceding(bps, i)) {
        assert AcceptedBreakpoint(bps[i]);
        if i > 0 {
          assert AcceptedBreakpoint(bps[i - 1]);
        }
      }
    }
  }

  /** The order check compares each breakpoint with its predecessor only;
      strict increase between neighbours gives it between any two. */
  lemma {:induction false} ComparedNeighboursAscend(bps: seq<Breakpoint>, i: nat, j: nat)
    requires forall k :: 0 <= k < |bps| ==> bps[k].viewportValue.Val?
    requires !HasOutOfOrder(bps)
    requires i < j < |bps|
    ensures bps[i].viewportValue.r < bps[j].viewportValue.r
    decreases j - i
  {
    assert bps[j - 1].viewportValue.Val? && bps[j].viewportValue.Val?;
    assert !Le(bps[j].viewportValue, Preceding(bps, j));
    if i < j - 1 {
      ComparedNeighboursAscend(bps, i, j - 1);
    }
  }

  /** The checks of `generateCode`, in its order; the first that fails decides. */
  function Validate(property: string, bps: seq<Breakpoint>): (v: Verdict)
    ensures v == Pass <==> |property| > 0 && |bps| >= 2 && WellFormed(bps) && WholeWidths(bps)
    ensures |property| == 0 ==> v == Fail(MissingProperty)
    ensures |property| > 0 && |bps| < 2 ==> v == Fail(TooFewBreakpoints)
  {
    ChecksPassIffWellFormed(bps);
    if |property| == 0 then Fail(MissingProperty)
    else if |bps| < 2 then Fail(TooFewBreakpoints)
    else if HasEmptyField(bps) then Fail(EmptyField)
    else if HasNegativeViewport(bps) then Fail(NegativeViewport)
    else if HasOutOfOrder(bps) then Fail(NotAscending)
    else if HasNonIntegerViewport(bps) then Fail(NonIntegerViewport)
    else Pass
  }

  /** Whether the check for `f` fails on its own, regardless of the others. */
  predicate Violates(f: Failure, property: string, bps: seq<Breakpoint>)
  {
    match f
    case MissingProperty => |property| == 0
    case TooFewBreakpoints => |bps| < 2
    case EmptyField => HasEmptyField(bps)
    case NegativeViewport => HasNegativeViewport(bps)
    case NotAscending => HasOutOfOrder(bps)
    case NonIntegerViewport => HasNonIntegerViewport(bps)
  }

  /** The position of each check in the chain. */
  function Precedence(f: Failure): nat
  {
    match f
    case MissingProperty => 0
    case TooFewBreakpoints => 1
    case EmptyField => 2
    case NegativeViewport => 3
    case NotAscending => 4
    case NonIntegerViewport => 5
  }

  /** `Validate` reports exactly the earliest check that fails. */
  lemma ValidateReportsFirstViolation(property: string, bps: seq<Breakpoint>, f: Failure)
    ensures Validate(property, bps) == Fail(f) <==>
      Violates(f, property, bps) &&
      forall g :: Precedence(g) < Precedence(f) ==> !Violates(g, property, bps)
  {
    if Violates(f, property, bps) && forall g :: Precedence(g) < Precedence(f) ==> !Violates(g, property, bps) {
      assert Precedence(f) > 0 ==> !Violates(MissingProperty, property, bps);
      assert Precedence(f) > 1 ==> !Violates(TooFewBreakpoints, property, bps);
      assert Precedence(f) > 2 ==> !Violates(EmptyField, property, bps);
      assert Precedence(f) > 3 ==> !Violates(NegativeViewport, property, bps);
      assert Precedence(f) > 4 ==> !Violates(NotAscending, property, bps);
    }
  }

  /** Once the checks pass, every segment the generator interpolates has a
      positive width, so `lerpBreakpoints` never divides by zero. */
  lemma ValidatedSegmentsHavePositiveWidth(property: string, bps: seq<Breakpoint>, k: nat)
    requires Validate(property, bps) == Pass
    requires 1 <= k < |bps|
    ensures Sub(bps[k].viewportValue, bps[k - 1].viewportValue).Val?
    ensures Sub(bps[k].viewportValue, bps[k - 1].viewportValue).r > 0.0
  {
    assert AcceptedBreakpoint(bps[k]) && AcceptedBreakpoint(bps[k - 1]);
  }

  // ---------------------------------------------------------------------
  // The generated declarations

  /** `@media screen and (min-width: <px>px)`, or no media query. */
  datatype Media = Always | MinWidth(px: Num)

  /** `property: value;`, possibly inside a media query. */
  datatype Declaration = Declaration(media: Media, value: CssValue)

  /** The clamp mode of the segment ending at breakpoint `index` of `count`. */
  function SegmentClamp(count: nat, index: nat): ClampMode
  {
    if count == 2 then Both
    else if index == 1 then From
    else if index == count - 1 then To
    else None
  }

  /** The media query of the segment ending at breakpoint `index`: the first
      (or only) segment has none, every other applies from its start on. */
  function SegmentMedia(bps: seq<Breakpoint>, index: nat): Media
    requires 1 <= index < |bps|
  {
    if |bps| == 2 || index == 1 then Always else MinWidth(bps[index - 1].viewportValue)
  }

  /** The declaration for the segment ending at breakpoint `index`. */
  function SegmentDeclaration(bps: seq<Breakpoint>, index: nat): Declaration
    requires 1 <= index < |bps|
  {
    Declaration(SegmentMedia(bps, index), Lerp(bps[index - 1], bps[index], SegmentClamp(|bps|, index)))
  }

  /** One declaration per segment, in segment order: the first is
      unconditional and clamped at both ends when it is the only one, else
      before its start; every later one applies from its starting viewport
      width on; the last of several is clamped past its end and those in
      between are not clamped. */
  function Declarations(bps: seq<Breakpoint>): (ds: seq<Declaration>)
    requires |bps| >= 2
    ensures |ds| == |bps| - 1
    ensures forall k :: 0 <= k < |ds| ==> ds[k] == SegmentDeclaration(bps, k + 1)
    ensures ds[0].media == Always
    ensures |bps| == 2 ==> ds[0].value == Lerp(bps[0], bps[1], Both)
    ensures |bps| > 2 ==> ds[0].value == Lerp(bps[0], bps[1], From)
    ensures forall k :: 0 < k < |ds| ==> ds[k].media == MinWidth(bps[k].viewportValue)
    ensures |bps| > 2 ==> ds[|ds| - 1].value == Lerp(bps[|bps| - 2], bps[|bps| - 1], To)
    ensures forall k :: 0 < k < |ds| - 1 ==> ds[k].value == Lerp(bps[k], bps[k + 1], None)
  {
    seq(|bps| - 1, k requires 0 <= k < |bps| - 1 => SegmentDeclaration(bps, k + 1))
  }

  /** Which clamp mode and which media query each segment gets: a lone
      segment is clamped at both ends and unconditional; otherwise the first
      segment is clamped before its start and unconditional, the last is
      clamped past its end, and every segment but the first applies from its
      starting viewport width on. */
  lemma SegmentRoles(bps: seq<Breakpoint>, index: nat)
    requires 1 <= index < |bps|
    ensures |bps| == 2 ==> SegmentDeclaration(bps, index) == Declaration(Always, Lerp(bps[0], bps[1], Both))
    ensures |bps| > 2 && index == 1 ==>
      SegmentDeclaration(bps, index) == Declaration(Always, Lerp(bps[0], bps[1], From))
    ensures |bps| > 2 && index == |bps| - 1 ==>
      SegmentDeclaration(bps, index) == Declaration(MinWidth(bps[index - 1].viewportValue), Lerp(bps[index - 1], bps[index], To))
    ensures |bps| > 2 && 1 < index < |bps| - 1 ==>
      SegmentDeclaration(bps, index) == Declaration(MinWidth(bps[index - 1].viewportValue), Lerp(bps[index - 1], bps[index], None))
  {
  }

  // ---------------------------------------------------------------------
  // The generated text

  /** The comment line listing one breakpoint:
      `\n * <value>px at <width>px viewport width`. */
  function StepText(b: Breakpoint): string
  {
    "\n * " + NumberText(b.resultingValue) + "px at " + NumberText(b.viewportValue) + "px viewport width"
  }

  /** One comment line per breakpoint, in input order. */
  function Steps(bps: seq<Breakpoint>): string
  {
    if bps == [] then "" else Steps(bps[..|bps| - 1]) + StepText(bps[|bps| - 1])
  }

  /** The first two lines of the comment. */
  function Intro(property: string, bps: seq<Breakpoint>): string
    requires |bps| >= 1
  {
    "/* Interpolates " + property + " from " + NumberText(bps[0].resultingValue) + "px to " +
    NumberText(bps[|bps| - 1].resultingValue) + "px\n * based on the following steps:"
  }

  /** The comment heading a successful output: the intro, then one line per
      breakpoint in input order. */
  function HeaderComment(property: string, bps: seq<Breakpoint>): string
    requires |bps| >= 1
  {
    Intro(property, bps) + Steps(bps) + "\n */"
  }

  /** `\n<property>: <value>;` */
  function PlainDeclaration(property: string, value: string): string
  {
    "\n" + property + ": " + value + ";"
  }

  /** `\n@media screen and (min-width: <width>px) {\n  <property>: <value>;\n}` */
  function MediaDeclaration(property: string, width: Num, value: string): string
  {
    "\n@media screen and (min-width: " + NumberText(width) + "px) {\n  " + property + ": " + value + ";\n}"
  }

  function DeclarationText(property: string, d: Declaration): string
  {
    match d.media
    case Always => PlainDeclaration(property, Render(d.value))
    case MinWidth(w) => MediaDeclaration(property, w, Render(d.value))
  }

  /** The declarations of the first `count` segments, one per segment, in
      segment order. */
  function CodeText(property: string, bps: seq<Breakpoint>, count: nat): string
    requires count < |bps|
  {
    if count == 0 then ""
    else CodeText(property, bps, count - 1) + DeclarationText(property, SegmentDeclaration(bps, count))
  }

  /** The text `generateCode` returns: the placeholder of the first failed
      check, or the header comment followed by the declarations of all
      `|bps| - 1` segments. */
  function GeneratedText(property: string, bps: seq<Breakpoint>): string
  {
    match Validate(property, bps)
    case Fail(f) => Placeholder(f)
    case Pass => HeaderComment(property, bps) + CodeText(property, bps, |bps| - 1)
  }

  /** The text tells success from failure and one failure from another: it
      is the placeholder of `f` exactly when `f` is the check that failed. */
  lemma OutcomeIsRecoverable(property: string, bps: seq<Breakpoint>, f: Failure)
    ensures GeneratedText(property, bps) == Placeholder(f) <==> Validate(property, bps) == Fail(f)
  {
    match Validate(property, bps)
    case Pass =>
      var header := HeaderComment(property, bps);
      HeaderBeginsInterpolates(property, bps);
      CharOfConcat(header, CodeText(property, bps, |bps| - 1), 3);
    case Fail(g) =>
      PlaceholdersDiffer(f, g);
  }

  /** The six placeholders are six different texts. */
  lemma PlaceholdersDiffer(f: Failure, g: Failure)
    ensures Placeholder(f) == Placeholder(g) <==> f == g
  {
    Uncommented(Message(f), Message(g));
    MessagesDiffer(f, g);
  }

  lemma MessagesDiffer(f: Failure, g: Failure)
    ensures Message(f) == Message(g) <==> f == g
  {
    // they already differ in length
    if f != g {
      assert |Message(f)| != |Message(g)|;
    }
  }

  lemma Uncommented(m: string, n: string)
    ensures "/* " + m + " */" == "/* " + n + " */" ==> m == n
  {
    if "/* " + m + " */" == "/* " + n + " */" {
      assert m == ("/* " + m + " */")[3..|m| + 3];
      assert n == ("/* " + n + " */")[3..|n| + 3];
    }
  }

  /** A successful output has `I` as its fourth character, which no placeholder has. */
  lemma HeaderBeginsInterpolates(property: string, bps: seq<Breakpoint>)
    requires |bps| >= 1
    ensures |HeaderComment(property, bps)| > 3 && HeaderComment(property, bps)[3] == 'I'
  {
    var intro := Intro(property, bps);
    var opening := "/* Interpolates ";
    assert intro == opening + (intro[|opening|..]);
    CharOfConcat(opening, intro[|opening|..], 3);
    CharOfConcat(intro, Steps(bps), 3);
    CharOfConcat(intro + Steps(bps), "\n */", 3);
  }

  lemma CharOfConcat(a: string, b: string, i: nat)
    requires i < |a|
    ensures (a + b)[i] == a[i]
  {
  }

  /** The comment before the loop lists the first breakpoint. */
  lemma StepsStart(bps: seq<Breakpoint>)
    requires |bps| >= 1
    ensures Steps(bps[..1]) == StepText(bps[0])
  {
    assert bps[..1][..0] == [];
  }

  /** The comment after the loop is the whole header comment. */
  lemma StepsEnd(property: string, bps: seq<Breakpoint>)
    requires |bps| >= 1
    ensures Intro(property, bps) + Steps(bps[..|bps|]) + "\n */" == HeaderComment(property, bps)
  {
    assert bps[..|bps|] == bps;
  }

  /** Appending the line of breakpoint `index` to the comment listing the
      ones before it gives the comment listing one more. */
  lemma StepsAppend(property: string, bps: seq<Breakpoint>, index: nat)
    requires index < |bps|
    ensures Intro(property, bps) + Steps(bps[..index + 1]) ==
            Intro(property, bps) + Steps(bps[..index]) + StepText(bps[index])
  {
    assert bps[..index + 1][..index] == bps[..index];
    ConcatAssoc(Intro(property, bps), Steps(bps[..index]), StepText(bps[index]));
  }

  lemma ConcatAssoc(a: string, b: string, c: string)
    ensures a + (b + c) == (a + b) + c
  {
  }

  /** The text each kind of segment contributes. */
  lemma SegmentTexts(property: string, bps: seq<Breakpoint>, index: nat)
    requires 1 <= index < |bps|
    ensures |bps| == 2 ==>
      DeclarationText(property, SegmentDeclaration(bps, index)) ==
      PlainDeclaration(property, LerpBreakpoints(bps[index - 1], bps[index], Both))
    ensures |bps| != 2 && index == 1 ==>
      DeclarationText(property, SegmentDeclaration(bps, index)) ==
      PlainDeclaration(property, LerpBreakpoints(bps[index - 1], bps[index], From))
    ensures |bps| != 2 && index != 1 && index == |bps| - 1 ==>
      DeclarationText(property, SegmentDeclaration(bps, index)) ==
      MediaDeclaration(property, bps[index - 1].viewportValue, LerpBreakpoints(bps[index - 1], bps[index], To))
    ensures |bps| != 2 && index != 1 && index != |bps| - 1 ==>
      DeclarationText(property, SegmentDeclaration(bps, index)) ==
      MediaDeclaration(property, bps[index - 1].viewportValue, LerpBreakpoints(bps[index - 1], bps[index]))
  {
  }

  /** `generateCode`: the checks, then a loop over the segments that appends
      to the comment and to the code. */
  method GenerateCode(property: string, breakpoints: seq<Breakpoint>) returns (css: string)
    ensures css == GeneratedText(property, breakpoints)
  {
    var verdict := Validate(property, breakpoints);
    if verdict.Fail? {
      OutcomeIsRecoverable(property, breakpoints, verdict.failure);
      return Placeholder(verdict.failure);
    }

    var code := "";
    var comment := Intro(property, breakpoints) + StepText(breakpoints[0]);
    StepsStart(breakpoints);
    for index := 1 to |breakpoints|
      invariant comment == Intro(property, breakpoints) + Steps(breakpoints[..index])
      invariant code == CodeText(property, breakpoints, index - 1)
    {
      var last, current := breakpoints[index - 1], breakpoints[index];
      StepsAppend(property, breakpoints, index);
      comment := comment + StepText(current);
      var declaration;
      if |breakpoints| == 2 {
        declaration := PlainDeclaration(property, LerpBreakpoints(last, current, Both));
      } else if index == 1 {
        declaration := PlainDeclaration(property, LerpBreakpoints(last, current, From));
      } else if index == |breakpoints| - 1 {
        declaration := MediaDeclaration(property, last.viewportValue, LerpBreakpoints(last, current, To));
      } else {
        declaration := MediaDeclaration(property, last.viewportValue, LerpBreakpoints(last, current));
      }
      SegmentTexts(property, breakpoints, index);
      assert declaration == DeclarationText(property, SegmentDeclaration(breakpoints, index));
      code := code + declaration;
    }
    comment := comment + "\n */";
    StepsEnd(property, breakpoints);
    css := comment + code;
  }
}
