# Viewport-based rescaling, modelled in Dafny

The web page *viewport-based-rescaling* turns a list of breakpoints into responsive CSS. A
breakpoint says "at a viewport width of W px the property is V px". Between two consecutive
breakpoints, the property should scale linearly with the viewport width.

This project models the two pure pieces of logic behind the page:

- **The interpolator** (`lerpBreakpoints`, and its copy `BreakpointElement.lerpTo`).
  - It computes the line through two breakpoints: slope `m = d1 / d2` and intercept `n`.
  - It classifies the segment as constant, increasing or decreasing.
  - It writes `n px + 100·m vw` inside `calc()`, `clamp()`, `max()` or `min()`. The choice depends on the clamp mode (`none`, `from`, `to`, `both`) and on the direction.
- **The generator** (`generateCode`).
  - It makes six checks on the property name and the breakpoints, in a fixed order. The first that fails yields a placeholder comment.
  - Otherwise it writes a header comment listing the breakpoints, then one declaration per pair of consecutive breakpoints.
  - The first segment is clamped before its start. The last is clamped past its end. A lone segment is clamped at both ends.
  - Every segment but the first sits inside `@media screen and (min-width: …px)`.

Modules:

- `JsNumber` (`js_number.dfy`): JavaScript numbers.
  - A finite double is an exact `real`, and NaN and ±Infinity are explicit values.
  - It covers the IEEE special cases of `+ - * /`, comparisons that are false on NaN, `Math.min`/`Math.max`, and `+x.toFixed(2)`.
  - It also gives the decimal text a template literal prints.
- `Css` (`css.dfy`): the four CSS wrappers as a syntax tree.
  - Their text.
  - Their meaning at a viewport width, as section 10.2 of CSS Values and Units Module Level 4 defines `min()`, `max()` and `clamp()`.
- `Interpolator` (`interpolator.dfy`): `lerpBreakpoints`.
  - `Lerp` builds the syntax tree and `LerpBreakpoints` renders it.
  - The lemmas state the behaviour over the reals, against the straight line through the two breakpoints and what each clamp mode promises.
- `BreakpointComponent` (`breakpoint_component.dfy`): `lerpTo`. It is proved to yield the same text as `lerpBreakpoints`.
- `Generator` (`generator.dfy`): `generateCode`.
  - The checks: `Validate`.
  - The declarations per segment: `Declarations`.
  - The output text: `GeneratedText`.
  - An imperative `GenerateCode` that appends to `comment` and `code` in a loop, as the source does, proved to return `GeneratedText`.
- `Responsive` (`responsive.dfy`): what the generated declarations mean under the CSS cascade, with each value's coefficients unrounded.
  - Of the declarations whose media condition holds, the last one wins.
  - Theorem: at every viewport width, the value the cascade keeps, evaluated on the unrounded coefficients, is the piecewise-linear interpolation through the breakpoints. It is held at the first value before the first breakpoint and at the last value after the last.

## Model

| member | source | states |
|---|---|---|
| JsNumber.Add | src/pages/index/breakpoint.ts:39-42 | Sum of two finite numbers is exact; the result is NaN exactly when an operand is NaN or the operands are opposite infinities |
| JsNumber.MathMin | src/pages/index/breakpoint.ts:35 | `Math.min` is NaN iff an argument is; otherwise it is one of its arguments and `<=` both |
| JsNumber.MathMax | src/pages/index/breakpoint.ts:36 | `Math.max` is NaN iff an argument is; otherwise it is one of its arguments and `>=` both |
| JsNumber.MinLeMax | src/pages/index/breakpoint.ts:35-36 | For two numbers that are not NaN, `min <= max` (infinities included) |
| JsNumber.Round2 | src/pages/index/breakpoint.ts:46 | `+x.toFixed(2)` keeps NaN and infinities, moves a finite value by at most 0.005 and leaves it with at most two decimals |
| Css.ValueAt | src/pages/index/breakpoint.ts:48-56 | `calc` is the formula; `max` is at least both of its arguments and equals one; `min` is at most both and equals one; `clamp` stays within ordered bounds and equals the formula when the formula is within them |
| Css.Render | src/pages/index/breakpoint.ts:48-56 | The text starts with the wrapper's name and `(` and ends with `)` |
| Css.RenderKeepsWrapper | src/pages/index/breakpoint.ts:48-56 | Values with different wrappers never render to the same text |
| Css.RenderCalcPrefix | src/pages/index/breakpoint.ts:48 | The text starts with `calc(` exactly when the value is a `calc()` |
| Interpolator.Lerp | src/pages/index/breakpoint.ts:26-59 | Formula is `n px + 100·m vw` with `m = d1/d2`, `n = from - viewport.from·m`; `calc` iff constant or clamp `none`; `clamp(min, f, max)` iff non-constant and `both`; `max(min, f)` iff `from`+increasing or `to`+decreasing; `min(max, f)` iff `from`+decreasing or `to`+increasing; bounds are `Math.min`/`Math.max` of the two resulting values; clamp mode defaults to `none` |
| Interpolator.LerpBreakpoints | src/pages/index/breakpoint.ts:26-59 | The text begins with `calc(` exactly when the segment is constant or the clamp mode is `none` (the default) |
| Interpolator.DirectionFollowsValues | src/pages/index/breakpoint.ts:39-44 | For finite resulting values the direction is constant, increasing or decreasing exactly when the target value is equal to, greater than or less than the source value |
| Interpolator.ClampBoundsOrdered | src/pages/index/breakpoint.ts:35-50 | The lower bound of `clamp()` is `<=` its upper bound whenever neither resulting value is NaN |
| Interpolator.LerpFormulaIsLine | src/pages/index/breakpoint.ts:39-42 | With finite breakpoints of different widths all numbers are finite and `n + m·x` is the straight line through the two breakpoints |
| Interpolator.LerpPassesThroughBreakpoints | src/pages/index/breakpoint.ts:39-42 | The unrounded formula equals the source value at the source width and the target value at the target width |
| Interpolator.LerpMeetsIntent | src/pages/index/breakpoint.ts:19-56 | On a segment of positive width, for every clamp mode and viewport width, the value is the line, held at the first point before it (`from`, `both`) and at the second point past it (`to`, `both`) |
| Interpolator.BothStaysWithinBounds | src/pages/index/breakpoint.ts:49-50 | Clamp `both` keeps the value between the smaller and the larger resulting value at every viewport width |
| Interpolator.RisingClampsHold | src/pages/index/breakpoint.ts:51-56 | On a rising segment `from` never goes below the first value and `to` never above the second |
| BreakpointComponent.LerpTo | src/pages/index/components/breakpoint.ts:146-179 | `lerpTo(target, clamp)` returns the same text as `lerpBreakpoints(this, target, clamp)`, with the same default |
| Generator.Placeholder | src/pages/index/entry.ts:22-53 | Every placeholder is a comment, opening with `/* ` and closing with ` */`, whose fourth character is not `I`, unlike the `/* Interpolates` header of a successful output |
| Generator.PlaceholdersDiffer | src/pages/index/entry.ts:22-53 | The six placeholder texts are pairwise distinct |
| Generator.ComparedNeighboursAscend | src/pages/index/entry.ts:41-47 | Comparing each breakpoint only with its predecessor gives strictly increasing widths between any two breakpoints |
| Generator.ChecksPassIffWellFormed | src/pages/index/entry.ts:28-53 | The NaN, sign, order (first against -1) and integer checks all pass exactly when every width is finite, non-negative and whole, no value is NaN and widths strictly increase |
| Generator.Validate | src/pages/index/entry.ts:21-53 | Passes exactly for a non-empty property and at least two such breakpoints; an empty property fails first whatever the breakpoints; otherwise fewer than two breakpoints fail next |
| Generator.ValidateReportsFirstViolation | src/pages/index/entry.ts:21-53 | The reported failure is exactly the earliest check, in source order, that fails |
| Generator.ValidatedSegmentsHavePositiveWidth | src/pages/index/entry.ts:41-65 | After the checks pass, every segment's `d2` is a finite positive number, so no interpolation divides by zero |
| Generator.Declarations | src/pages/index/entry.ts:63-85 | One declaration per pair of consecutive breakpoints, in order; the first is unconditional, clamped `both` when alone and `from` otherwise; every later one is under `min-width` of its starting width; the last of several is clamped `to` and those in between `none` |
| Generator.SegmentRoles | src/pages/index/entry.ts:70-84 | Two breakpoints: one unconditional `both` declaration; otherwise the first segment is unconditional `from`, the last is `to`, the rest `none`, and every segment but the first sits under `min-width` of its starting width |
| Generator.SegmentTexts | src/pages/index/entry.ts:70-84 | The text of each kind of segment is the plain or `@media` template around `lerpBreakpoints` with its clamp mode |
| Generator.OutcomeIsRecoverable | src/pages/index/entry.ts:20-90 | The output is the placeholder of failure `f` exactly when `f` is the check that failed; successful output is never a placeholder |
| Generator.GenerateCode | src/pages/index/entry.ts:20-90 | The loop that appends to `comment` and `code` returns the placeholder of the failed check, or the header comment (intro, one line per breakpoint in order, closing line) followed by the declarations of all segments in order |
| Responsive.Cascade | src/pages/index/entry.ts:70-84 | Some declaration takes effect exactly when one of them applies at that width |
| Responsive.CascadePicks | src/pages/index/entry.ts:70-84 | A declaration that applies with no later one applying is the one the cascade keeps |
| Responsive.LaterDeclarationsIdle | src/pages/index/entry.ts:74-84 | A declaration under `min-width` of a later segment's starting width does not apply before the end of segment `k` |
| Responsive.SegmentWins | src/pages/index/entry.ts:70-84 | Over one declaration per segment, the first unconditional and each later one under `min-width` of its starting width, the cascade keeps the declaration of the segment around the width |
| Responsive.WinningDeclaration | src/pages/index/entry.ts:63-85 | At each viewport width the declaration kept is that of the segment containing the width (first or last segment beyond the ends) |
| Responsive.IntendedIsInterpolated | src/pages/index/breakpoint.ts:19-22 | With the clamp modes the generator assigns, each segment agrees with the piecewise interpolation on its range |
| Responsive.GeneratedCssInterpolates | src/pages/index/entry.ts:63-85 | For validated breakpoints with finite values, at every viewport width some declaration applies and its value, on the unrounded coefficients, is the piecewise-linear interpolation through the breakpoints, constant outside them |

## Left out

- The page's DOM wiring in `entry.ts` is not part of this model: updating the output, the parameter listeners, the add-breakpoint button, the help dialog and the element lookup. These are event listeners and HTML updates.
- Syntax highlighting of the output is a foreign library and is left out.
- The `BreakpointElement` constructor, shadow DOM, delete animation and element registration are left out. Its `parseFloat` getters are replaced by plain `Breakpoint` values passed in.
- The loading screen and the demo component are animation only and are left out.
- Binary floating point: a finite number is an exact real. Left unmodelled:
  - rounding of `- * /`;
  - overflow to Infinity;
  - signed zero (a zero divisor is taken as +0).
- Number-to-text conversion: `NumberText` prints the exact decimal expansion, truncated after 20 fractional digits. Not modelled:
  - JavaScript's shortest round-trip digits;
  - its exponent notation for very large and very small magnitudes;
  - `toFixed`'s own exponent form at `1e21` and beyond.
- Interpolator.LerpMeetsIntent: states the meaning with the unrounded coefficients. The rendered text rounds `n` and `100·m` to two decimals, so the browser's value can differ slightly. `Round2` bounds that rounding.
- Interpolator.BothStaysWithinBounds: stated, like the other meaning lemmas, on the unrounded formula.
- Responsive.GeneratedCssInterpolates: requires every resulting value to be finite. An infinite resulting value passes the source's checks, but the CSS it yields has no meaning.
- Responsive.GeneratedCssInterpolates: evaluates each declaration's syntax tree with the exact intercept and slope. A browser reads the text, where both are rounded to two decimals. For example, breakpoints (0 px, 10 px) and (3 px, 11 px) render as `clamp(10px, 10px + 33.33vw, 11px)`, which is 10.9999 px at a width of 3 px rather than 11 px.
- Responsive.Cascade: models only the declarations the generator writes. The media type `screen` is taken to match, and nothing else in a page competes with them.
