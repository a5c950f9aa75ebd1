# Output-scale helpers of pdfjs-mobile, in Dafny

pdfjs-mobile renders the pages of a PDF into canvases of a swipeable viewer.
Before a page is drawn, `UI.scalePage` sizes its canvas with three numeric
helpers that `main.js` copies from pdf.js's `web/ui_utils.js`:

- `approximateFraction(x)` approximates a positive number by a fraction
  `[numerator, denominator]`. Whole numbers and reciprocals of whole numbers
  take fast paths. Every other input is reduced to a value `x_` in (0, 1):
  `x` itself below 1, `1/x` above 1. The code then walks the Farey sequence
  of order 8 from 0/1 and 1/1 by mediants. It returns whichever final
  neighbour is closer to `x_`, swapped back when `x > 1`.
- `getOutputScale(ctx)` divides the device pixel ratio by the canvas's
  backing-store ratio. Each ratio defaults to 1 when it is missing.
- `roundToDivide(x, div)` snaps a canvas dimension up to a multiple of `div`.

The model has three modules:

- `JsNumbers` holds the JavaScript number primitives these helpers use:
  `Math.floor(y) === y`, the truncating `%`, `Math.round` and NaN.
- `Farey` models `approximateFraction`. It has two forms:
  - a recursive definition (`Search`, `ApproximateFraction`), which the lemmas
    reason about;
  - an imperative form (`ApproximateFractionLoop`) with the source's early
    returns and final selection. Its search is `SearchLoop`, the source's
    `while (true)` loop with its `break`. This form is proved to return the
    same fraction.
- `Scaling` models `getOutputScale` and `roundToDivide`.

Numbers are exact `real`s, not IEEE doubles.

The properties proved:

- **Fast paths.** A whole number `x` comes back as `[x, 1]`. If `1/x` is above
  8, the result is `[1, 8]`. If `1/x` is a whole number `k`, the result is
  `[1, k]`, and `k` is then in [2, 8].
- **Search invariant.** Each turn of the search keeps `0 <= a/b < x_ <= c/d <= 1`,
  `1 <= b, d <= 8` and `b*c - a*d == 1`. Each turn also makes `b + d` grow,
  which is why the loop terminates.
- **Best approximation.** When the search stops, no fraction whose
  denominator is in [1, 8] lies strictly between the two neighbours. So on
  every input that reaches the search, the result is at least as close to
  `x_` as any such fraction. For `x > 1` this makes the result a best
  approximation only as a reciprocal: its reciprocal is closest to `1/x`.
  The result itself need not be closest to `x`. For example, 2.9 gives
  `[3, 1]`, yet 23/8 is closer to 2.9.
- **Denominator bound.** The doc comment's "max order of 8" holds for
  `0 < x < 1` and for `1 <= x <= 16`. It does not hold for a non-whole
  `x > 16`: there `1/x` is closer to 0/1 than to 1/8, so the swapped result is
  `[1, 0]`.
- **Symmetry.** For a non-whole `x` in (1, 8], the result for `x` is the
  result for `1/x` with its two entries swapped.
- **Output scale.** Both axes get `dpr / bsr`. `scaled` is true exactly when
  the two ratios differ.
- **Snapping.** For `x >= 0` and a whole `div > 0`, `roundToDivide` returns
  `x` when `x` is already a multiple of `div`. Otherwise it returns the least
  multiple of `div` above `x`, and `Math.round` leaves that value unchanged.
  A zero divisor gives NaN.

Two points where a reading of the code's comments or names differs from what
the code does. The model follows the code in both:

- The doc comment of `approximateFraction` (main.js:121-122) says the search
  has "max order of 8", which suggests a denominator in [1, 8]. For a
  non-whole `x > 16` the code returns `[1, 0]` (main.js:162-163).
- `scaled` does not test whether either ratio is not 1. It tests whether
  their quotient `dpr / bsr` is not 1 (main.js:180), so two equal ratios
  other than 1 give `scaled == false`.

## Model

| member | source | states |
|---|---|---|
| `JsNumbers.IsInteger` | main.js:130 | The fast-path test `Math.floor(y) === y`: `y` is a whole number. |
| `JsNumbers.IsIntegerExactlyWhole` | main.js:138 | The test holds of every whole number and of no value strictly between two consecutive whole numbers. |
| `JsNumbers.Rem` | main.js:185 | `x % div` is NaN for a zero divisor. Otherwise `x` minus the remainder is a whole multiple of `div`, and for non-negative operands the remainder lies in [0, div). |
| `JsNumbers.Round` | main.js:186 | `Math.round(y)` is a whole number within half a unit of `y`, with halves going up. |
| `JsNumbers.RoundWhole` | main.js:186 | `Math.round` leaves a whole number unchanged. |
| `Farey.NeighboursFacts` | main.js:144-145 | A Farey bracket around `x_` has `c >= 1` and `a < b`, and it lies within [0, 1]. |
| `Farey.Step` | main.js:150-158 | One turn of the loop: the mediant `(a+c)/(b+d)` replaces `c/d` when `x_ <= (a+c)/(b+d)`, and `a/b` otherwise. |
| `Farey.StepMovesOneEnd` | main.js:154-158 | A turn keeps exactly the end on `x_`'s side of the mediant and moves the other end to the mediant. A bracket around `x_` stays a bracket around `x_`. |
| `Farey.StepKeepsNeighbours` | main.js:148-158 | One mediant turn, taken while `b + d <= 8`, keeps the bracket a pair of Farey neighbours (`b*c - a*d == 1`, denominators in [1, 8]) around `x_`. It also strictly grows `b + d`. |
| `Farey.Search` | main.js:147-159 | The search ends on a Farey bracket around `x_` whose `b + d` exceeds 8. It terminates because `b + d` grows on every turn. |
| `Farey.SearchLoop` | main.js:145-159 | The `while (true)` loop with its `break`, started at 0/1 and 1/1 with the invariant as loop invariant, ends on the same bracket as `Search`. |
| `Farey.MediantBound` | main.js:144 | A fraction `h/k` strictly between Farey neighbours `a/b` and `c/d` has `k >= b + d`. |
| `Farey.NoFractionBetween` | main.js:147-159 | Once the search stops, no fraction with denominator in [1, 8] lies strictly between the two neighbours. |
| `Farey.Closest` | main.js:161-166 | The pick is one of the two neighbours and is no farther from `x_` than either of them. A tie goes to `c/d`. |
| `Farey.ClosestIsBest` | main.js:161-166 | After a finished search, the pick is at least as close to `x_` as every fraction with denominator in [1, 8]. |
| `Farey.Reduced` | main.js:142 | `x_` lies in (0, 1] and is either `x` or its reciprocal. |
| `Farey.Searched` | main.js:130-140 | The inputs that pass all three fast paths: neither `x` nor `1/x` is whole, and `1/x` is at most 8. |
| `Farey.ApproximateFraction` | main.js:128-167 | A whole `x` gives a result that equals `x` with denominator 1. If `1/x > 8`, the result is `[1, 8]`. If `1/x` is a whole `k`, the result is `[1, k]`, with `k` in [2, 8] and value exactly `x`. Entries are never negative. |
| `Farey.ReciprocalOfWhole` | main.js:138-139 | If `1/x` is a whole number `k <= 8` and `x` is not whole, then `2 <= k` and `1/k == x`. |
| `Farey.ApproximationIsBest` | main.js:120-127 | On every input that reaches the search, the result is a best approximation among fractions with denominator in [1, 8]. For `x < 1` it approximates `x`; for `x > 1` its reciprocal approximates `1/x`. |
| `Farey.BoundsBelowOne` | main.js:134-166 | For `0 < x < 1` the result satisfies `1 <= num <= den <= 8`. |
| `Farey.BoundsUpToSixteen` | main.js:121-122 | For `1 <= x <= 16` the denominator is in [1, 8] and is at most the numerator. |
| `Farey.AboveSixteenGivesOneOverZero` | main.js:162-163 | A non-whole `x > 16` gives `[1, 0]`, so the "max order of 8" claim fails there. |
| `Farey.ReciprocalSymmetry` | main.js:142-166 | For a non-whole `x` in (1, 8], the result for `x` is the result for `1/x` swapped. |
| `Farey.ApproximateFractionLoop` | main.js:128-167 | The imperative form, with its early returns and final selection, returns exactly `ApproximateFraction(x)`. |
| `Farey.ThreeHalves` | main.js:128-167 | `approximateFraction(1.5)` is `[3, 2]`. |
| `Farey.TwoPointNine` | main.js:142-166 | `approximateFraction(2.9)` is `[3, 1]`, although 23/8 is closer to 2.9 than 3 is. |
| `Scaling.OrOne` | main.js:170-175 | The defaulted ratio is never 0. A missing or zero ratio gives 1; any other ratio is kept. |
| `Scaling.GetOutputScale` | main.js:169-182 | `sx == sy`, and `sx * bsr == dpr` for the defaulted ratios. `scaled` holds exactly when the two defaulted ratios differ. |
| `Scaling.UnknownRatiosAreUnscaled` | main.js:170-181 | With neither ratio available, the scale is `{1, 1, false}`. |
| `Scaling.RoundToDivide` | main.js:184-187 | The result is NaN exactly when the divisor is 0. |
| `Scaling.RoundToDivideSnapsUp` | main.js:185-186 | For `x >= 0` and `div > 0`, the result is a multiple of `div` in [x, x + div). It equals `x` exactly when `x` is already a multiple. |
| `Scaling.RoundToDivideIsLeast` | main.js:185-186 | For `x >= 0` and `div > 0`, every multiple of `div` that is at least `x` is at least the result, so the result is the least such multiple. |

## Left out

- `UI.createPage`, `UI.destroyPage` and the attribute and style writes of `UI.scalePage` (main.js:14-28, 65-71, 81-98): these only manipulate the DOM through string-keyed element lookups.
- `UI.renderPage` (main.js:41-58): promise plumbing around the PDF library's `getPage`, `getViewport` and `render`.
- `UI.getTranslate` (main.js:105-110): it depends on a regular-expression match and on `Number()` string coercion.
- Reading `window.devicePixelRatio` and the vendor-prefixed backing-store properties (main.js:170-175): the two ratios are parameters instead. The chain of five vendor properties is collapsed into one optional ratio.
- Floating point: every number is an exact real. `Math.round`, `%` and the division `1 / x` are idealised. NaN and Infinity inputs are not modelled, and neither is a NaN ratio, which `||` would also replace by 1.
- `Farey.ApproximateFraction`: defined only for `x > 0`, as the doc comment at main.js:124 requires of callers.
- `Scaling.RoundToDivide`: the divisor is a whole number, because every call site passes an entry of an `approximateFraction` result.
- `Scaling.RoundToDivideSnapsUp`: the snapping properties are stated for `x >= 0` and `div > 0` only. A negative dimension or divisor never reaches the function. For such inputs the model still computes what the code computes, but nothing is proved about the result.
- `Farey.ApproximationIsBest`: the best-approximation property is stated only for inputs that reach the search. The `[1, 8]` fast path is by design the coarsest legal answer, not the closest one: below 1/16, 0/1 would be closer.
