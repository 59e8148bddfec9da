# Drawn-curve sampler, modelled in Dafny

The system asks a user to type a formula in `x` and then draw its graph freehand.
It scores the drawing against the formula's true graph. This project models the
pure numeric core of `utils.py` that does the comparison:

- **`sample_points`** turns the raw `(x, y)` points of a drawing into one value
  per caller-supplied sample x. It works in four steps:
  1. de-duplicate by exact x, keeping the last point drawn at each x, with the
     survivors in drawing order;
  2. sort the survivors by x;
  3. fall back to all zeros when nothing was drawn or fewer than two distinct
     x's remain;
  4. otherwise interpolate linearly through the resulting knots. The ends are
     held flat: left of the first knot gives its y, right of the last knot
     gives its y.
- **`calculate_mse`** is the mean of the squared index-aligned differences
  between predicted and actual values.
- **The caret rewrite** in `evaluate_function` replaces every `^` that a user
  types with Python's power operator `**`, before the formula is parsed.

Values are modelled as `real` and strings as `seq<char>`. Every operation is a
pure function. Three methods are each proved equal to a function:
- `Dedup.DedupScan` mirrors the one loop in the source, the backward
  de-duplication scan with a seen-set;
- `Sampler.InterpolateEach` models the element-wise evaluation that the
  vectorised call on the sample array performs;
- `Caret.ReplaceCaretLoop` is a reference implementation of the string
  library's replace-all.

Modules, one per step:

| file | module | what it holds |
|---|---|---|
| points.dfy | `Points` | the `Point` datatype; x sets, distinct and increasing x |
| caret.dfy | `Caret` | `^` → `**` rewrite |
| mse.dfy | `Mse` | mean squared error |
| dedup.dfy | `Dedup` | last-occurrence de-duplication, as a function and as the backward scan |
| sort.dfy | `SortByX` | sort by x; uniqueness of a strictly increasing order |
| interp.dfy | `Linear` | piecewise-linear interpolation held flat outside the knots |
| sampler.dfy | `Sampler` | `sample_points` end to end |

The interpolator built from the knots is the piecewise-linear interpolant
through them, held flat outside them: left of the first knot it gives the
first knot's y, right of the last knot the last knot's y. `Linear.Interp`
picks a segment by a left-sided search over the knot x's; `InterpOnSegment`
proves that on every closed segment between adjacent knots the value is
that segment's line, so the choice of segment at a shared knot does not
matter.

De-duplication is by exact x, and the last point drawn at an x wins
(utils.py:60-68). An empty drawing, or one with a single distinct x, samples
to all zeros (utils.py:53-54, 77-80).

## Model

| member | source | states |
|---|---|---|
| Caret.ReplaceCaret | utils.py:18 | no `^` survives; output length is input length plus the number of carets; the stars grow by exactly two per caret; the characters other than `^` and `*` are unchanged and in order |
| Caret.ReplaceCaretPositions | utils.py:18 | the input character at index i appears unchanged at index i + (carets before i) of the output, except a caret, which becomes `**` there |
| Caret.ReplaceCaretAppend | utils.py:18 | the rewrite distributes over concatenation: it acts character by character |
| Caret.ReplaceCaretFixedPoint | utils.py:18 | a formula is left unchanged if and only if it contains no caret |
| Caret.ReplaceCaretIdempotent | utils.py:18 | rewriting an already rewritten formula changes nothing |
| Caret.ReplaceCaretLoop | utils.py:18 | a left-to-right replace-all scan, as a string library runs it, that appends each character's replacement computes the rewrite, with no caret left and the predicted length |
| Mse.CalculateMse | utils.py:29-40 | for equal, non-zero lengths the MSE is never negative, and it is zero if and only if the two sequences are equal |
| Mse.SumSquaresZero | utils.py:40 | the sum of squared differences vanishes exactly when the sequences agree at every index |
| Mse.MseSymmetric | utils.py:40 | swapping predicted and actual leaves the MSE unchanged |
| Mse.MseShiftInvariant | utils.py:40 | adding one constant to both sequences leaves the MSE unchanged |
| Mse.MseAtMostMaxError | utils.py:40 | the MSE never exceeds a bound on every squared pointwise difference |
| Dedup.UniqueIndices | utils.py:60-70 | the kept indices are exactly the positions whose x does not occur later, in increasing order |
| Dedup.DedupLast | utils.py:60-70 | after de-duplication no two points share an x; every drawn x is still present; each kept point is the last one drawn at its x, and every such last point is kept |
| Dedup.DedupScan | utils.py:60-70 | the backward scan with a seen-set, followed by the reversal, yields exactly the ascending last-occurrence indices, and selecting them gives `DedupLast` |
| SortByX.Sort | utils.py:72-75 | the sorted points have non-decreasing x and are a rearrangement (same multiset) of the input |
| SortByX.SortedDistinctStrict | utils.py:72-75 | sorting points whose x's are distinct gives strictly increasing knot x's |
| SortByX.SortedPermutationUnique | utils.py:72-75 | two strictly increasing rearrangements of the same points are equal, so the knots do not depend on the sort or its stability |
| Linear.Interp | utils.py:83 | below the first knot the value is the first knot's y, above the last knot the last knot's y |
| Linear.InterpOnSegment | utils.py:83-86 | on every closed segment between adjacent knots the interpolant equals the line through those two knots |
| Linear.InterpInRange | utils.py:83-86 | inside the knot range the interpolant lies on the line through a bracketing pair of adjacent knots |
| Linear.InterpAtKnot | utils.py:83-86 | at a knot's own x the interpolant returns that knot's y |
| Linear.InterpBetween | utils.py:83-86 | strictly between adjacent knots the value is y_j + (y_{j+1} - y_j)/(x_{j+1} - x_j) * (x - x_j), and it lies between the two knots' y's |
| Linear.LerpBetween | utils.py:83-86 | the line between two points stays between their heights over the open interval |
| Sampler.Knots | utils.py:57-75 | the knots are strictly increasing, one per distinct drawn x, and each is the last point drawn at its x |
| Sampler.KnotsCount | utils.py:60-78 | the de-duplicated knot list has exactly one entry per distinct drawn x |
| Sampler.SamplePoints | utils.py:42-88 | the output has one value per sample x on every path; it is all zeros when nothing was drawn or fewer than two knots survive de-duplication; otherwise each value is the knots' interpolant at its sample x |
| Sampler.SampleFewDistinctXs | utils.py:77-80 | a drawing with fewer than two distinct x's samples to all zeros |
| Sampler.SampleAtDrawnX | utils.py:60-88 | sampling exactly at a drawn x gives the y of the last point drawn at that x |
| Sampler.SampleLeftOfDrawing | utils.py:83-88 | sampling left of every drawn x gives the y of the last point drawn at the smallest x |
| Sampler.SampleRightOfDrawing | utils.py:83-88 | sampling right of every drawn x gives the y of the last point drawn at the largest x |
| Sampler.SampleBetweenDrawnXs | utils.py:60-88 | sampling strictly between two drawn x's with none between them gives the line through the last points drawn there, with a value between their y's |
| Sampler.InterpolateEach | utils.py:86 | evaluating the interpolant element by element yields one interpolated value per sample x, in order |
| Sampler.SamplePointsSteps | utils.py:53-88 | the step-by-step procedure (empty check, backward scan, sort, fewer-than-two check, element-wise evaluation) computes `SamplePoints` |

## Left out

- `sympify` / `lambdify` in `evaluate_function` (utils.py:21-27): they parse and evaluate an unbounded expression language in a foreign symbolic library. Only the caret rewrite is modelled.
- IEEE-754 behaviour: NaN in the seen-set, infinities and rounding. Values are exact reals, so the interpolation formula and the MSE are exact.
- Mse.CalculateMse: numpy broadcasting of different-length arrays and the mean of an empty array are not modelled. They appear as the precondition of equal, non-zero lengths.
- The element type of `np.zeros_like` (an integer array of sample x's gives integer zeros): all samples are reals here.
- scipy's internal handling of non-finite or unsorted input to `interp1d`: it receives only de-duplicated, sorted, finite knots here.
- app.py: commented-out user-interface code with no executable logic.
