# Coin counter: verified model of the denomination classifier

This project models the coin classifier `coins_counter` of the coin detector, a Python
program that estimates the value of Brazilian coins in an image. A circle detector supplies
batches of `(x, y, radius)` circles. The classifier takes the last batch and divides each
radius by the pixel radius of a 1-centavo coin. It compares that ratio with the rate of each
of six coins in a fixed, ordered table (1, 5, 10, 25 and 50 centavos and R$ 1). A coin's rate
is its diameter in millimetres divided by the 17 mm of the 1-centavo coin. Every entry whose
rate lies within 0.035 of the ratio, boundary included, has its value appended to the output
list. The total is the sum of that list, rounded to two decimals. The project also models
the target width and height that `resize_image` computes, `int(side * percent / 100)`.

Everything lives in module `Funcs` (`funcs.dfy`):

- `Brl`, `Rate`, `Matches` and `Tolerance` are the coin table, the rates and the inclusive
  tolerance test.
- `Divide` is the ratio of a radius to the reference, which is not a finite number when the
  reference is 0.
- `MatchingValues` is what the scan of the table appends for one ratio. `Classified` is what
  the whole batch appends (through `ScanBatch` when the reference is not 0), and `Sum` is the
  total.
- `CoinsCounter` is the classifier itself: a method with the source's nested loop, proved to
  return exactly `Classified` and its `Sum`.
- The lemmas state what the classification means. They cover inclusive matching per entry,
  silent dropping of unmatched circles, counting a circle twice, output order, and that only
  the radius is read.
- `Truncate`, `ScaledSide` and `ResizeDimensions` model the resize arithmetic.

Modelling choices:

- The 1-centavo radius is the global `one_cent_radius_in_pixels` in the source (default 36).
  Its callers set it to 141.7 or to a number typed by the operator. Here it is the parameter
  `oneCentRadius` of `CoinsCounter`.
- Radii, rates and the tolerance are exact rationals (`real`), so the comparison
  `abs(rate - value) <= tolerance` is exact. Float rounding near the window boundary is
  abstracted away.
- Coin values are whole centavos (1, 5, 10, 25, 50, 100). So `round(sum(coins), 2)` becomes
  an exact integer sum in centavos.
- The circles reach the classifier as a numpy float32 array from the circle detector, so
  `radius[-1] / min_radius` is a numpy division. With a zero reference it gives infinity
  (not-a-number for a zero radius) instead of raising. Every comparison of such a ratio
  with the tolerance is false, so nothing is counted and the classifier returns `(0, [])`.
  The model's `Ratio` is either a finite number or `NonFinite`, and a non-finite ratio
  matches no entry.
- A negative reference is not rejected by the code. It simply matches nothing for circles
  of non-negative radius (`NonPositiveReferenceCountsNothing`).
- `circle[-1]` needs at least one batch. The circle detector always yields one, and the
  callers only invoke the classifier on a detection result. That is why `CoinsCounter`
  has `requires |circle| > 0`.

## Model

| member | source | states |
|---|---|---|
| `Funcs.CoinsCounter` | funcs.py:121-188 | returns the values appended for the last batch, in order, and their sum as the total; an empty batch, or a zero 1-centavo radius (whose ratios are not finite), yields total 0 and no values |
| `Funcs.Divide` | funcs.py:181 | the ratio of a radius to the reference is a finite number exactly when the reference is not 0 |
| `Funcs.MatchingValues` | funcs.py:182-186 | the scan of a table appends at most one value per table entry |
| `Funcs.MatchIndices` | funcs.py:182-186 | the positions the scan accepts are exactly the entries within tolerance of the ratio, in ascending table order |
| `Funcs.MatchingValuesAreMatchingEntries` | funcs.py:140-165 | the appended values are the values of exactly the matching entries, in table order (1c, 5c, 10c, 25c, 50c, R$ 1) |
| `Funcs.MatchingValuesOnBrl` | funcs.py:140-165 | the scan of the six-coin table is one optional append per coin, in table order |
| `Funcs.BrlValuesDistinct` | funcs.py:140-165 | no two table entries share a value, so an output value identifies its coin |
| `Funcs.ValueCountedIffMatches` | funcs.py:182-186 | a ratio contributes entry k's value if and only if it lies within the tolerance of entry k's rate |
| `Funcs.NoMatchNoValues` | funcs.py:182-186 | a ratio within tolerance of no entry contributes nothing |
| `Funcs.ClassifiedLength` | funcs.py:180-186 | the whole batch appends at most 6 values per circle, one per table entry |
| `Funcs.CircleCountedIffWithinTolerance` | funcs.py:180-186 | a new circle only appends to the earlier output, and it adds entry k's value if and only if `abs(radius/ref - rate_k) <= 0.035`, the boundary included |
| `Funcs.UnmatchedCircleDropped` | funcs.py:180-186 | a circle that matches no entry leaves the output unchanged: it is silently dropped |
| `Funcs.ClassifiedAppend` | funcs.py:180-186 | output order follows input order: classifying two runs of circles of one batch, one after the other, concatenates their outputs, so earlier results are never changed |
| `Funcs.OnlyRadiusRead` | funcs.py:180-181 | two runs of circles with the same radii give the same output; the centres are never read |
| `Funcs.SumAppend` | funcs.py:187-188 | the total of a concatenation is the sum of the parts' totals |
| `Funcs.ExactRateCountedOnce` | funcs.py:140-165 | a radius exactly the reference times coin k's rate is counted as coin k and nothing else (radius equal to the reference gives 1 centavo, 27/17 of it gives R$ 1) |
| `Funcs.DoubleCount` | funcs.py:145-160 | a radius of 22.5/17 of the reference lies within tolerance of both 5 and 50 centavos, so both are appended and the total is 55 centavos |
| `Funcs.NonPositiveReferenceCountsNothing` | funcs.py:172-186 | a zero reference counts nothing, since every ratio is non-finite; a negative reference counts nothing among circles of non-negative radius |
| `Funcs.Truncate` | funcs.py:25-26 | `int()` truncates toward zero: the result is the integer part of the number |
| `Funcs.ScaledSideIsFloor` | funcs.py:25-26 | for a non-negative percentage a scaled side `n` satisfies `100*n <= side*percent < 100*n + 100` |
| `Funcs.ScaledSideBounded` | funcs.py:25-26 | for 0 <= percent <= 100 a scaled side lies between 0 and the original side, and 100 keeps it |
| `Funcs.ResizeNeverEnlarges` | funcs.py:25-27 | for 0 <= percent <= 100 the target width and height are non-negative and at most the original; 100 keeps them unchanged |

## Left out

- `find_circles` (funcs.py:33-71): a wrapper over the computer-vision library's blur and Hough circle transform, whose behaviour is not visible here.
- `draw_circles` (funcs.py:74-118), `get_image` and `set_webcam` (funcs.py:191-225): drawing, window display and camera input.
- coin_counter.py and coin_counter_real_time.py: file and camera input and the keyboard loop. They only set the reference radius and call the classifier.
- The `print` output and the `debug_mode` branches of `coins_counter` (funcs.py:175-179, 185, 187): logging with no effect on the result.
- The image resampling done by `cv2.resize` (funcs.py:29): only the target dimensions are modelled.
- Float arithmetic: the ratio, the rates and the comparison are exact rationals, and `round(sum, 2)` is an exact centavo sum. Float rounding at the edge of a tolerance window is not modelled.
- The detector's integer or float32 circle values and numpy array shapes: a circle is three rationals and a detection is a sequence of batches.
