# bandparams — a Dafny model of the band-parameter analysis

`bandparams(df)` takes a table of (x, y) samples of one spectral band, with x
ascending, and returns four values. `max_val` is the greatest intensity.
`max_pos` is the x at the first row that reaches it. `barycenter` is the
intensity-weighted mean of x. `fwhm` is the full width at half maximum.

The width comes from one scan over consecutive row pairs. A pair that climbs
onto the half-maximum level `hh` sets `x1` by linear interpolation. The first
pair that drops below `hh` sets `x2` and ends the scan. The code would let a
later rise overwrite `x1`, but that cannot happen: after a rise the intensity
stays at or above `hh` until a pair falls, so at most one rise comes before
the first fall. The width is `x2 - x1`. If the scan never bound `x2` or `x1`,
the Python function fails when it reads the unbound name.

The model is one module, `BandParams` in `bandparams.dfy`:

- `Sample`, `Params` and `Error` are the row, the result record (its four
  fields in the source's order) and the ways a call can fail. The failures
  are the empty table (`idxmax` has nothing to pick), weights that sum to
  zero (`np.average` refuses to normalise), `x2` unbound and `x1` unbound.
  `x2 - x1` reads `x2` first, so `x2` unbound wins when both are unbound.
- `ArgMax`, `SumY`, `SumXY` and `Barycenter` are pure functions for the
  reductions of lines 11-13.
- `Interpolate` is the crossing formula of lines 21 and 23. `FirstFall`,
  `LastRise` and `Scan` are the declarative description of what the loop
  binds.
- `ScanCrossings` is the loop of lines 16-27 written as a `while` loop with
  `prev_x`, `prev_y`, the `initialized` flag and `break`. Both branches
  compute their point with `Interpolate`, since lines 21 and 23 share one
  formula. The method is proved to bind exactly what `Scan` describes.
- `Outcome` is the whole function as a value. `Analyze` is the method that
  runs the reductions and the loop, and it is proved equal to `Outcome`.

The table is a `seq`, a value, so the analysis cannot change it. Floating
point is replaced by exact `real` arithmetic.

The width runs from the only rise before the first fall to that fall; no
other crossing is used. There is no length check. An empty table fails at
`idxmax` (line 11). A one-row table fails at line 13 when its y is zero, and
otherwise at line 28, because with no pair the scan binds nothing.

## Model

| member | source | states |
|---|---|---|
| `BandParams.Outcome` | bandparams.py:10-34 | the whole function as a value: errors in the order of lines 11, 13 and 28 (empty table, zero weights, `x2` unbound, `x1` unbound); on success the four fields of lines 29-34 |
| `BandParams.ArgMaxBelow` | bandparams.py:11 | among rows 0..n-1, the index of the first row with the greatest y |
| `BandParams.ArgMax` | bandparams.py:11-12 | the index is in range; no row has a greater y; every earlier row has a strictly smaller y (first occurrence, as `idxmax`) |
| `BandParams.OutcomeMaximum` | bandparams.py:11-12 | on success, `maxVal` is at least every y, and some row has x = `maxPos` and y = `maxVal` with every earlier row strictly smaller |
| `BandParams.SumY` | bandparams.py:13 | the sum of the weights y that `np.average` divides by |
| `BandParams.SumXY` | bandparams.py:13 | the sum of x·y, the numerator of the weighted average |
| `BandParams.Barycenter` | bandparams.py:13 | defined exactly when the sum of y is nonzero (otherwise the call must fail) |
| `BandParams.BarycenterSolves` | bandparams.py:13 | when defined, the barycenter times Σy equals Σx·y |
| `BandParams.SumXYBetween` | bandparams.py:13 | with nonnegative weights and every x in [lo, hi], lo·Σy ≤ Σx·y ≤ hi·Σy |
| `BandParams.BarycenterWithinRange` | bandparams.py:13 | with ascending x, nonnegative y and positive Σy, the barycenter exists and lies in [first x, last x] |
| `BandParams.OutcomeBarycenter` | bandparams.py:13 | on success, the reported barycenter is the defined weighted mean, so it satisfies the equation of `BarycenterSolves` |
| `BandParams.ZeroSumFails` | bandparams.py:13 | a nonempty table whose y sum to zero fails with the zero-weights error |
| `BandParams.Rises` | bandparams.py:20 | the upward branch condition: prev y < hh ≤ y |
| `BandParams.Falls` | bandparams.py:22 | the downward branch condition: prev y ≥ hh > y |
| `BandParams.Interpolate` | bandparams.py:20-23 | under either branch condition the denominator is nonzero: rising implies y > prev y, falling implies y < prev y |
| `BandParams.InterpolateOnChord` | bandparams.py:21-23 | the point (crossing, hh) lies on the straight line through the two samples |
| `BandParams.CrossingWithinInterval` | bandparams.py:21-23 | for ascending x, a rising crossing lies in (prev x, x], a falling one in [prev x, x) |
| `BandParams.CrossAt` | bandparams.py:21-23 | the interpolated crossing of the pair (row j-1, row j) |
| `BandParams.FirstFall` | bandparams.py:22-24 | returns the first pair from a start index that drops below hh, or none when no later pair does |
| `BandParams.FirstFallIs` | bandparams.py:22-24 | a falling pair preceded by no falling pair is the one FirstFall returns |
| `BandParams.LastRise` | bandparams.py:20-21 | returns the last pair before pair k that climbs onto hh, or none when no such pair exists |
| `BandParams.RiseBefore` | bandparams.py:20-21 | the value `x1` holds before pair k: the crossing of the last rise before k, if any |
| `BandParams.Scan` | bandparams.py:16-27 | the declarative form of the loop: `x2` from the first fall, `x1` from the rise before it (or before the end when nothing falls) |
| `BandParams.ScanCrossings` | bandparams.py:15-27 | the loop binds x2 at the first falling pair and x1 at the last rising pair before it, or only x1 (last rise) when nothing falls |
| `BandParams.ScanIgnoresTail` | bandparams.py:22-24 | replacing every row after the first falling pair leaves the scan's result unchanged |
| `BandParams.LastRiseOnPrefix` | bandparams.py:17-21 | the last rise before pair k depends only on rows 0..k-1 |
| `BandParams.Analyze` | bandparams.py:10-34 | for strictly ascending x, the result is `Outcome` of the table, and on success the width is nonnegative |
| `BandParams.FwhmNonNegative` | bandparams.py:20-28 | for strictly ascending x, a successful result has fwhm = x2 − x1 ≥ 0 |
| `BandParams.OutcomeByScan` | bandparams.py:28 | past the empty-table and zero-weight checks, x2 unbound gives that error, then x1 unbound gives that error; success exactly when both are bound |
| `BandParams.ScanBindsBoth` | bandparams.py:16-28 | the scan binds both x1 and x2 exactly when some first falling pair exists with a rising pair before it |
| `BandParams.OutcomeOkIff` | bandparams.py:16-28 | success exactly when the table is nonempty, Σy ≠ 0, and some first falling pair exists with a rising pair before it |
| `BandParams.StartAboveHalfFails` | bandparams.py:16-28 | if the first row is already at or above half maximum, the call fails |
| `BandParams.AboveUntilFall` | bandparams.py:17-23 | when row 0 is at or above hh, every row before the first fall stays at or above hh, so no pair before it rises |
| `BandParams.AboveFrom` | bandparams.py:17-24 | with no fall in between, a row at or above hh keeps every later row at or above hh |
| `BandParams.RiseIsUnique` | bandparams.py:20-24 | after a rise, no later pair before the first fall rises, so line 21 sets `x1` at most once |
| `BandParams.NondecreasingFails` | bandparams.py:22-28 | a table whose intensities never decrease fails with x2 unbound |
| `BandParams.SingleRowFails` | bandparams.py:10-28 | a one-row table fails with the zero-weights error when its y is 0, otherwise with `x2` unbound |
| `BandParams.TriangleExample` | bandparams.py:10-34 | the samples (0,0),(1,2),(2,4),(3,2),(4,0) give barycenter 2, peak 4 at x = 2, and width 2 |

## Left out

- `main()` (bandparams.py:36-53): argument parsing, reading the text table,
  rounding to the chosen digit counts and printing. These are I/O and
  formatting.
- IEEE floating-point rounding in the interpolation, the halving and the
  weighted average: the model computes with exact reals.
- NaN handling in `idxmax`, pandas index labels, and duplicate labels. The
  table is a plain sequence of rows. `Analyze` requires strictly ascending x,
  as the source assumes. The pure functions are total and need no such
  requirement.
- Unsorted input: the code assumes ascending x and does not check it.
