# Size, centroid and crop metrics of a point spread function

This project models, in Dafny, the discrete part of prysm's `psf` module:

- `estimate_size` finds the radius at which a point spread function (PSF)
  crosses a level on average over all angles. Three wrappers call it:
  `fwhm`, `one_over_e` and `one_over_e2`.
- `centroid` computes the intensity-weighted centre of mass, in pixels or in
  physical units about a reference index.
- `autocrop` cuts a window that ends at the truncated centroid.

Samples are modelled as `real`, so floating-point rounding is not part of the
model. Python exceptions become values of `Outcome.Result`.

Modules:

- `Outcome` (`outcome.dfy`): the error values (`AttributeError`,
  `UnknownMetric`, `UnknownCriteria`, `IndexError`, `TypeError`), `Result`
  and `Option`.
- `TextCase` (`text_case.dfy`): the `.lower()` applied to the option strings.
- `RealArith` (`real_arith.dfy`): small facts about real division and products.
- `RadialMetric` (`radial_metric.dfy`): `estimate_size` and its wrappers.
  - The polar resampling is an external routine, so its outputs are the
    inputs here: the radius vector `r`, and the grid `polar`.
  - `polar` has one row per angle and one column per radius. The code takes
    `argmax` along axis 1 and indexes `r` with the result.
  - The steps are modelled one by one. The peak gives the level. The level
    gives a strict `>` mask. Each row gets a crossing index: NumPy's
    `argmax` for `first`, and the row length minus the `argmax` of the
    reversed row for `last`. The indices are averaged. `divmod(meanidx, 1)`
    splits the mean, and the result is interpolated as
    `r[lowidx] + remainder * r[1]`, with the remainder negated for `last`.
- `Centroid` (`centroid.dfy`): `centroid` and `autocrop`.
  - SciPy's `center_of_mass` is modelled by its definition: per axis, the
    sum of value times index over the sum of values.
  - `WeightedSum` is that sum of value times index, written as the
    definition reads. The model computes each moment with `IndexMoment`
    instead, a sum of suffix sums with no products.
    `MomentsAreWeightedSums` proves that the two agree.
  - The grid sums are built from two per-row profiles: `RowSums` holds each
    row's sum and `RowMoments` each row's moment along axis 1. The total
    is the sum of `RowSums`. The axis-0 moment is the moment of `RowSums`.
    The axis-1 moment is the sum of `RowMoments`.
  - The spatial reference index of an axis of extent `n` is `ceil(n / 2)`.
  - `autocrop` uses `w = px // 2` and slices rows `[cy - w, cy)` and columns
    `[cx - w, cx)`. `(cy, cx)` is the centroid truncated toward zero, and
    Python's slice semantics apply for non-negative bounds.

## Model

| member | source | states |
|---|---|---|
| `TextCase.Lower` | prysm/psf.py:58-59 | the lowered string has the same length, every letter is lowered, and no upper-case letter remains |
| `TextCase.LowerIgnoresCase` | prysm/psf.py:58-59 | two strings lower to the same string exactly when they spell the same letters up to case |
| `RadialMetric.Peak` | prysm/psf.py:62 | `polar.max()` is a sample of the grid and no sample exceeds it |
| `RadialMetric.Threshold` | prysm/psf.py:63-72 | only `fwhm`, `1/e` and `1/e^2` are accepted; any other name gives the unknown-metric error; `fwhm` gives exactly half the peak, `1/e` gives `InvE` times it and `1/e^2` gives `InvE2` times it; for a positive peak every level is positive and at most half the peak |
| `RadialMetric.WrapperLevelsOrdered` | prysm/psf.py:63-68 | `0 < InvE2 < InvE < 1/2`, so for a positive peak the `1/e^2` level is below the `1/e` level, which is below the half maximum |
| `RadialMetric.PeakIsAboveLevel` | prysm/psf.py:62-74 | for a positive peak, the mask of every accepted metric has at least one true entry (the peak sample) |
| `RadialMetric.Mask` | prysm/psf.py:74 | the mask has the grid's shape, and an entry is true exactly when its sample is strictly above the level, so a sample equal to the level does not count |
| `RadialMetric.MetricMask` | prysm/psf.py:62-74 | the mask has the grid's shape, and an entry is true exactly when its sample is strictly above the metric's level, which is taken from `polar.max()` |
| `RadialMetric.Argmax` | prysm/psf.py:77 | a valid index: the first true entry when the row has one, and 0 when the row is all false |
| `RadialMetric.LastCrossing` | prysm/psf.py:80-81 | one row's `mask.shape[1] - argmax(row[::-1])` lies in [1, n]; `LastCrossingIsOnePastLastTrue` shows it is one past the outermost true entry |
| `RadialMetric.LastCrossingIsOnePastLastTrue` | prysm/psf.py:80-81 | the `last` crossing is one past the outermost true entry, lies in [1, n], and is n for an all-false row |
| `RadialMetric.FallingProfileCrossings` | prysm/psf.py:74-81 | on a profile that never rises outward: if the centre is above the level, the `first` crossing is 0 and the `last` crossing is the number of samples above the level; otherwise the `last` crossing is n |
| `RadialMetric.FirstAtCentre` | prysm/psf.py:76-78 | when every mask row is true at radius 0, every `argmax` is 0 and `first` gives exactly `r[0]`, whatever lies further out |
| `RadialMetric.CentredPeakFirstIsInnermost` | prysm/psf.py:62-78 | when the radius-0 sample of every angle is a positive peak, `estimate_size` with `first` gives `r[0]` for every accepted metric |
| `RadialMetric.LastCrossingAntitone` | prysm/psf.py:74-81 | a lower level never moves a row's `last` crossing inward, provided the row exceeds the higher level somewhere |
| `RadialMetric.Mean` | prysm/psf.py:77 | `.mean()`: the mean times the number of entries is their sum; `MeanBounds` and `MeanOfConstant` bound it and fix it on a constant vector |
| `RadialMetric.MeanBounds` | prysm/psf.py:77-80 | the mean of integers in [lo, hi] lies in [lo, hi] |
| `RadialMetric.MeanOfConstant` | prysm/psf.py:77-80 | the mean of equal indices is that index |
| `RadialMetric.MeanIndex` | prysm/psf.py:77-81 | `meanidx`: the mean `argmax` for `first`, and the row length minus the mean reversed `argmax` for `last`, never negative; `FirstMeanIndexBounds`, `LastMeanIndexBounds` and `LastMeanIndexIsMeanCrossing` state its range and its meaning |
| `RadialMetric.FirstMeanIndexBounds` | prysm/psf.py:76-78 | for `first`, the mean index lies in [0, n-1], so `lowidx` is a valid index into `r` |
| `RadialMetric.LastMeanIndexBounds` | prysm/psf.py:79-82 | for `last`, the mean index lies in [1, n]; its integer part is n exactly when every row's `last` crossing is n |
| `RadialMetric.LastMeanIndexIsMeanCrossing` | prysm/psf.py:80-81 | the row length minus the mean reversed `argmax` equals the mean of the per-row `last` crossings |
| `RadialMetric.Interpolate` | prysm/psf.py:78-88 | succeeds exactly when `lowidx` indexes `r`, and otherwise gives the index error; an integral mean index gives exactly `r[m]` |
| `RadialMetric.InterpolateBounds` | prysm/psf.py:83-88 | when `r[1] >= 0`, `first` lands in `[r[low], r[low] + r[1]]` and `last` lands in `[r[low] - r[1], r[low]]` |
| `RadialMetric.InterpolateOnUniformGrid` | prysm/psf.py:88 | on radii `r0 + k*d`: `first` gives `r0 + m*d + frac(m)*r0` and `last` gives `r0 + (2 floor(m) - m)*d - frac(m)*r0`; the step is scaled by `r[1]`, not by the spacing |
| `RadialMetric.SizeFromMask` | prysm/psf.py:76-88 | the radius is the interpolation at the criteria's mean crossing index (`Interpolate` of `MeanIndex`); `first` always succeeds; `last` succeeds exactly when some row's `last` crossing is inside the radius vector, and otherwise gives the index error; any other criteria gives the unknown-criteria error |
| `RadialMetric.EstimateSize` | prysm/psf.py:31-88 | a numeric metric fails at `.lower()`; an unknown metric name is reported before an unknown criteria; an accepted metric gives the mask-to-radius result for the mask at its level; `first` always gives a radius; `last` gives one exactly when some row's `last` crossing is below n, and the index error otherwise |
| `RadialMetric.FirstBracket` | prysm/psf.py:76-88 | with `r[1] >= 0`, the `first` radius from any mask lies in `[r[lo], r[lo] + r[1]]` for some valid index `lo` |
| `RadialMetric.LastBracket` | prysm/psf.py:79-88 | with `r[1] >= 0`, a `last` radius from a mask lies in `[r[lo] - r[1], r[lo]]` for some index `1 <= lo < n` |
| `RadialMetric.EstimateSizeFirstBracket` | prysm/psf.py:58-88 | with `r[1] >= 0`, `estimate_size` with `first` gives a radius in `[r[lo], r[lo] + r[1]]` for some valid index `lo`, for every accepted metric |
| `RadialMetric.EstimateSizeLastBracket` | prysm/psf.py:58-88 | with `r[1] >= 0`, a radius that `estimate_size` with `last` gives lies in `[r[lo] - r[1], r[lo]]` for some index `1 <= lo < n` |
| `RadialMetric.EstimateSizeIgnoresCase` | prysm/psf.py:58-59 | metric names and criteria that differ only in letter case give the same result |
| `RadialMetric.SymmetricGridSize` | prysm/psf.py:74-88 | when every row is the same profile, the result is exactly `r[k]`, with `k` that row's crossing index (for `last`, the index error when `k = n`) |
| `RadialMetric.Fwhm` | prysm/psf.py:91-112 | succeeds exactly when `estimate_size` at `fwhm` does, and then gives twice its radius; fails with the same error otherwise |
| `RadialMetric.OneOverE` | prysm/psf.py:115-135 | the `estimate_size` result at `1/e`, unchanged |
| `RadialMetric.OneOverE2` | prysm/psf.py:138-158 | the `estimate_size` result at `1/e^2`, unchanged |
| `Centroid.CenterOfMass` | prysm/psf.py:183 | `ndimage.center_of_mass`: each coordinate times the sum of the samples is that axis' moment, so it is the intensity-weighted mean index |
| `Centroid.MomentsAreWeightedSums` | prysm/psf.py:183 | the axis-0 moment is the row-index-weighted sum of the row sums, and each row's axis-1 moment is its column-index-weighted sum, as `center_of_mass` defines them |
| `Centroid.CenterOfMassInBounds` | prysm/psf.py:183 | for non-negative data with a positive sum, each centre-of-mass coordinate lies between 0 and the last index of its axis |
| `Centroid.CenterOfMassOfSingleSample` | prysm/psf.py:183 | a grid with one non-zero sample has its centre of mass on that sample |
| `Centroid.CenterIndex` | prysm/psf.py:182 | the reference index is `ceil(n / 2)`: `n <= 2c <= n + 1` |
| `Centroid.Centroid` | prysm/psf.py:161-190 | any unit other than exactly `spatial` gives the centre of mass unchanged; `spatial` without `dx` fails with a type error, and with `dx` gives `dx * (com_k - ceil(n_k / 2))` on each axis k |
| `Centroid.Spatial` | prysm/psf.py:190 | `dx * (x - c)` per axis; `SpatialZeroIff` shows that with a non-zero `dx` it is (0, 0) exactly when the point is the reference point |
| `Centroid.SpatialCentroidZeroIff` | prysm/psf.py:182-190 | with a non-zero `dx`, the spatial centroid is (0, 0) exactly when the centre of mass is at `(ceil(rows/2), ceil(cols/2))` |
| `Centroid.CentroidOfCenteredSample` | prysm/psf.py:182-190 | a single sample at the reference indices has spatial centroid (0, 0) |
| `Centroid.OddExtentMiddleIsOffset` | prysm/psf.py:182-190 | on an odd number of rows, a single sample on the middle row has spatial y-coordinate `-dx`, not 0 |
| `Centroid.Trunc` | prysm/psf.py:210 | `int()` rounds toward zero: the result is within one of `x`, on the side of zero |
| `Centroid.Slice` | prysm/psf.py:216 | Python slicing with non-negative bounds: the stop is clipped to the length, a start at or past the stop gives an empty result, and entries keep their offsets |
| `Centroid.Crop` | prysm/psf.py:216 | every entry of the two-dimensional slice is the data entry at the same offset from the window's corner |
| `Centroid.PixelCentroid` | prysm/psf.py:209-210 | `centroid(data, unit='pixels')` truncated with `int()`: each coordinate is the centre of mass truncated toward zero |
| `Centroid.Window` | prysm/psf.py:211-216 | `data[cy - w:cy, cx - w:cx]` is a block of the data whose corner is w samples before `(cy, cx)` on both axes, with at most w rows and w columns, and exactly as many rows and columns as Python's slice clipping keeps |
| `Centroid.Autocrop` | prysm/psf.py:193-216 | the crop has at most `px // 2` rows and columns, exactly as many as the clipped slices keep, and its entry (i, j) is `data[cy - w + i][cx - w + j]` |
| `Centroid.PixelCentroidInBounds` | prysm/psf.py:209-210 | for non-negative data with a positive sum, the truncated centroid is a valid index on both axes |
| `Centroid.AutocropWindow` | prysm/psf.py:209-216 | for non-negative data with a positive sum and `0 <= px // 2 <= cy`, `px // 2 <= cx`: the crop bounds are in range, the crop is exactly `px // 2` by `px // 2`, and its last sample is `data[cy - 1][cx - 1]` |

## Behaviour as coded

The code is modelled where it differs from its prose description:

- The interpolation step is `remainder * r[1]`, not `remainder * (r[1] - r[0])`.
  `InterpolateOnUniformGrid` shows the extra `frac(m) * r0` term this gives
  when `r[0] != 0`.
- `metric.lower()` runs before the numeric-metric branch. A numeric metric
  therefore raises `AttributeError`, and the absolute-threshold branch can
  never run.
- A row with no sample above the level has `last` crossing `n`, not the last
  index. So does a row whose outermost sample is above the level. When every
  row is one of these, `lowidx = n` and `r[lowidx]` raises `IndexError`.
- The `last` interpolation steps inward from `r[floor(m)]` by the fraction.
  The result therefore falls as the mean index rises within one unit, and
  jumps at integers.
- When the centre sample of every angle is above the level, as for a PSF
  that peaks at its centre, every `argmax` is 0 and `first` gives `r[0]`,
  the innermost radius, not the radius where the profile falls through the
  level (`FirstAtCentre`, `CentredPeakFirstIsInnermost`). On such a profile
  `first` and `last` therefore need not agree.
- The crop window is `px // 2` wide, not `px`, and it ends at the centroid
  rather than being centred on it.
- The spatial reference index is `ceil(n / 2)`, one past the middle sample
  for odd `n`.
- The option strings of `estimate_size` are lower-cased. The `unit` of
  `centroid` is compared exactly.

## Left out

- `uniform_cart_to_polar` (the Cartesian-to-polar resampling) is an external
  interpolation routine. Its outputs `r` and `polar` are the inputs of
  `EstimateSize`, which requires at least one angle row, at least two radii,
  and one sample per radius in every row.
- `airydisk`, the `AiryDisk` class and its `analytic_ft`: Bessel-function
  numerics, the `Convolvable` base class and `diffraction_limited_mtf`
  are not part of this model.
- `encircled_energy` and `_encircled_energy_core`: they depend on the FFT-based
  `mtf_from_psf`, the Bessel function `j1` and a floating-point sum.
- `_analytical_encircled_energy` and `_inverse_analytic_encircled_energy`:
  closed forms in Bessel functions and SciPy's golden-section minimiser.
- The `AIRYDATA` table and the Airy zero and encircled-energy constants are
  floating-point reference values that none of the modelled functions use.
- Floating point: samples, radii and levels are exact reals. `InvE` and
  `InvE2` are the decimal forms of `1 / np.e` and `1 / (np.e ** 2)`, and the
  proofs rely only on their order in (0, 1/2).
- `TextCase.Lower`: lower-cases only the ASCII letters A to Z, whereas
  Python's `str.lower` also folds other Unicode letters.
- A non-string `criteria`, whose `.lower()` would raise `AttributeError`, is
  not modelled: the criteria is a string.
- `Centroid.CenterOfMass` requires the samples to have a non-zero sum. For a
  zero sum SciPy divides by zero and returns NaN with a warning.
- `Centroid.Autocrop` requires non-negative crop bounds (`CropInRange`).
  Python's wrap-around for negative indices is not modelled.
