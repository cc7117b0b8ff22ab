/** The radial size estimator of prysm's psf module (`estimate_size`) and its
    three wrappers (`fwhm`, `one_over_e`, `one_over_e2`).

    The polar resampling of the Cartesian data is an external routine, so its
    outputs are the inputs here: `r`, the ascending radii, and `polar`, the
    resampled samples, one row per angle and one column per radius (the code
    treats axis 1 as the radial axis). */
module RadialMetric {
  import opened Outcome
  import opened TextCase
  import opened RealArith

  /** The metric argument: a name such as "fwhm", or a number. */
  datatype MetricArg = Named(name: string) | Level(level: real)

  datatype Criteria = First | Last

  /** 1/e and 1/e^2 as the shortest decimals that round to the
      double-precision values `1 / np.e` and `1 / (np.e ** 2)`. The proofs
      use only 0 < InvE2 < InvE < 1/2. */
  const InvE: real := 0.36787944117144233
  const InvE2: real := 0.1353352832366127

  /** The inputs `estimate_size` receives from the polar resampling: at least
      one angle, at least two radii, one sample per radius in every row. */
  predicate PolarShaped(r: seq<real>, polar: seq<seq<real>>) {
    |polar| > 0 && |r| >= 2 && forall i :: 0 <= i < |polar| ==> |polar[i]| == |r|
  }

  // ---------------------------------------------------------------------------
  // Threshold and mask

  function RowPeak(row: seq<real>): (m: real)
    requires |row| > 0
    ensures exists j :: 0 <= j < |row| && row[j] == m
    ensures forall j :: 0 <= j < |row| ==> row[j] <= m
  {
    if |row| == 1 then row[0]
    else
      var rest := RowPeak(row[1..]);
      if row[0] >= rest then row[0] else rest
  }

  /** `polar.max()`: the largest sample of the whole grid. */
  function Peak(polar: seq<seq<real>>): (m: real)
    requires |polar| > 0
    requires forall i :: 0 <= i < |polar| ==> |polar[i]| > 0
    ensures exists i, j :: 0 <= i < |polar| && 0 <= j < |polar[i]| && polar[i][j] == m
    ensures forall i, j :: 0 <= i < |polar| && 0 <= j < |polar[i]| ==> polar[i][j] <= m
  {
    var first := RowPeak(polar[0]);
    if |polar| == 1 then first
    else
      var rest := Peak(polar[1..]);
      assert forall i :: 1 <= i < |polar| ==> polar[i] == polar[1..][i - 1];
      if first >= rest then first else rest
  }

  predicate IsMetricName(name: string) {
    name == "fwhm" || name == "1/e" || name == "1/e^2"
  }

  /** The crossing level for a lower-cased metric name and the grid's peak. */
  function Threshold(name: string, peak: real): (res: Result<real>)
    ensures res.Ok? <==> IsMetricName(name)
    ensures !res.Ok? ==> res == Err(UnknownMetric)
    ensures name == "fwhm" ==> res == Ok(peak / 2.0)
    ensures name == "1/e" ==> res == Ok(InvE * peak)
    ensures name == "1/e^2" ==> res == Ok(InvE2 * peak)
    ensures res.Ok? && peak > 0.0 ==> 0.0 < res.value < peak
    ensures res.Ok? && peak > 0.0 ==> res.value <= peak / 2.0
  {
    if name == "fwhm" then Ok(peak / 2.0)
    else if name == "1/e" then Ok(InvE * peak)
    else if name == "1/e^2" then Ok(InvE2 * peak)
    else Err(UnknownMetric)
  }

  function MaskRow(row: seq<real>, level: real): seq<bool> {
    seq(|row|, j requires 0 <= j < |row| => row[j] > level)
  }

  /** `polar > hm`: a strict comparison, so a sample equal to the level is
      not counted as above it. */
  function Mask(polar: seq<seq<real>>, level: real): (mask: seq<seq<bool>>)
    ensures |mask| == |polar|
    ensures forall i :: 0 <= i < |polar| ==> mask[i] == MaskRow(polar[i], level)
    ensures forall i, j :: 0 <= i < |polar| && 0 <= j < |polar[i]| ==>
              |mask[i]| == |polar[i]| && (mask[i][j] <==> polar[i][j] > level)
  {
    seq(|polar|, i requires 0 <= i < |polar| => MaskRow(polar[i], level))
  }

  // ---------------------------------------------------------------------------
  // Per-row crossing indices

  /** Index of the first true entry, or |row| when there is none. */
  function FirstTrueOrEnd(row: seq<bool>): (k: nat)
    ensures k <= |row|
    ensures forall j :: 0 <= j < k ==> !row[j]
    ensures k < |row| ==> row[k]
  {
    if |row| == 0 then 0
    else if row[0] then 0
    else 1 + FirstTrueOrEnd(row[1..])
  }

  /** NumPy's `argmax` of a boolean row: the first index holding the largest
      value, that is the first true entry, or 0 when the row is all false. */
  function Argmax(row: seq<bool>): (k: nat)
    requires |row| > 0
    ensures k < |row|
    ensures (exists j :: 0 <= j < |row| && row[j]) ==> row[k] && forall j :: 0 <= j < k ==> !row[j]
    ensures (forall j :: 0 <= j < |row| ==> !row[j]) ==> k == 0
  {
    var k := FirstTrueOrEnd(row);
    if k == |row| then 0 else k
  }

  function Reverse(row: seq<bool>): (rev: seq<bool>)
    ensures |rev| == |row|
  {
    seq(|row|, j requires 0 <= j < |row| => row[|row| - 1 - j])
  }

  /** The `last` crossing of one row: its length minus the argmax of the
      reversed row. */
  function LastCrossing(row: seq<bool>): (k: int)
    requires |row| > 0
    ensures 1 <= k <= |row|
  {
    |row| - Argmax(Reverse(row))
  }

  /** The `last` crossing is one past the outermost true entry, or the row
      length when the row has no true entry. */
  lemma LastCrossingIsOnePastLastTrue(row: seq<bool>)
    requires |row| > 0
    ensures 1 <= LastCrossing(row) <= |row|
    ensures (exists j :: 0 <= j < |row| && row[j]) ==>
              row[LastCrossing(row) - 1] && forall j :: LastCrossing(row) <= j < |row| ==> !row[j]
    ensures (forall j :: 0 <= j < |row| ==> !row[j]) ==> LastCrossing(row) == |row|
  {
    var rev := Reverse(row);
    var k := Argmax(rev);
    if exists j :: 0 <= j < |row| && row[j] {
      var j :| 0 <= j < |row| && row[j];
      assert rev[|row| - 1 - j];
      forall j' | |row| - k <= j' < |row|
        ensures !row[j']
      {
        assert row[j'] == rev[|row| - 1 - j'];
      }
    } else {
      forall j | 0 <= j < |rev| ensures !rev[j] {
        assert rev[j] == row[|row| - 1 - j];
      }
    }
  }

  /** On a radial profile that never rises outward, the mask is a run of
      true entries from the centre: with the centre above the level, the
      `first` crossing is the centre and the `last` crossing is the number of
      samples above the level; with the centre not above it, no sample is,
      and the `last` crossing is the row length. */
  lemma {:induction false} FallingProfileCrossings(row: seq<real>, level: real)
    requires |row| > 0
    requires forall i, j :: 0 <= i <= j < |row| ==> row[j] <= row[i]
    ensures row[0] > level ==> Argmax(MaskRow(row, level)) == 0
    ensures row[0] > level ==>
              forall j :: 0 <= j < |row| ==> (row[j] > level <==> j < LastCrossing(MaskRow(row, level)))
    ensures row[0] <= level ==> LastCrossing(MaskRow(row, level)) == |row|
  {
    var mask := MaskRow(row, level);
    LastCrossingIsOnePastLastTrue(mask);
    var k := LastCrossing(mask);
    if row[0] > level {
      assert mask[0];
      forall j | 0 <= j < |row|
        ensures row[j] > level <==> j < k
      {
        if j < k {
          assert row[k - 1] <= row[j];
          assert mask[k - 1];
        } else {
          assert !mask[j];
        }
      }
    } else {
      forall j | 0 <= j < |row| ensures !mask[j] {
        assert row[j] <= row[0];
      }
    }
  }

  /** Lowering the level can only move the `last` crossing outward, provided
      the row rises above the higher level somewhere. Without that proviso
      the all-false row's crossing (the row length) breaks the order. */
  lemma LastCrossingAntitone(row: seq<real>, low: real, high: real)
    requires |row| > 0
    requires low <= high
    requires exists j :: 0 <= j < |row| && row[j] > high
    ensures LastCrossing(MaskRow(row, high)) <= LastCrossing(MaskRow(row, low))
  {
    var mh, ml := MaskRow(row, high), MaskRow(row, low);
    LastCrossingIsOnePastLastTrue(mh);
    LastCrossingIsOnePastLastTrue(ml);
    var kh := LastCrossing(mh);
    var j :| 0 <= j < |row| && row[j] > high;
    assert mh[j] && ml[j];
    assert ml[kh - 1];
  }

  // ---------------------------------------------------------------------------
  // Means of index vectors

  function Sum(xs: seq<int>): int {
    if |xs| == 0 then 0 else xs[0] + Sum(xs[1..])
  }

  /** `.mean()` of an integer vector, as a real. */
  function Mean(xs: seq<int>): (m: real)
    requires |xs| > 0
    ensures m * |xs| as real == Sum(xs) as real
  {
    Sum(xs) as real / |xs| as real
  }

  lemma {:induction false} SumBounds(xs: seq<int>, lo: int, hi: int)
    requires forall k :: 0 <= k < |xs| ==> lo <= xs[k] <= hi
    ensures lo as real * |xs| as real <= Sum(xs) as real <= hi as real * |xs| as real
  {
    if |xs| > 0 {
      var n := |xs| as real;
      SumBounds(xs[1..], lo, hi);
      assert lo as real * n == lo as real + lo as real * (n - 1.0);
      assert hi as real * n == hi as real + hi as real * (n - 1.0);
    }
  }

  /** A mean of values in [lo, hi] lies in [lo, hi]. */
  lemma MeanBounds(xs: seq<int>, lo: int, hi: int)
    requires |xs| > 0
    requires forall k :: 0 <= k < |xs| ==> lo <= xs[k] <= hi
    ensures lo as real <= Mean(xs) <= hi as real
  {
    SumBounds(xs, lo, hi);
    DivLowerBound(Sum(xs) as real, |xs| as real, lo as real);
    DivUpperBound(Sum(xs) as real, |xs| as real, hi as real);
  }

  /** A sum of non-negative values is zero exactly when every value is. */
  lemma {:induction false} SumZeroIff(xs: seq<int>)
    requires forall k :: 0 <= k < |xs| ==> 0 <= xs[k]
    ensures Sum(xs) >= 0
    ensures Sum(xs) == 0 <==> forall k :: 0 <= k < |xs| ==> xs[k] == 0
  {
    if |xs| > 0 {
      SumZeroIff(xs[1..]);
      assert forall k :: 1 <= k < |xs| ==> xs[k] == xs[1..][k - 1];
    }
  }

  /** The mean of a vector whose entries all equal k is k. */
  lemma MeanOfConstant(xs: seq<int>, k: int)
    requires |xs| > 0
    requires forall i :: 0 <= i < |xs| ==> xs[i] == k
    ensures Mean(xs) == k as real
  {
    MeanBounds(xs, k, k);
  }

  // ---------------------------------------------------------------------------
  // The mean crossing index

  predicate HasColumns(mask: seq<seq<bool>>, n: nat) {
    forall i :: 0 <= i < |mask| ==> |mask[i]| == n
  }

  function FirstIndices(mask: seq<seq<bool>>, n: nat): (xs: seq<int>)
    requires n > 0 && HasColumns(mask, n)
    ensures |xs| == |mask|
    ensures forall i :: 0 <= i < |mask| ==> xs[i] == Argmax(mask[i])
  {
    seq(|mask|, i requires 0 <= i < |mask| => Argmax(mask[i]))
  }

  function ReversedIndices(mask: seq<seq<bool>>, n: nat): (xs: seq<int>)
    requires n > 0 && HasColumns(mask, n)
    ensures |xs| == |mask|
    ensures forall i :: 0 <= i < |mask| ==> xs[i] == Argmax(Reverse(mask[i]))
  {
    seq(|mask|, i requires 0 <= i < |mask| => Argmax(Reverse(mask[i])))
  }

  /** `meanidx` of the source: the mean `argmax` along the radial axis, and
      for `last` the row length minus the mean `argmax` of the reversed rows. */
  function MeanIndex(mask: seq<seq<bool>>, n: nat, c: Criteria): (m: real)
    requires |mask| > 0 && n > 0 && HasColumns(mask, n)
    ensures 0.0 <= m
  {
    match c
    case First =>
      MeanBounds(FirstIndices(mask, n), 0, n - 1);
      Mean(FirstIndices(mask, n))
    case Last =>
      MeanBounds(ReversedIndices(mask, n), 0, n - 1);
      n as real - Mean(ReversedIndices(mask, n))
  }

  /** With `first`, the mean index lies in [0, n-1], so its integer part is a
      valid index into the radii. */
  lemma FirstMeanIndexBounds(mask: seq<seq<bool>>, n: nat)
    requires |mask| > 0 && n > 0 && HasColumns(mask, n)
    ensures 0.0 <= MeanIndex(mask, n, First) <= (n - 1) as real
    ensures 0 <= MeanIndex(mask, n, First).Floor < n
  {
    MeanBounds(FirstIndices(mask, n), 0, n - 1);
  }

  /** With `last`, the mean index lies in [1, n]; it reaches n, the one
      integer part that is not a valid index, exactly when every row's
      `last` crossing is n: each row is either entirely at or below the level
      or above it at its outermost radius. */
  lemma LastMeanIndexBounds(mask: seq<seq<bool>>, n: nat)
    requires |mask| > 0 && n > 0 && HasColumns(mask, n)
    ensures 1.0 <= MeanIndex(mask, n, Last) <= n as real
    ensures 1 <= MeanIndex(mask, n, Last).Floor <= n
    ensures MeanIndex(mask, n, Last).Floor == n <==> forall i :: 0 <= i < |mask| ==> LastCrossing(mask[i]) == n
  {
    var xs := ReversedIndices(mask, n);
    MeanBounds(xs, 0, n - 1);
    SumZeroIff(xs);
    var m := MeanIndex(mask, n, Last);
    if m.Floor == n {
      assert Mean(xs) == 0.0;
      assert Sum(xs) == 0;
    } else {
      assert Mean(xs) > 0.0;
    }
  }

  /** The per-row `last` crossings. */
  function LastCrossings(mask: seq<seq<bool>>, n: nat): (ys: seq<int>)
    requires n > 0 && HasColumns(mask, n)
    ensures |ys| == |mask|
    ensures forall i :: 0 <= i < |mask| ==> ys[i] == LastCrossing(mask[i])
  {
    seq(|mask|, i requires 0 <= i < |mask| => LastCrossing(mask[i]))
  }

  /** The `last` mean index is the mean of the per-row `last` crossings. */
  lemma LastMeanIndexIsMeanCrossing(mask: seq<seq<bool>>, n: nat)
    requires |mask| > 0 && n > 0 && HasColumns(mask, n)
    ensures MeanIndex(mask, n, Last) == Mean(LastCrossings(mask, n))
  {
    var xs, ys := ReversedIndices(mask, n), LastCrossings(mask, n);
    SumComplement(xs, ys, n);
    MeanOfComplement(Sum(xs), Sum(ys), n, |mask|);
  }

  lemma {:induction false} SumComplement(xs: seq<int>, ys: seq<int>, n: int)
    requires |xs| == |ys|
    requires forall i :: 0 <= i < |xs| ==> ys[i] == n - xs[i]
    ensures Sum(ys) == n * |xs| - Sum(xs)
  {
    if |xs| > 0 {
      SumComplement(xs[1..], ys[1..], n);
      assert n * |xs| == n + n * (|xs| - 1);
    }
  }

  // ---------------------------------------------------------------------------
  // Sub-pixel interpolation

  /** `divmod(meanidx, 1)` followed by `r[lowidx] + remainder * r[1]`, the
      remainder negated for `last`. An integer part past the end of `r`
      raises IndexError. The step is scaled by `r[1]`, not by `r[1] - r[0]`. */
  function Interpolate(r: seq<real>, m: real, c: Criteria): (res: Result<real>)
    requires |r| >= 2 && 0.0 <= m
    ensures res.Ok? <==> m.Floor < |r|
    ensures !res.Ok? ==> res == Err(IndexError)
    ensures res.Ok? && m == m.Floor as real ==> res.value == r[m.Floor]
  {
    var low := m.Floor;
    var remainder := m - low as real;
    if low >= |r| then Err(IndexError)
    else
      match c
      case First => Ok(r[low] + remainder * r[1])
      case Last => Ok(r[low] + (-remainder) * r[1])
  }

  /** With a non-negative second radius, `first` steps outward from
      r[floor m] by at most r[1], and `last` steps inward by at most r[1]. */
  lemma InterpolateBounds(r: seq<real>, m: real, c: Criteria)
    requires |r| >= 2 && 0.0 <= m && m.Floor < |r|
    requires r[1] >= 0.0
    ensures c == First ==> r[m.Floor] <= Interpolate(r, m, c).value <= r[m.Floor] + r[1]
    ensures c == Last ==> r[m.Floor] - r[1] <= Interpolate(r, m, c).value <= r[m.Floor]
  {
    var low := m.Floor;
    var f := m - low as real;
    assert 0.0 <= f <= 1.0;
    ScaleWithin(f, r[1]);
    var step := f * r[1];
    assert 0.0 <= step <= r[1];
    if c == First {
      assert Interpolate(r, m, c).value == r[low] + step;
    } else {
      assert (-f) * r[1] == -step;
      assert Interpolate(r, m, c).value == r[low] - step;
    }
  }

  /** On radii r[k] = r0 + k*d, `first` yields the radius at the fractional
      index m plus the fraction times r0 (exactly m*d when r0 = 0), and `last`
      steps back from r[floor m] by the fraction, giving (2 floor(m) - m)*d
      when r0 = 0. */
  lemma InterpolateOnUniformGrid(r: seq<real>, r0: real, d: real, m: real)
    requires |r| >= 2 && 0.0 <= m && m.Floor < |r|
    requires forall k :: 0 <= k < |r| ==> r[k] == r0 + k as real * d
    ensures Interpolate(r, m, First).Ok? && Interpolate(r, m, Last).Ok?
    ensures Interpolate(r, m, First).value == r0 + m * d + (m - m.Floor as real) * r0
    ensures Interpolate(r, m, Last).value == r0 + (2.0 * m.Floor as real - m) * d - (m - m.Floor as real) * r0
  {
    var low := m.Floor as real;
    assert r[m.Floor] == r0 + low * d;
    assert r[1] == r0 + d;
    assert (m - low) * (r0 + d) == (m - low) * r0 + (m - low) * d;
    assert low * d + (m - low) * d == m * d;
    assert low * d - (m - low) * d == (2.0 * low - m) * d;
  }

  // ---------------------------------------------------------------------------
  // estimate_size and its wrappers

  /** The mask built from the grid and a lower-cased metric name. */
  function MetricMask(polar: seq<seq<real>>, name: string): (mask: seq<seq<bool>>)
    requires |polar| > 0 && forall i :: 0 <= i < |polar| ==> |polar[i]| > 0
    requires IsMetricName(name)
    ensures |mask| == |polar|
    ensures forall i :: 0 <= i < |polar| ==> |mask[i]| == |polar[i]|
    ensures forall i, j :: 0 <= i < |polar| && 0 <= j < |polar[i]| ==>
              (mask[i][j] <==> polar[i][j] > Threshold(name, Peak(polar)).value)
  {
    Mask(polar, Threshold(name, Peak(polar)).value)
  }

  /** Some row's `last` crossing is a valid radius index: that row has a
      sample above the level and its outermost sample is not above it. */
  predicate SomeLastCrossingInside(mask: seq<seq<bool>>, n: nat)
    requires n > 0 && HasColumns(mask, n)
  {
    exists i :: 0 <= i < |mask| && LastCrossing(mask[i]) < n
  }

  /** The mask-to-radius half of `estimate_size`, dispatching on the
      lower-cased criteria string. `first` always yields a radius; `last`
      fails with IndexError exactly when every row's `last` crossing is the
      row length. */
  function SizeFromMask(r: seq<real>, mask: seq<seq<bool>>, crit: string): (res: Result<real>)
    requires |mask| > 0 && |r| >= 2 && HasColumns(mask, |r|)
    ensures crit == "first" ==> res.Ok? && res == Interpolate(r, MeanIndex(mask, |r|, First), First)
    ensures crit == "last" ==> res == Interpolate(r, MeanIndex(mask, |r|, Last), Last)
    ensures crit == "last" ==> (res.Ok? <==> SomeLastCrossingInside(mask, |r|))
    ensures crit == "last" && !res.Ok? ==> res == Err(IndexError)
    ensures crit != "first" && crit != "last" ==> res == Err(UnknownCriteria)
  {
    var n := |r|;
    if crit == "first" then
      FirstMeanIndexBounds(mask, n);
      Interpolate(r, MeanIndex(mask, n, First), First)
    else if crit == "last" then
      LastMeanIndexBounds(mask, n);
      assert (forall i :: 0 <= i < |mask| ==> LastCrossing(mask[i]) == n) <==>
             !(exists i :: 0 <= i < |mask| && LastCrossing(mask[i]) < n) by {
        forall i | 0 <= i < |mask| ensures LastCrossing(mask[i]) <= n {
          LastCrossingIsOnePastLastTrue(mask[i]);
        }
      }
      Interpolate(r, MeanIndex(mask, n, Last), Last)
    else Err(UnknownCriteria)
  }

  /** `estimate_size(x, y, data, metric, criteria)` after the polar
      resampling. Both option strings are lower-cased first; a numeric metric
      therefore fails at its `.lower()` call. An unknown metric is reported
      before an unknown criteria. */
  function EstimateSize(r: seq<real>, polar: seq<seq<real>>, metric: MetricArg, criteria: string := "last"): (res: Result<real>)
    requires PolarShaped(r, polar)
    ensures metric.Level? ==> res == Err(AttributeError)
    ensures metric.Named? && !IsMetricName(Lower(metric.name)) ==> res == Err(UnknownMetric)
    ensures metric.Named? && IsMetricName(Lower(metric.name)) ==>
              res == SizeFromMask(r, MetricMask(polar, Lower(metric.name)), Lower(criteria))
    ensures metric.Named? && IsMetricName(Lower(metric.name)) && Lower(criteria) == "first" ==>
              res.Ok?
    ensures metric.Named? && IsMetricName(Lower(metric.name)) && Lower(criteria) == "last" ==>
              (res.Ok? <==> SomeLastCrossingInside(MetricMask(polar, Lower(metric.name)), |r|))
    ensures metric.Named? && IsMetricName(Lower(metric.name)) && Lower(criteria) == "last" && !res.Ok? ==>
              res == Err(IndexError)
    ensures metric.Named? && IsMetricName(Lower(metric.name)) && Lower(criteria) != "first" && Lower(criteria) != "last" ==>
              res == Err(UnknownCriteria)
  {
    var crit := Lower(criteria);
    if metric.Level? then Err(AttributeError)
    else
      var name := Lower(metric.name);
      match Threshold(name, Peak(polar))
      case Err(e) => Err(e)
      case Ok(_) => SizeFromMask(r, MetricMask(polar, name), crit)
  }

  /** With `first` and a non-negative step r[1], the radius from a mask lies
      between some r[lo] and r[lo] + r[1]: lo is the integer part of the mean
      crossing index. */
  lemma FirstBracket(r: seq<real>, mask: seq<seq<bool>>)
    requires |mask| > 0 && |r| >= 2 && HasColumns(mask, |r|) && r[1] >= 0.0
    ensures SizeFromMask(r, mask, "first").Ok?
    ensures exists lo :: 0 <= lo < |r| &&
              r[lo] <= SizeFromMask(r, mask, "first").value <= r[lo] + r[1]
  {
    var m := MeanIndex(mask, |r|, First);
    FirstMeanIndexBounds(mask, |r|);
    InterpolateBounds(r, m, First);
    var lo := m.Floor;
    assert r[lo] <= SizeFromMask(r, mask, "first").value <= r[lo] + r[1];
  }

  /** With `last` and a non-negative step r[1], a radius from a mask lies
      between r[lo] - r[1] and some r[lo] past the centre: lo is the integer
      part of the mean `last` crossing, at least 1. */
  lemma LastBracket(r: seq<real>, mask: seq<seq<bool>>)
    requires |mask| > 0 && |r| >= 2 && HasColumns(mask, |r|) && r[1] >= 0.0
    requires SizeFromMask(r, mask, "last").Ok?
    ensures exists lo :: 1 <= lo < |r| &&
              r[lo] - r[1] <= SizeFromMask(r, mask, "last").value <= r[lo]
  {
    var m := MeanIndex(mask, |r|, Last);
    LastMeanIndexBounds(mask, |r|);
    InterpolateBounds(r, m, Last);
    var lo := m.Floor;
    assert r[lo] - r[1] <= SizeFromMask(r, mask, "last").value <= r[lo];
  }

  /** `estimate_size` with `first`: the size always exists and lies between
      some radius r[lo] and r[lo] + r[1]. */
  lemma EstimateSizeFirstBracket(r: seq<real>, polar: seq<seq<real>>, name: string, criteria: string)
    requires PolarShaped(r, polar) && r[1] >= 0.0
    requires IsMetricName(Lower(name)) && Lower(criteria) == "first"
    ensures EstimateSize(r, polar, Named(name), criteria).Ok?
    ensures exists lo :: 0 <= lo < |r| &&
              r[lo] <= EstimateSize(r, polar, Named(name), criteria).value <= r[lo] + r[1]
  {
    FirstBracket(r, MetricMask(polar, Lower(name)));
  }

  /** `estimate_size` with `last`: a size that exists lies between
      r[lo] - r[1] and some radius r[lo] with lo >= 1. */
  lemma EstimateSizeLastBracket(r: seq<real>, polar: seq<seq<real>>, name: string, criteria: string)
    requires PolarShaped(r, polar) && r[1] >= 0.0
    requires IsMetricName(Lower(name)) && Lower(criteria) == "last"
    requires EstimateSize(r, polar, Named(name), criteria).Ok?
    ensures exists lo :: 1 <= lo < |r| &&
              r[lo] - r[1] <= EstimateSize(r, polar, Named(name), criteria).value <= r[lo]
  {
    LastBracket(r, MetricMask(polar, Lower(name)));
  }

  /** The metric name and the criteria are matched regardless of the case of
      their letters: "FWHM" with "Last" gives what "fwhm" with "last" does. */
  lemma EstimateSizeIgnoresCase(r: seq<real>, polar: seq<seq<real>>, name: string, name': string,
                                criteria: string, criteria': string)
    requires PolarShaped(r, polar)
    requires SameIgnoringCase(name, name') && SameIgnoringCase(criteria, criteria')
    ensures EstimateSize(r, polar, Named(name), criteria) == EstimateSize(r, polar, Named(name'), criteria')
  {
    LowerIgnoresCase(name, name');
    LowerIgnoresCase(criteria, criteria');
  }

  /** `estimate_size` on a rotationally symmetric grid, every row the same
      profile: the mean index is that row's crossing index, so the result is
      the radius at that index exactly, with no sub-pixel step. */
  lemma SymmetricGridSize(r: seq<real>, polar: seq<seq<real>>, name: string, criteria: string)
    requires PolarShaped(r, polar)
    requires forall i :: 0 <= i < |polar| ==> polar[i] == polar[0]
    requires IsMetricName(Lower(name))
    ensures var row := MetricMask(polar, Lower(name))[0];
            Lower(criteria) == "first" ==>
              EstimateSize(r, polar, Named(name), criteria) == Ok(r[Argmax(row)])
    ensures var row := MetricMask(polar, Lower(name))[0];
            Lower(criteria) == "last" ==>
              EstimateSize(r, polar, Named(name), criteria) ==
                if LastCrossing(row) < |r| then Ok(r[LastCrossing(row)]) else Err(IndexError)
  {
    var level := Threshold(Lower(name), Peak(polar)).value;
    var mask := MetricMask(polar, Lower(name));
    forall i | 0 <= i < |mask| ensures mask[i] == mask[0] {
      assert mask[i] == MaskRow(polar[i], level) == MaskRow(polar[0], level);
    }
    assert EstimateSize(r, polar, Named(name), criteria) == SizeFromMask(r, mask, Lower(criteria));
    UniformMaskFirst(r, mask, mask[0]);
    UniformMaskLast(r, mask, mask[0]);
  }

  /** When every row of the mask is `row`, `first` yields the radius at
      that row's first crossing. */
  lemma UniformMaskFirst(r: seq<real>, mask: seq<seq<bool>>, row: seq<bool>)
    requires |mask| > 0 && |r| >= 2 && HasColumns(mask, |r|)
    requires forall i :: 0 <= i < |mask| ==> mask[i] == row
    ensures |row| == |r| && SizeFromMask(r, mask, "first") == Ok(r[Argmax(row)])
  {
    var k := Argmax(row);
    MeanOfConstant(FirstIndices(mask, |r|), k);
    var res := Interpolate(r, k as real, First);
    assert res.Ok? && res.value == r[k];
  }

  /** When every row of the mask is true at radius 0, as when the centre
      sample of every angle is above the level, every `argmax` is 0 and
      `first` yields the innermost radius r[0], whatever the rest of the
      mask holds. */
  lemma FirstAtCentre(r: seq<real>, mask: seq<seq<bool>>)
    requires |mask| > 0 && |r| >= 2 && HasColumns(mask, |r|)
    requires forall i :: 0 <= i < |mask| ==> mask[i][0]
    ensures SizeFromMask(r, mask, "first") == Ok(r[0])
  {
    MeanOfConstant(FirstIndices(mask, |r|), 0);
    var res := Interpolate(r, 0.0, First);
    assert res.Ok? && res.value == r[0];
  }

  /** A PSF that peaks at its centre, positively: the radius-0 sample of
      every angle is the peak, so every accepted metric's mask is true at
      radius 0 and `first` yields r[0], the innermost radius, rather than a
      radius where the profile crosses the level. */
  lemma CentredPeakFirstIsInnermost(r: seq<real>, polar: seq<seq<real>>, name: string, criteria: string)
    requires PolarShaped(r, polar) && Peak(polar) > 0.0
    requires forall i :: 0 <= i < |polar| ==> polar[i][0] == Peak(polar)
    requires IsMetricName(Lower(name)) && Lower(criteria) == "first"
    ensures EstimateSize(r, polar, Named(name), criteria) == Ok(r[0])
  {
    var mask := MetricMask(polar, Lower(name));
    forall i | 0 <= i < |mask| ensures mask[i][0] {
      assert polar[i][0] > Threshold(Lower(name), Peak(polar)).value;
    }
    FirstAtCentre(r, mask);
  }

  /** When every row of the mask is `row`, `last` yields the radius at that
      row's `last` crossing, or IndexError when that crossing is the row
      length. */
  lemma UniformMaskLast(r: seq<real>, mask: seq<seq<bool>>, row: seq<bool>)
    requires |mask| > 0 && |r| >= 2 && HasColumns(mask, |r|)
    requires forall i :: 0 <= i < |mask| ==> mask[i] == row
    ensures |row| == |r|
    ensures SizeFromMask(r, mask, "last") ==
              if LastCrossing(row) < |r| then Ok(r[LastCrossing(row)]) else Err(IndexError)
  {
    var n := |r|;
    var k := LastCrossing(row);
    MeanOfConstant(ReversedIndices(mask, n), Argmax(Reverse(row)));
    LastCrossingIsOnePastLastTrue(row);
    assert MeanIndex(mask, n, Last) == k as real;
    var res := Interpolate(r, k as real, Last);
    assert k < n ==> res.Ok? && res.value == r[k];
  }

  /** `fwhm`: twice the `estimate_size` radius at half the peak. */
  function Fwhm(r: seq<real>, polar: seq<seq<real>>, criteria: string := "last"): (res: Result<real>)
    requires PolarShaped(r, polar)
    ensures res.Ok? <==> EstimateSize(r, polar, Named("fwhm"), criteria).Ok?
    ensures res.Ok? ==> res.value == 2.0 * EstimateSize(r, polar, Named("fwhm"), criteria).value
    ensures !res.Ok? ==> res == EstimateSize(r, polar, Named("fwhm"), criteria)
  {
    match EstimateSize(r, polar, Named("fwhm"), criteria)
    case Ok(radius) => Ok(radius * 2.0)
    case Err(e) => Err(e)
  }

  /** `one_over_e`: the `estimate_size` radius at 1/e of the peak. */
  function OneOverE(r: seq<real>, polar: seq<seq<real>>, criteria: string := "last"): (res: Result<real>)
    requires PolarShaped(r, polar)
    ensures res == EstimateSize(r, polar, Named("1/e"), criteria)
  {
    EstimateSize(r, polar, Named("1/e"), criteria)
  }

  /** `one_over_e2`: the `estimate_size` radius at 1/e^2 of the peak. */
  function OneOverE2(r: seq<real>, polar: seq<seq<real>>, criteria: string := "last"): (res: Result<real>)
    requires PolarShaped(r, polar)
    ensures res == EstimateSize(r, polar, Named("1/e^2"), criteria)
  {
    EstimateSize(r, polar, Named("1/e^2"), criteria)
  }

  /** The three wrappers' levels are ordered: 1/e^2 of the peak below 1/e of
      it below half of it, for a positive peak. */
  lemma WrapperLevelsOrdered(peak: real)
    requires peak > 0.0
    ensures 0.0 < InvE2 < InvE < 0.5
    ensures Threshold("1/e^2", peak).value < Threshold("1/e", peak).value < Threshold("fwhm", peak).value
  {
  }

  /** With a positive peak, the sample holding the peak is above each
      wrapper's level, so the mask has at least one true entry. */
  lemma PeakIsAboveLevel(polar: seq<seq<real>>, name: string)
    requires |polar| > 0 && forall i :: 0 <= i < |polar| ==> |polar[i]| > 0
    requires IsMetricName(name)
    requires Peak(polar) > 0.0
    ensures exists i, j :: 0 <= i < |polar| && 0 <= j < |polar[i]| && MetricMask(polar, name)[i][j]
  {
    var i, j :| 0 <= i < |polar| && 0 <= j < |polar[i]| && polar[i][j] == Peak(polar);
    assert MetricMask(polar, name)[i][j];
  }
}
