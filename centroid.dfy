/** The centroid locator and crop window of prysm's psf module
    (`centroid` and `autocrop`).

    A grid is a sequence of rows of samples, `g[i][j]` with i along axis 0
    (y) and j along axis 1 (x). SciPy's `ndimage.center_of_mass` is modelled
    by its definition: per axis, the sum of value times index
    (`WeightedSum`) over the sum of values. */
module Centroid {
  import opened Outcome
  import opened RealArith

  predicate IsRect(g: seq<seq<real>>, cols: nat) {
    forall i :: 0 <= i < |g| ==> |g[i]| == cols
  }

  /** A two-dimensional array: at least one row, all rows of one length. */
  predicate WellShaped(g: seq<seq<real>>) {
    |g| > 0 && IsRect(g, |g[0]|)
  }

  predicate NonNegative(g: seq<seq<real>>) {
    forall i, j :: 0 <= i < |g| && 0 <= j < |g[i]| ==> 0.0 <= g[i][j]
  }

  // ---------------------------------------------------------------------------
  // Sums and first moments

  function RowSum(row: seq<real>): real {
    if |row| == 0 then 0.0 else row[0] + RowSum(row[1..])
  }

  /** The sum of (start + j) * xs[j]: the numerator of a centre of mass
      along one axis, as `center_of_mass` defines it. */
  function WeightedSum(xs: seq<real>, start: int): real {
    if |xs| == 0 then 0.0 else start as real * xs[0] + WeightedSum(xs[1..], start + 1)
  }

  /** The first moment j * xs[j] summed over j, accumulated without
      products: the sample at j lies in j of the proper suffixes, so the
      moment is the sum of the totals of those suffixes
      (`IndexMomentIsWeightedSum`). */
  function IndexMoment(xs: seq<real>): real {
    if |xs| == 0 then 0.0 else RowSum(xs[1..]) + IndexMoment(xs[1..])
  }

  /** The per-row sums: the profile along axis 0. */
  function RowSums(g: seq<seq<real>>): (sums: seq<real>)
    ensures |sums| == |g|
    ensures forall i :: 0 <= i < |g| ==> sums[i] == RowSum(g[i])
  {
    seq(|g|, i requires 0 <= i < |g| => RowSum(g[i]))
  }

  /** The per-row moments along axis 1. */
  function RowMoments(g: seq<seq<real>>): (moments: seq<real>)
    ensures |moments| == |g|
    ensures forall i :: 0 <= i < |g| ==> moments[i] == IndexMoment(g[i])
  {
    seq(|g|, i requires 0 <= i < |g| => IndexMoment(g[i]))
  }

  /** The sum of all samples. */
  function Total(g: seq<seq<real>>): real {
    RowSum(RowSums(g))
  }

  /** The moment along axis 0, the sum of i * g[i][j]: the moment of the row
      sums (`MomentsAreWeightedSums`). */
  function RowMoment(g: seq<seq<real>>): real {
    IndexMoment(RowSums(g))
  }

  /** The moment along axis 1, the sum of j * g[i][j]: the sum of the rows'
      own moments. */
  function ColMoment(g: seq<seq<real>>): real {
    RowSum(RowMoments(g))
  }

  /** `ndimage.center_of_mass(data)`: (row, column), corner indexed. A grid
      whose samples sum to zero has no centre of mass. */
  function CenterOfMass(g: seq<seq<real>>): (com: (real, real))
    requires Total(g) != 0.0
    ensures com.0 * Total(g) == RowMoment(g) && com.1 * Total(g) == ColMoment(g)
  {
    (RowMoment(g) / Total(g), ColMoment(g) / Total(g))
  }

  /** Weighting from `start` adds start times the sum to the moment. */
  lemma {:induction false} WeightedSumShift(xs: seq<real>, start: int)
    ensures WeightedSum(xs, start) == start as real * RowSum(xs) + IndexMoment(xs)
  {
    if |xs| > 0 {
      var rest := xs[1..];
      WeightedSumShift(rest, start + 1);
      ShiftStep(start as real, (start + 1) as real, xs[0], RowSum(rest), IndexMoment(rest),
                WeightedSum(xs, start), RowSum(xs), IndexMoment(xs));
    }
  }

  /** The product-free moment is the index-weighted sum. */
  lemma IndexMomentIsWeightedSum(xs: seq<real>)
    ensures IndexMoment(xs) == WeightedSum(xs, 0)
  {
    WeightedSumShift(xs, 0);
  }

  /** The row moment is the row-index-weighted sum of the row sums, and the
      column moment the sum of each row's column-index-weighted sum. */
  lemma MomentsAreWeightedSums(g: seq<seq<real>>)
    ensures RowMoment(g) == WeightedSum(RowSums(g), 0)
    ensures forall i :: 0 <= i < |g| ==> RowMoments(g)[i] == WeightedSum(g[i], 0)
  {
    IndexMomentIsWeightedSum(RowSums(g));
    forall i | 0 <= i < |g| ensures RowMoments(g)[i] == WeightedSum(g[i], 0) {
      IndexMomentIsWeightedSum(g[i]);
    }
  }

  lemma {:induction false} RowSumNonNegative(xs: seq<real>)
    requires forall j :: 0 <= j < |xs| ==> 0.0 <= xs[j]
    ensures 0.0 <= RowSum(xs)
  {
    if |xs| > 0 {
      RowSumNonNegative(xs[1..]);
    }
  }

  /** The moment of non-negative samples is at most the last index times
      their sum; k and total name those two values. */
  lemma {:induction false} IndexMomentBounds(xs: seq<real>, k: real, total: real)
    requires forall j :: 0 <= j < |xs| ==> 0.0 <= xs[j]
    requires k == (|xs| - 1) as real && total == RowSum(xs)
    ensures 0.0 <= total
    ensures 0.0 <= IndexMoment(xs) <= k * total
  {
    if |xs| > 0 {
      var rest := xs[1..];
      IndexMomentBounds(rest, (|rest| - 1) as real, RowSum(rest));
      SuffixMomentStep(k, (|rest| - 1) as real, xs[0], RowSum(rest), IndexMoment(rest),
                       total, IndexMoment(xs));
    }
  }

  /** Termwise 0 <= xs[i] <= k * ys[i] carries over to the sums sx and sy. */
  lemma {:induction false} SumBoundedBy(xs: seq<real>, ys: seq<real>, k: real, sx: real, sy: real)
    requires |xs| == |ys|
    requires forall i :: 0 <= i < |xs| ==> 0.0 <= ys[i] && 0.0 <= xs[i] <= k * ys[i]
    requires sx == RowSum(xs) && sy == RowSum(ys)
    ensures 0.0 <= sy && 0.0 <= sx <= k * sy
  {
    if |xs| > 0 {
      SumBoundedBy(xs[1..], ys[1..], k, RowSum(xs[1..]), RowSum(ys[1..]));
      BoundedSumStep(k, ys[0], RowSum(ys[1..]), xs[0], RowSum(xs[1..]), sy, sx);
    }
  }

  lemma RowMomentBounds(g: seq<seq<real>>)
    requires NonNegative(g)
    ensures 0.0 <= Total(g)
    ensures 0.0 <= RowMoment(g) <= (|g| - 1) as real * Total(g)
  {
    forall i | 0 <= i < |g| ensures 0.0 <= RowSums(g)[i] {
      RowSumNonNegative(g[i]);
    }
    IndexMomentBounds(RowSums(g), (|g| - 1) as real, Total(g));
  }

  /** Each row's moment is at most k = cols - 1 times its sum. */
  lemma RowMomentsBounded(g: seq<seq<real>>, cols: nat, k: real)
    requires NonNegative(g) && IsRect(g, cols) && k == (cols - 1) as real
    ensures forall i :: 0 <= i < |g| ==>
      0.0 <= RowSums(g)[i] && 0.0 <= RowMoments(g)[i] <= k * RowSums(g)[i]
  {
    forall i | 0 <= i < |g|
      ensures 0.0 <= RowSums(g)[i] && 0.0 <= RowMoments(g)[i] <= k * RowSums(g)[i]
    {
      IndexMomentBounds(g[i], k, RowSums(g)[i]);
    }
  }

  lemma ColMomentBounds(g: seq<seq<real>>, cols: nat)
    requires NonNegative(g) && IsRect(g, cols)
    ensures 0.0 <= Total(g)
    ensures 0.0 <= ColMoment(g) <= (cols - 1) as real * Total(g)
  {
    RowMomentsBounded(g, cols, (cols - 1) as real);
    SumBoundedBy(RowMoments(g), RowSums(g), (cols - 1) as real, ColMoment(g), Total(g));
  }

  /** For non-negative samples with a positive sum, the centre of mass lies
      inside the grid: each coordinate between 0 and the last index. */
  lemma CenterOfMassInBounds(g: seq<seq<real>>)
    requires WellShaped(g) && NonNegative(g) && Total(g) > 0.0
    ensures 0.0 <= CenterOfMass(g).0 <= (|g| - 1) as real
    ensures 0.0 <= CenterOfMass(g).1 <= (|g[0]| - 1) as real
  {
    RowMomentBounds(g);
    ColMomentBounds(g, |g[0]|);
    RowCoordinateWithin(g, (|g| - 1) as real);
    ColCoordinateWithin(g, (|g[0]| - 1) as real);
  }

  /** A row moment at most hi times a positive total puts the centre of mass
      in [0, hi] along axis 0. */
  lemma RowCoordinateWithin(g: seq<seq<real>>, hi: real)
    requires Total(g) > 0.0
    requires 0.0 <= RowMoment(g) <= hi * Total(g)
    ensures 0.0 <= CenterOfMass(g).0 <= hi
  {
    QuotientWithin(RowMoment(g), Total(g), hi);
  }

  /** A column moment at most hi times a positive total puts the centre of
      mass in [0, hi] along axis 1. */
  lemma ColCoordinateWithin(g: seq<seq<real>>, hi: real)
    requires Total(g) > 0.0
    requires 0.0 <= ColMoment(g) <= hi * Total(g)
    ensures 0.0 <= CenterOfMass(g).1 <= hi
  {
    QuotientWithin(ColMoment(g), Total(g), hi);
  }

  lemma {:induction false} ZeroRowSums(xs: seq<real>)
    requires forall j :: 0 <= j < |xs| ==> xs[j] == 0.0
    ensures RowSum(xs) == 0.0 && IndexMoment(xs) == 0.0
  {
    if |xs| > 0 {
      ZeroRowSums(xs[1..]);
    }
  }

  /** Every sample of xs except xs[j0] is zero, and xs[j0] is v. */
  predicate SingleInRow(xs: seq<real>, j0: nat, v: real) {
    j0 < |xs| && xs[j0] == v && forall j :: 0 <= j < |xs| && j != j0 ==> xs[j] == 0.0
  }

  lemma {:induction false} SingleSampleRowSums(xs: seq<real>, j0: nat, v: real)
    requires SingleInRow(xs, j0, v)
    ensures RowSum(xs) == v
    ensures IndexMoment(xs) == j0 as real * v
  {
    var rest := xs[1..];
    if j0 == 0 {
      ZeroRowSums(rest);
    } else {
      assert SingleInRow(rest, j0 - 1, v);
      SingleSampleRowSums(rest, j0 - 1, v);
      OneMoreStep(j0 as real, (j0 - 1) as real, v, IndexMoment(rest), IndexMoment(xs));
    }
  }

  /** Every sample of g except g[i0][j0] is zero, and g[i0][j0] is v. */
  predicate SingleSample(g: seq<seq<real>>, i0: nat, j0: nat, v: real) {
    i0 < |g| && j0 < |g[i0]| && g[i0][j0] == v &&
    forall i, j :: 0 <= i < |g| && 0 <= j < |g[i]| && (i != i0 || j != j0) ==> g[i][j] == 0.0
  }

  /** The profiles of a single-sample grid: row i0 alone sums to v and has
      moment j0 * v. */
  lemma SingleSampleProfiles(g: seq<seq<real>>, i0: nat, j0: nat, v: real, m: real)
    requires SingleSample(g, i0, j0, v) && m == j0 as real * v
    ensures SingleInRow(RowSums(g), i0, v)
    ensures SingleInRow(RowMoments(g), i0, m)
  {
    forall i | 0 <= i < |g| && i != i0 ensures RowSums(g)[i] == 0.0 && RowMoments(g)[i] == 0.0 {
      ZeroRowSums(g[i]);
    }
    assert SingleInRow(g[i0], j0, v);
    SingleSampleRowSums(g[i0], j0, v);
  }

  /** The sums of a single-sample grid: the total is the sample, and the
      moments are the sample times its row and its column. */
  lemma SingleSampleSums(g: seq<seq<real>>, i0: nat, j0: nat, v: real)
    requires SingleSample(g, i0, j0, v)
    ensures Total(g) == v
    ensures RowMoment(g) == i0 as real * v && ColMoment(g) == j0 as real * v
  {
    SingleSampleProfiles(g, i0, j0, v, j0 as real * v);
    SingleSampleRowSums(RowSums(g), i0, v);
    SingleSampleRowSums(RowMoments(g), i0, j0 as real * v);
  }

  /** Moments that are (i, j) times a non-zero total put the centre of mass
      at (i, j). */
  lemma CenterOfMassFromMoments(g: seq<seq<real>>, i0: nat, j0: nat, v: real)
    requires v != 0.0 && Total(g) == v
    requires RowMoment(g) == i0 as real * v && ColMoment(g) == j0 as real * v
    ensures CenterOfMass(g) == (i0 as real, j0 as real)
  {
    SampleQuotients(i0 as real, j0 as real, v, Total(g), RowMoment(g), ColMoment(g));
  }

  /** A grid with a single non-zero sample has its centre of mass on that
      sample. */
  lemma CenterOfMassOfSingleSample(g: seq<seq<real>>, i0: nat, j0: nat, v: real)
    requires SingleSample(g, i0, j0, v) && v != 0.0
    ensures Total(g) != 0.0
    ensures CenterOfMass(g) == (i0 as real, j0 as real)
  {
    SingleSampleSums(g, i0, j0, v);
    CenterOfMassFromMoments(g, i0, j0, v);
  }

  // ---------------------------------------------------------------------------
  // centroid

  /** `int(np.ceil(extent / 2))`: the reference index of an axis. */
  function CenterIndex(extent: nat): (c: nat)
    ensures extent <= 2 * c <= extent + 1
  {
    (extent + 1) / 2
  }

  /** `centroid(data, dx, unit)`. Any unit other than exactly "spatial"
      gives the centre of mass itself; "spatial" shifts each coordinate by
      the axis' reference index and scales it by `dx`, which must be given. */
  function Centroid(g: seq<seq<real>>, dx: Option<real> := None, unit: string := "spatial"): (res: Result<(real, real)>)
    requires WellShaped(g) && Total(g) != 0.0
    ensures unit != "spatial" ==> res == Ok(CenterOfMass(g))
    ensures unit == "spatial" && dx.None? ==> res == Err(TypeError)
    ensures unit == "spatial" && dx.Some? ==>
              res == Ok(Spatial(dx.value, CenterOfMass(g), (CenterIndex(|g|) as real, CenterIndex(|g[0]|) as real)))
  {
    var com := CenterOfMass(g);
    var center := (CenterIndex(|g|) as real, CenterIndex(|g[0]|) as real);
    if unit != "spatial" then Ok(com)
    else if dx.None? then Err(TypeError)
    else Ok(Spatial(dx.value, com, center))
  }

  /** Each coordinate shifted from the reference index and scaled by dx. */
  function Spatial(dx: real, com: (real, real), center: (real, real)): (real, real) {
    (dx * (com.0 - center.0), dx * (com.1 - center.1))
  }

  /** With a non-zero spacing, the shifted coordinates are the origin exactly
      when the point is the reference point. */
  lemma SpatialZeroIff(dx: real, com: (real, real), center: (real, real))
    requires dx != 0.0
    ensures Spatial(dx, com, center) == (0.0, 0.0) <==> com == center
  {
    var p := Spatial(dx, com, center);
    ScaledPairZeroIff(dx, com.0 - center.0, com.1 - center.1);
    assert p == (0.0, 0.0) <==> p.0 == 0.0 && p.1 == 0.0;
    assert com == center <==> com.0 == center.0 && com.1 == center.1;
  }

  /** With a non-zero spacing, the spatial centroid is the origin exactly
      when the centre of mass sits on the reference index of both axes. */
  lemma SpatialCentroidZeroIff(g: seq<seq<real>>, dx: real)
    requires WellShaped(g) && Total(g) != 0.0
    requires dx != 0.0
    ensures Centroid(g, Some(dx), "spatial") == Ok((0.0, 0.0)) <==>
            CenterOfMass(g) == (CenterIndex(|g|) as real, CenterIndex(|g[0]|) as real)
  {
    SpatialZeroIff(dx, CenterOfMass(g), (CenterIndex(|g|) as real, CenterIndex(|g[0]|) as real));
  }

  /** A single non-zero sample at the reference indices has spatial
      centroid (0, 0) for every spacing. */
  lemma CentroidOfCenteredSample(g: seq<seq<real>>, v: real, dx: real)
    requires WellShaped(g)
    requires SingleSample(g, CenterIndex(|g|), CenterIndex(|g[0]|), v) && v != 0.0
    ensures Total(g) != 0.0
    ensures Centroid(g, Some(dx), "spatial") == Ok((0.0, 0.0))
  {
    CenterOfMassOfSingleSample(g, CenterIndex(|g|), CenterIndex(|g[0]|), v);
    SpatialCentroidZeroIff(g, if dx == 0.0 then 1.0 else dx);
    assert Centroid(g, Some(dx), "spatial") == Ok((dx * 0.0, dx * 0.0));
  }

  /** On an axis of odd length the reference index is one past the middle
      sample: a single sample at the middle row (extent - 1) / 2 sits one
      spacing below the origin, at -dx. */
  lemma OddExtentMiddleIsOffset(g: seq<seq<real>>, j0: nat, v: real, dx: real)
    requires WellShaped(g) && |g| % 2 == 1
    requires SingleSample(g, (|g| - 1) / 2, j0, v) && v != 0.0
    ensures Total(g) != 0.0
    ensures Centroid(g, Some(dx), "spatial").value.0 == -dx
  {
    var mid := (|g| - 1) / 2;
    assert CenterIndex(|g|) == mid + 1;
    SampleOneRowShort(g, mid, j0, v, dx);
  }

  /** A single sample on the row just before the reference row has spatial
      y-coordinate -dx. */
  lemma SampleOneRowShort(g: seq<seq<real>>, i0: nat, j0: nat, v: real, dx: real)
    requires WellShaped(g) && CenterIndex(|g|) == i0 + 1
    requires SingleSample(g, i0, j0, v) && v != 0.0
    ensures Total(g) != 0.0
    ensures Centroid(g, Some(dx), "spatial").value.0 == -dx
  {
    CenterOfMassOfSingleSample(g, i0, j0, v);
    var center := (CenterIndex(|g|) as real, CenterIndex(|g[0]|) as real);
    assert Centroid(g, Some(dx), "spatial").value == Spatial(dx, CenterOfMass(g), center);
    SpatialOneShort(dx, CenterOfMass(g), center);
  }

  /** A point one short of the reference on axis 0 has spatial y-coordinate
      -dx. */
  lemma SpatialOneShort(dx: real, com: (real, real), center: (real, real))
    requires center.0 == com.0 + 1.0
    ensures Spatial(dx, com, center).0 == -dx
  {
    OneStepShort(dx, com.0, center.0);
  }

  // ---------------------------------------------------------------------------
  // autocrop

  /** Python's `int()` of a float: rounds toward zero. */
  function Trunc(x: real): (t: int)
    ensures 0.0 <= x ==> t as real <= x < t as real + 1.0
    ensures x < 0.0 ==> t as real - 1.0 < x <= t as real
  {
    if 0.0 <= x then x.Floor else -((-x).Floor)
  }

  /** `s[lo:hi]` for non-negative bounds: the stop is clipped to the length,
      and a start at or past the stop gives the empty sequence. */
  function Slice<T>(s: seq<T>, lo: int, hi: int): (t: seq<T>)
    requires 0 <= lo && 0 <= hi
    ensures |t| == if lo < hi && lo < |s| then (if hi < |s| then hi else |s|) - lo else 0
    ensures lo + |t| <= |s| || |t| == 0
    ensures forall k :: 0 <= k < |t| ==> lo + k < |s| && t[k] == s[lo + k]
  {
    var stop := if hi < |s| then hi else |s|;
    if lo < stop then s[lo..stop] else []
  }

  /** `g[top:bottom, left:right]` for non-negative bounds: each sample of the
      result is the sample of `g` at the same offset from (top, left). */
  function Crop(g: seq<seq<real>>, top: int, bottom: int, left: int, right: int): (out: seq<seq<real>>)
    requires 0 <= top && 0 <= bottom && 0 <= left && 0 <= right
    ensures |out| == |Slice(g, top, bottom)|
    ensures forall i :: 0 <= i < |out| ==> top + i < |g| && out[i] == Slice(g[top + i], left, right)
    ensures forall i, j :: 0 <= i < |out| && 0 <= j < |out[i]| ==>
              top + i < |g| && left + j < |g[top + i]| && out[i][j] == g[top + i][left + j]
  {
    var rows := Slice(g, top, bottom);
    seq(|rows|, i requires 0 <= i < |rows| => Slice(rows[i], left, right))
  }

  /** The truncated pixel centroid `(cy, cx)` that `autocrop` crops around. */
  function PixelCentroid(g: seq<seq<real>>): (pc: (int, int))
    requires WellShaped(g) && Total(g) != 0.0
    ensures pc == (Trunc(CenterOfMass(g).0), Trunc(CenterOfMass(g).1))
  {
    var com := Centroid(g, unit := "pixels").value;
    (Trunc(com.0), Trunc(com.1))
  }

  /** The crop bounds are non-negative, so Python's negative-index
      wrap-around does not arise. */
  predicate CropInRange(g: seq<seq<real>>, px: int)
    requires WellShaped(g) && Total(g) != 0.0
  {
    var cy, cx := PixelCentroid(g).0, PixelCentroid(g).1;
    0 <= cy - px / 2 && 0 <= cy && 0 <= cx - px / 2 && 0 <= cx
  }

  /** Every sample of `out` is the sample of `g` at the same offset from
      (top, left). */
  predicate IsBlockOf(out: seq<seq<real>>, g: seq<seq<real>>, top: int, left: int) {
    forall i, j :: 0 <= i < |out| && 0 <= j < |out[i]| ==>
      0 <= top + i < |g| && 0 <= left + j < |g[top + i]| &&
      out[i][j] == g[top + i][left + j]
  }

  /** `out` is a block of `g` whose corner is w samples before (cy, cx) on
      both axes. */
  predicate EndsAt(out: seq<seq<real>>, g: seq<seq<real>>, cy: int, cx: int, w: int) {
    IsBlockOf(out, g, cy - w, cx - w)
  }

  /** `out` has at most w rows of at most w samples each, and none when w is
      negative. */
  predicate WithinSquare(out: seq<seq<real>>, w: int) {
    |out| <= (if w < 0 then 0 else w) &&
    forall i :: 0 <= i < |out| ==> |out[i]| <= (if w < 0 then 0 else w)
  }

  /** `out` has the shape of `g[cy - w:cy, cx - w:cx]` under Python's slice
      clipping: as many rows as the row slice keeps, and in each of them as
      many samples as the column slice keeps of that data row. */
  predicate ClippedShape(out: seq<seq<real>>, g: seq<seq<real>>, cy: int, cx: int, w: int)
    requires 0 <= cy - w && 0 <= cy && 0 <= cx - w && 0 <= cx
  {
    |out| == |Slice(g, cy - w, cy)| &&
    forall i :: 0 <= i < |out| ==> cy - w + i < |g| && |out[i]| == |Slice(g[cy - w + i], cx - w, cx)|
  }

  /** `data[cy - w:cy, cx - w:cx]` for non-negative bounds: the w by w block
      ending just before (cy, cx), clipped at the far edges. */
  function Window(g: seq<seq<real>>, cy: int, cx: int, w: int): (out: seq<seq<real>>)
    requires 0 <= cy - w && 0 <= cy && 0 <= cx - w && 0 <= cx
    ensures EndsAt(out, g, cy, cx, w)
    ensures WithinSquare(out, w)
    ensures ClippedShape(out, g, cy, cx, w)
  {
    Crop(g, cy - w, cy, cx - w, cx)
  }

  /** A window that lies inside the grid is exactly w by w, and its last
      sample is the one just before (cy, cx) on both axes. */
  lemma WindowInside(g: seq<seq<real>>, cols: nat, cy: int, cx: int, w: int)
    requires IsRect(g, cols) && 0 <= w <= cy <= |g| && w <= cx <= cols
    ensures IsSquare(Window(g, cy, cx, w), w)
    ensures w > 0 ==> Window(g, cy, cx, w)[w - 1][w - 1] == g[cy - 1][cx - 1]
  {
    var out := Window(g, cy, cx, w);
    assert |Slice(g, cy - w, cy)| == w;
    forall i | 0 <= i < w ensures |out[i]| == w {
      assert out[i] == Slice(g[cy - w + i], cx - w, cx);
    }
  }

  /** `out` has w rows of w samples each. */
  predicate IsSquare(out: seq<seq<real>>, w: int) {
    |out| == w && forall i :: 0 <= i < |out| ==> |out[i]| == w
  }

  /** `autocrop(data, px)`: with w = px // 2, rows [cy - w, cy) and columns
      [cx - w, cx) of the data, clipped at the far edges. The window is w wide,
      not px, and it ends at the centroid rather than being centred on it. */
  function Autocrop(g: seq<seq<real>>, px: int): (out: seq<seq<real>>)
    requires WellShaped(g) && Total(g) != 0.0
    requires CropInRange(g, px)
    ensures EndsAt(out, g, PixelCentroid(g).0, PixelCentroid(g).1, px / 2)
    ensures WithinSquare(out, px / 2)
    ensures ClippedShape(out, g, PixelCentroid(g).0, PixelCentroid(g).1, px / 2)
  {
    Window(g, PixelCentroid(g).0, PixelCentroid(g).1, px / 2)
  }

  /** For non-negative data whose centroid lies at least w = px // 2 samples
      from the top and left edges, the crop is exactly w by w, a contiguous
      block of the data whose last row and column are cy - 1 and cx - 1. */
  lemma AutocropWindow(g: seq<seq<real>>, px: int)
    requires WellShaped(g) && NonNegative(g) && Total(g) > 0.0
    requires 0 <= px / 2 <= PixelCentroid(g).0 && px / 2 <= PixelCentroid(g).1
    ensures CropInRange(g, px)
    ensures IsSquare(Autocrop(g, px), px / 2)
    ensures px / 2 > 0 ==>
              Autocrop(g, px)[px / 2 - 1][px / 2 - 1] == g[PixelCentroid(g).0 - 1][PixelCentroid(g).1 - 1]
  {
    PixelCentroidInBounds(g);
    var pc := PixelCentroid(g);
    WindowInside(g, |g[0]|, pc.0, pc.1, px / 2);
  }

  /** For non-negative data with a positive sum, the truncated centroid is a
      valid index on both axes. */
  lemma PixelCentroidInBounds(g: seq<seq<real>>)
    requires WellShaped(g) && NonNegative(g) && Total(g) > 0.0
    ensures 0 <= PixelCentroid(g).0 < |g| && 0 <= PixelCentroid(g).1 < |g[0]|
  {
    CenterOfMassInBounds(g);
  }
}
