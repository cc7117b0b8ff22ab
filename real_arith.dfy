/** Small facts about real division and products that the solver does not
    find on its own. */
module RealArith {

  lemma DivLowerBound(s: real, n: real, a: real)
    requires n > 0.0 && a * n <= s
    ensures a <= s / n
  {
    var q := s / n;
    assert q * n == s;
    if q < a {
      assert (a - q) * n > 0.0;
    }
  }

  lemma DivUpperBound(s: real, n: real, a: real)
    requires n > 0.0 && s <= a * n
    ensures s / n <= a
  {
    var q := s / n;
    assert q * n == s;
    if q > a {
      assert (q - a) * n > 0.0;
    }
  }

  /** A non-negative moment at most hi times a positive total has its
      quotient in [0, hi]. */
  lemma QuotientWithin(m: real, t: real, hi: real)
    requires t > 0.0 && 0.0 <= m <= hi * t
    ensures 0.0 <= m / t <= hi
  {
    DivUpperBound(m, t, hi);
  }

  lemma ScaleWithin(f: real, x: real)
    requires 0.0 <= f <= 1.0
    ensures 0.0 <= x ==> 0.0 <= f * x <= x
  {
    if 0.0 <= x {
      assert (1.0 - f) * x >= 0.0;
    }
  }

  /** One step of re-weighting a moment: a sample x at weight s followed by a
      tail weighted from s + 1 is s times the whole sum plus the tail's sum and
      its moment. */
  lemma ShiftStep(s: real, next: real, x: real, sum: real, moment: real,
                  weighted: real, total: real, whole: real)
    requires next == s + 1.0
    requires weighted == s * x + (next * sum + moment)
    requires total == x + sum && whole == sum + moment
    ensures weighted == s * total + whole
  {
    assert next * sum == s * sum + sum;
    assert s * total == s * x + s * sum;
  }

  /** One step of a moment bound: a non-negative sample x in front of a
      non-negative tail whose moment is at most (k - 1) times its sum keeps
      the moment (the tail's sum plus its moment) at most k times the whole
      sum. */
  lemma SuffixMomentStep(k: real, km1: real, x: real, sum: real, moment: real, total: real, whole: real)
    requires km1 == k - 1.0 && 0.0 <= k
    requires 0.0 <= x && 0.0 <= sum
    requires 0.0 <= moment <= km1 * sum
    requires total == x + sum && whole == sum + moment
    ensures 0.0 <= total
    ensures 0.0 <= whole <= k * total
  {
    assert km1 * sum + sum == k * sum;
    assert k * total == k * x + k * sum;
    assert k * x >= 0.0;
  }

  /** A single sample v one place further out: the tail's moment (j - 1) * v
      plus v is j * v. */
  lemma OneMoreStep(j: real, jm1: real, v: real, moment: real, whole: real)
    requires jm1 == j - 1.0 && moment == jm1 * v && whole == v + moment
    ensures whole == j * v
  {
    assert jm1 * v + v == j * v;
  }

  /** Adding two non-negative parts whose weighted sums are each at most k
      times the part keeps the whole weighted sum at most k times the whole. */
  lemma BoundedSumStep(k: real, x: real, sum: real, mx: real, msum: real, total: real, whole: real)
    requires 0.0 <= x && 0.0 <= sum
    requires 0.0 <= mx <= k * x && 0.0 <= msum <= k * sum
    requires total == x + sum && whole == mx + msum
    ensures 0.0 <= whole <= k * total
  {
    assert k * total == k * x + k * sum;
  }

  /** A coordinate one short of its reference sits at -d once scaled by d. */
  lemma OneStepShort(d: real, x: real, c: real)
    requires c == x + 1.0
    ensures d * (x - c) == -d
  {
  }

  lemma QuotientOfProduct(a: real, v: real)
    requires v != 0.0
    ensures (a * v) / v == a
  {
  }

  lemma ZeroProduct(a: real, b: real)
    requires a != 0.0 && a * b == 0.0
    ensures b == 0.0
  {
  }

  /** The mean of the complements n - x of integers is n minus their mean. */
  lemma MeanOfComplement(sx: int, sy: int, n: int, len: int)
    requires len > 0 && sy == n * len - sx
    ensures sy as real / len as real == n as real - sx as real / len as real
  {
    var l := len as real;
    var q := sx as real / l;
    assert q * l == sx as real;
    assert (n * len) as real == n as real * l;
    assert (n as real - q) * l == sy as real;
  }

  /** Dividing the moments of a single sample v at (i, j) by its total v
      gives back (i, j). */
  lemma SampleQuotients(i: real, j: real, v: real, total: real, rowMoment: real, colMoment: real)
    requires v != 0.0 && total == v && rowMoment == i * v && colMoment == j * v
    ensures (rowMoment / total, colMoment / total) == (i, j)
  {
    QuotientOfProduct(i, v);
    QuotientOfProduct(j, v);
  }

  /** A non-zero scale maps exactly the zero offsets to zero. */
  lemma ScaledPairZeroIff(d: real, a: real, b: real)
    requires d != 0.0
    ensures (d * a == 0.0 && d * b == 0.0) <==> (a == 0.0 && b == 0.0)
  {
    if d * a == 0.0 && d * b == 0.0 {
      ZeroProduct(d, a);
      ZeroProduct(d, b);
    }
  }
}
