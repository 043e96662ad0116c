/** What `get_percentile` means: the order statistic it approximates, how closely, and when it is monotone.
    Line 70 of utils/percentile.c caps the upper edge by the number of samples; every law below is exact
    about when that cap does no harm. */
module PercentileLaws {
  import opened Histogram

  // ----- the bucket is that of the ceil(y * N)-th smallest sample

  function Ceil(x: real): int {
    -((-x).Floor)
  }

  /** Which sample, counted from 1 in increasing order, is the y-quantile. */
  function Rank(y: real, count: nat): int {
    Ceil(y * count as real)
  }

  lemma RankRange(y: real, count: nat)
    requires 0.0 < y < 1.0 && count > 0
    ensures 1 <= Rank(y, count) <= count
  {
    ProperShare(y, count as real);
  }

  lemma ProperShare(y: real, n: real)
    requires 0.0 < y < 1.0 && n > 0.0
    ensures 0.0 < y * n < n
  {
  }

  lemma FractionVersusRank(c: nat, count: nat, y: real)
    requires count > 0
    ensures c as real / count as real >= y <==> c >= Rank(y, count)
  {
    QuotientAtLeast(c as real, count as real, y);
  }

  lemma QuotientAtLeast(c: real, count: real, y: real)
    requires count > 0.0
    ensures c / count >= y <==> c >= y * count
  {
    var d := c / count - y;
    assert d * count == c - y * count;
  }

  /** The ceil(y * N)-th smallest sample, where T lists the samples in increasing order. */
  function Quantile(T: seq<real>, y: real): real
    requires T != [] && 0.0 < y < 1.0
  {
    RankRange(y, |T|);
    T[Rank(y, |T|) - 1]
  }

  lemma StopByRank(S: seq<real>, n: nat, y: real)
    requires n >= 1 && S != [] && 0.0 < y < 1.0
    ensures var i := StopFrom(S, n, y, 0);
            CountUpTo(S, n, i - 1) < Rank(y, |S|) <= CountUpTo(S, n, i)
  {
    var i := StopFrom(S, n, y, 0);
    FractionVersusRank(CountUpTo(S, n, i), |S|, y);
    if i > 0 {
      assert Fraction(S, n, i - 1) < y;
      FractionVersusRank(CountUpTo(S, n, i - 1), |S|, y);
    } else {
      CountStep(S, n, 0);
      RankRange(y, |S|);
    }
  }

  lemma StopIsQuantileBucket(S: seq<real>, T: seq<real>, n: nat, y: real)
    requires n >= 1 && S != [] && T != [] && 0.0 < y < 1.0
    requires Sorted(T) && multiset(S) == multiset(T)
    ensures StopFrom(S, n, y, 0) == Bucket(n, Quantile(T, y))
  {
    assert |T| == |multiset(T)| == |multiset(S)| == |S|;
    RankRange(y, |S|);
    StopByRank(S, n, y);
    BucketOfRank(S, T, n, StopFrom(S, n, y, 0), Rank(y, |S|));
  }

  lemma BucketOfRank(S: seq<real>, T: seq<real>, n: nat, i: nat, k: nat)
    requires n >= 1 && Sorted(T) && multiset(S) == multiset(T) && 1 <= k <= |T|
    requires CountUpTo(S, n, i - 1) < k <= CountUpTo(S, n, i)
    ensures Bucket(n, T[k - 1]) == i
  {
    CountOfMultiset(S, T, n, i);
    CountOfMultiset(S, T, n, i - 1);
    SortedPrefix(T, n, i, k - 1);
    SortedPrefix(T, n, i - 1, k - 1);
  }

  // ----- the value

  lemma InterpolateRange(x0: real, x1: real, y: real, y0: real, y1: real)
    requires y0 < y <= y1
    ensures var p := Interpolate(x0, x1, y, y0, y1);
            if x0 < x1 then x0 < p <= x1 else if x0 == x1 then p == x0 else x1 <= p < x0
  {
    var f := (y - y0) / (y1 - y0);
    assert f * (y1 - y0) == y - y0;
    assert 0.0 < f <= 1.0;
    var d := x1 - x0;
    if d > 0.0 {
      assert 0.0 < d * f && d * (1.0 - f) >= 0.0;
    } else if d < 0.0 {
      assert 0.0 > d * f && d * (1.0 - f) <= 0.0;
    }
  }

  /** The value in closed form. Let a of the N samples be below bucket i and b up to its end. The level that divides
      the counts a .. b by the fraction f gives the value that divides the bucket by f; the bucket goes from 0 or r2^i
      to r2^(i+1) or N. */
  lemma PercentileValue(S: seq<real>, n: nat, i: nat, f: real, e: real, y: real, lo: real, hi: real)
    requires n >= 1 && S != [] && i < n && 0.0 < y < 1.0 && 0.0 < f <= 1.0
    requires CountUpTo(S, n, i - 1) < CountUpTo(S, n, i)
    requires e == f * (CountUpTo(S, n, i) - CountUpTo(S, n, i - 1)) as real
    requires y == (CountUpTo(S, n, i - 1) as real + e) / |S| as real
    requires lo == (if i == 0 then 0.0 else Power(i))
    requires hi == if Power(i + 1) > |S| as real then |S| as real else Power(i + 1)
    ensures Percentile(S, n, y) == Some(lo + (hi - lo) * f)
  {
    LevelOf(S, n, i, f, e, y);
    ValueBetween(S, n, i, y, lo, hi, f);
  }

  lemma BeforeIs(S: seq<real>, n: nat, i: nat)
    requires n >= 1 && S != []
    ensures Before(S, n, i) == CountUpTo(S, n, i - 1) as real / |S| as real
    ensures Fraction(S, n, i) == CountUpTo(S, n, i) as real / |S| as real
  {
    if i == 0 {
      CountStep(S, n, 0);
    }
  }

  lemma ValueBetween(S: seq<real>, n: nat, i: nat, y: real, lo: real, hi: real, f: real)
    requires n >= 1 && S != [] && i < n && 0.0 < y < 1.0
    requires Before(S, n, i) < y <= Fraction(S, n, i)
    requires (y - Before(S, n, i)) / (Fraction(S, n, i) - Before(S, n, i)) == f
    requires lo == (if i == 0 then 0.0 else Power(i))
    requires hi == if Power(i + 1) > |S| as real then |S| as real else Power(i + 1)
    ensures Percentile(S, n, y) == Some(lo + (hi - lo) * f)
  {
    ValueAt(S, n, i, y);
    InterpolateAs(lo, hi, y, Before(S, n, i), Fraction(S, n, i), f);
  }

  lemma ValueAt(S: seq<real>, n: nat, i: nat, y: real)
    requires n >= 1 && S != [] && i < n && 0.0 < y < 1.0
    requires Before(S, n, i) < y <= Fraction(S, n, i)
    ensures Percentile(S, n, y)
         == Some(Interpolate(Low(i), High(i, |S|), y, Before(S, n, i), Fraction(S, n, i)))
  {
    OccupiedIsStop(S, n, i, y);
  }

  lemma InterpolateAs(x0: real, x1: real, y: real, y0: real, y1: real, f: real)
    requires y0 < y1 && (y - y0) / (y1 - y0) == f
    ensures Interpolate(x0, x1, y, y0, y1) == x0 + (x1 - x0) * f
  {
  }

  lemma LevelOf(S: seq<real>, n: nat, i: nat, f: real, e: real, y: real)
    requires n >= 1 && S != [] && 0.0 < f <= 1.0 && CountUpTo(S, n, i - 1) < CountUpTo(S, n, i)
    requires e == f * (CountUpTo(S, n, i) - CountUpTo(S, n, i - 1)) as real
    requires y == (CountUpTo(S, n, i - 1) as real + e) / |S| as real
    ensures Before(S, n, i) < y <= Fraction(S, n, i)
    ensures (y - Before(S, n, i)) / (Fraction(S, n, i) - Before(S, n, i)) == f
  {
    var a, b := CountUpTo(S, n, i - 1), CountUpTo(S, n, i);
    BeforeIs(S, n, i);
    LevelBetween(a as real, b as real, (b - a) as real, f, e, |S| as real, Before(S, n, i), Fraction(S, n, i), y);
  }

  lemma LevelBetween(a: real, b: real, d: real, f: real, e: real, N: real, y0: real, y1: real, y: real)
    requires N > 0.0 && b == a + d && d > 0.0 && 0.0 < f <= 1.0 && e == f * d
    requires y0 == a / N && y1 == b / N && y == (a + e) / N
    ensures y0 < y <= y1 && (y - y0) / (y1 - y0) == f
  {
    PartOf(d, f);
    SharesDiffer(a, b, N);
    SharesDiffer(a, a + e, N);
    SharesDiffer(a + e, b, N);
    ScaleShare(f, d, N, e);
    assert y - y0 == e / N && y1 - y0 == d / N;
    QuotientIs(f, y - y0, y1 - y0);
  }

  lemma ScaleShare(f: real, d: real, N: real, e: real)
    requires N > 0.0 && e == f * d
    ensures e / N == f * (d / N)
  {
  }

  lemma QuotientIs(f: real, x: real, w: real)
    requires w > 0.0 && x == f * w
    ensures x / w == f
  {
  }

  lemma PartOf(d: real, f: real)
    requires d > 0.0 && 0.0 < f <= 1.0
    ensures 0.0 < f * d <= d
  {
    assert (1.0 - f) * d >= 0.0;
  }

  /** ... and every level y is of this form, with f = (y * N - a) / (b - a) for the bucket the quantile is in. */
  lemma LevelHasFraction(S: seq<real>, n: nat, y: real) returns (i: nat, f: real, e: real)
    requires n >= 1 && S != [] && 0.0 < y < 1.0
    ensures i < n && 0.0 < f <= 1.0 && CountUpTo(S, n, i - 1) < CountUpTo(S, n, i)
    ensures e == y * |S| as real - CountUpTo(S, n, i - 1) as real
    ensures e == f * (CountUpTo(S, n, i) - CountUpTo(S, n, i - 1)) as real
    ensures y == (CountUpTo(S, n, i - 1) as real + e) / |S| as real
  {
    var z := y * |S| as real;
    i := LevelHasBucket(S, n, y, z);
    var a, b := CountUpTo(S, n, i - 1), CountUpTo(S, n, i);
    e := z - a as real;
    RankShare(y, |S| as real, z);
    f := FractionOfPart(e, (b - a) as real);
  }

  lemma RankShare(y: real, N: real, z: real)
    requires N > 0.0 && z == y * N
    ensures y == z / N
  {
  }

  lemma FractionOfPart(x: real, d: real) returns (f: real)
    requires 0.0 < x <= d
    ensures 0.0 < f <= 1.0 && x == f * d
  {
    f := x / d;
    assert f * d == x;
    if f > 1.0 { MulAtLeastReal(f, d); }
  }

  /** The fractional rank z = y * N of every level is in one bucket. */
  lemma LevelHasBucket(S: seq<real>, n: nat, y: real, z: real) returns (i: nat)
    requires n >= 1 && S != [] && 0.0 < y < 1.0 && z == y * |S| as real
    ensures i < n && CountUpTo(S, n, i - 1) as real < z <= CountUpTo(S, n, i) as real
  {
    i := StopFrom(S, n, y, 0);
    FractionLevel(S, n, i, y, z);
    if i > 0 {
      FractionLevel(S, n, i - 1, y, z);
    } else {
      CountStep(S, n, 0);
      ProperShare(y, |S| as real);
    }
  }

  lemma FractionLevel(S: seq<real>, n: nat, i: nat, y: real, z: real)
    requires n >= 1 && S != [] && z == y * |S| as real
    ensures Fraction(S, n, i) >= y <==> CountUpTo(S, n, i) as real >= z
  {
    QuotientAtLeast(CountUpTo(S, n, i) as real, |S| as real, y);
  }

  /** The percentile lies between the edges of its bucket exactly when there are at least r2^i samples
      (always, for bucket 0). */
  lemma PercentileInBucket(S: seq<real>, n: nat, y: real)
    requires n >= 1 && S != [] && 0.0 < y < 1.0
    ensures var i, p := StopFrom(S, n, y, 0), Percentile(S, n, y).value;
            Low(i) <= p <= Power(i + 1) <==> Low(i) <= |S| as real
  {
    var i := StopFrom(S, n, y, 0);
    InterpolateRange(Low(i), High(i, |S|), y, Before(S, n, i), Fraction(S, n, i));
    PowerGrows(i, i + 1);
  }

  /** p is within a factor r2 of q, both ways. */
  predicate Near(p: real, q: real) {
    q / R2 <= p <= q * R2
  }

  /** For a quantile the last bucket has not absorbed, the percentile is within a factor r2 of it both ways if the
      quantile is at most r2 times the number of samples (strictly above q / r2 if the cap is not below its bucket). */
  lemma PercentileApproximates(S: seq<real>, T: seq<real>, n: nat, y: real)
    requires n >= 1 && S != [] && 0.0 < y < 1.0
    requires Sorted(T) && multiset(S) == multiset(T)
    requires T != [] && R2 <= Quantile(T, y) < Power(n)
    requires Quantile(T, y) <= R2 * |S| as real
    ensures Near(Percentile(S, n, y).value, Quantile(T, y))
    ensures Power(StopFrom(S, n, y, 0)) <= |S| as real ==> Quantile(T, y) / R2 < Percentile(S, n, y).value
  {
    var i, q := StopFrom(S, n, y, 0), Quantile(T, y);
    StopIsQuantileBucket(S, T, n, y);
    BucketEdges(q, n);
    InterpolateRange(Low(i), High(i, |S|), y, Before(S, n, i), Fraction(S, n, i));
    NearInBucket(Percentile(S, n, y).value, q, Power(i), |S| as real);
  }

  lemma BucketEdges(v: real, n: nat)
    requires n >= 1 && R2 <= v < Power(n)
    ensures var i := Bucket(n, v); i > 0 && Power(i) <= v < R2 * Power(i) == Power(i + 1)
  {
    LogIndexBracket(v, LogIndex(v));
    if LogIndex(v) > n { PowerGrows(n, LogIndex(v)); }
  }

  lemma NearInBucket(p: real, q: real, low: real, count: real)
    requires 1.0 <= low <= q < R2 * low && q <= R2 * count
    requires var high := if R2 * low > count then count else R2 * low;
      if low < high then low < p <= high else if low == high then p == low else high <= p < low
    ensures Near(p, q) && (low <= count ==> q / R2 < p)
  {
  }

  /** All exact quantiles that are at least r2 come out within a factor r2. */
  ghost predicate AccuratePercentile(S: seq<real>, T: seq<real>, n: nat)
    requires n >= 1 && S != [] && T != []
  {
    forall y | 0.0 < y < 1.0 :: Quantile(T, y) >= R2 ==> Near(Percentile(S, n, y).value, Quantile(T, y))
  }

  /** At the level (b - t) / N, just below the cumulative count b of a bucket, the quantile is the largest sample of
      the bucket, while the percentile has come as close to the bucket's upper edge as one likes. */
  lemma RankBelow(b: nat, t: real, count: nat)
    requires 0 < b <= count && 0.0 < t < 1.0
    ensures var y := (b as real - t) / count as real; 0.0 < y < 1.0 && Rank(y, count) == b
  {
    ShareRange(b as real - t, count as real);
    CeilOf(b as real - t, b);
  }

  lemma ShareRange(z: real, N: real)
    requires 0.0 < z < N
    ensures 0.0 < z / N < 1.0 && (z / N) * N == z
  {
    var q := z / N;
    assert q * N == z;
    if q >= 1.0 { MulAtLeastReal(q, N); }
  }

  lemma MulAtLeastReal(q: real, d: real)
    requires q >= 1.0 && d > 0.0
    ensures q * d >= d
  {
    assert (q - 1.0) * d >= 0.0;
  }

  lemma SharesDiffer(u: real, w: real, N: real)
    requires N > 0.0
    ensures w / N - u / N == (w - u) / N
    ensures u < w ==> u / N < w / N
  {
    assert u < w ==> (w - u) / N > 0.0;
  }

  lemma QuotientOfShares(u: real, w: real, N: real)
    requires N > 0.0 && w > 0.0
    ensures w / N > 0.0 && (u / N) / (w / N) == u / w
  {
    var q := u / w;
    assert u / N == q * (w / N) by { assert q * w == u; }
    CancelFactor(q, w / N);
  }

  lemma CancelFactor(u: real, w: real)
    requires w > 0.0
    ensures (u * w) / w == u
  {
  }

  /** The interpolation there. */
  lemma InterpolateBelowTop(low: real, high: real, d: real, a: real, b: real, t: real, N: real)
    requires N > 0.0 && a + 1.0 <= b && 0.0 < t < 1.0 && d == low - high > 0.0
    ensures a / N < (b - t) / N < b / N
    ensures Interpolate(low, high, (b - t) / N, a / N, b / N) <= high + d * t
  {
    LevelQuotient(a, b - t, b, N);
    InterpolateAtMost(low, high, d, (b - t) / N, a / N, b / N, b - a, t);
  }

  lemma InterpolateAtMost(low: real, high: real, d: real, y: real, y0: real, y1: real, k: real, t: real)
    requires d == low - high > 0.0 && y0 < y1 && t > 0.0 && k >= 1.0
    requires (y - y0) / (y1 - y0) == (k - t) / k
    ensures Interpolate(low, high, y, y0, y1) <= high + d * t
  {
    var f := (y - y0) / (y1 - y0);
    PullDown(d, t, k, f);
    PullUp(low, high, d, f, d * t);
  }

  lemma PullUp(low: real, high: real, d: real, f: real, c: real)
    requires d == low - high && d - d * f <= c
    ensures low + (high - low) * f <= high + c
  {
    assert (high - low) * f == -(d * f);
  }

  lemma LevelQuotient(a: real, z: real, b: real, N: real)
    requires N > 0.0 && a < z < b
    ensures a / N < z / N < b / N
    ensures (z / N - a / N) / (b / N - a / N) == (z - a) / (b - a)
  {
    SharesDiffer(a, z, N);
    SharesDiffer(z, b, N);
    SharesDiffer(a, b, N);
    QuotientOfShares(z - a, b - a, N);
  }

  lemma PullDown(d: real, t: real, k: real, f: real)
    requires d > 0.0 && t > 0.0 && k >= 1.0 && f == (k - t) / k
    ensures d - d * f <= d * t
  {
    var g := 1.0 - f;
    assert f * k == k - t;
    assert g * k == t;
    assert g > 0.0;
    assert g <= t by { assert g * (k - 1.0) >= 0.0; }
    assert d * (t - g) >= 0.0;
    assert d * (t - g) == d * t - d + d * f;
  }

  /** A fraction of d below x. */
  function HalfShare(x: real, d: real): real
    requires d != 0.0
  {
    x / d / 2.0
  }

  lemma SmallStep(x: real, d: real)
    requires 0.0 < x < d
    ensures 0.0 < HalfShare(x, d) < 1.0 && d * HalfShare(x, d) < x
  {
    ShareRange(x, d);
    assert d * HalfShare(x, d) == x / 2.0;
  }

  lemma TopLevel(low: real, bound: real, a: nat, b: nat, count: nat) returns (y: real)
    requires a < b <= count && count as real < bound < low
    ensures 0.0 < y < 1.0 && Rank(y, count) == b
    ensures a as real / count as real < y < b as real / count as real
    ensures Interpolate(low, count as real, y, a as real / count as real, b as real / count as real) < bound
  {
    var N := count as real;
    SmallStep(bound - N, low - N);
    var t := HalfShare(bound - N, low - N);
    y := (b as real - t) / N;
    RankBelow(b, t, count);
    InterpolateBelowTop(low, N, low - N, a as real, b as real, t, N);
  }

  lemma CeilOf(x: real, b: int)
    requires b as real - 1.0 < x <= b as real
    ensures Ceil(x) == b
  {
  }

  lemma InaccurateAbove(S: seq<real>, T: seq<real>, n: nat, v: real)
    requires n >= 1 && S != [] && T != [] && Sorted(T) && multiset(S) == multiset(T)
    requires forall s <- S :: s < Power(n)
    requires v in S && R2 <= v && v > R2 * |S| as real
    ensures !AccuratePercentile(S, T, n)
  {
    BucketEdges(v, n);
    LargestInBucket(S, T, n, v);
    var y := LevelNearTop(S, n, Bucket(n, v), v / R2);
    assert |T| == |multiset(T)| == |multiset(S)| == |S|;
    QuantileOfRank(T, y);
    NotNear(Percentile(S, n, y).value, Quantile(T, y), v);
  }

  lemma QuantileOfRank(T: seq<real>, y: real)
    requires T != [] && 0.0 < y < 1.0
    ensures 1 <= Rank(y, |T|) <= |T| && Quantile(T, y) == T[Rank(y, |T|) - 1]
  {
    RankRange(y, |T|);
  }

  lemma NotNear(p: real, q: real, v: real)
    requires p < v / R2 && v <= q
    ensures !Near(p, q)
  {
  }

  lemma LevelNearTop(S: seq<real>, n: nat, i: nat, bound: real) returns (y: real)
    requires n >= 1 && S != [] && 0 < i < n && CountUpTo(S, n, i - 1) < CountUpTo(S, n, i)
    requires |S| as real < bound < Power(i)
    ensures 0.0 < y < 1.0 && Rank(y, |S|) == CountUpTo(S, n, i)
    ensures Percentile(S, n, y).value < bound
  {
    y := TopLevel(Power(i), bound, CountUpTo(S, n, i - 1), CountUpTo(S, n, i), |S|);
    CappedValue(S, n, i, y);
  }

  lemma CappedValue(S: seq<real>, n: nat, i: nat, y: real)
    requires n >= 1 && S != [] && 0 < i < n && |S| as real < Power(i)
    requires 0.0 < y < 1.0 && Before(S, n, i) < y <= Fraction(S, n, i)
    ensures Percentile(S, n, y)
         == Some(Interpolate(Power(i), |S| as real, y, Before(S, n, i), Fraction(S, n, i)))
  {
    PowerGrows(i, i + 1);
    OccupiedIsStop(S, n, i, y);
  }

  /** In increasing order, the samples of v's bucket end at its cumulative count, at or above v. */
  lemma LargestInBucket(S: seq<real>, T: seq<real>, n: nat, v: real)
    requires n >= 1 && S != [] && Sorted(T) && multiset(S) == multiset(T) && v in S
    ensures var i: int := Bucket(n, v);
      CountUpTo(S, n, i - 1) < CountUpTo(S, n, i) <= |T| && T[CountUpTo(S, n, i) - 1] >= v
  {
    var i: int := Bucket(n, v);
    assert v in multiset(T);
    var p :| 0 <= p < |T| && T[p] == v;
    CountOfMultiset(S, T, n, i);
    CountOfMultiset(S, T, n, i - 1);
    SortedPrefix(T, n, i, p);
    SortedPrefix(T, n, i - 1, p);
  }

  /** Exactly when the percentiles can be trusted: for samples the histogram has room for, every level is within a
      factor r2 of the exact quantile if and only if no sample of r2 or more exceeds r2 times their number. */
  lemma AccurateIff(S: seq<real>, T: seq<real>, n: nat)
    requires n >= 1 && S != [] && T != [] && Sorted(T) && multiset(S) == multiset(T)
    requires forall s <- S :: s < Power(n)
    ensures AccuratePercentile(S, T, n) <==> forall s <- S :: s >= R2 ==> s <= R2 * |S| as real
  {
    if v :| v in S && v >= R2 && v > R2 * |S| as real {
      InaccurateAbove(S, T, n, v);
    } else {
      forall y | 0.0 < y < 1.0 && Quantile(T, y) >= R2 ensures Near(Percentile(S, n, y).value, Quantile(T, y)) {
        RankRange(y, |T|);
        assert Quantile(T, y) in multiset(T);
        assert Quantile(T, y) in S;
        PercentileApproximates(S, T, n, y);
      }
    }
  }

  /** A sample of 2 on its own: the 99th percentile comes out below the 50th and less than 2 / r2. */
  lemma FewSamplesBreakPercentile()
    ensures var p50, p99 := Percentile([2.0], 3, 0.50).value, Percentile([2.0], 3, 0.99).value;
            p99 < p50 && p99 < 2.0 / R2
  {
    var S := [2.0];
    assert Power(1) == R2 && Power(2) == R2 * R2 && Power(3) == R2 * R2 * R2;
    LogIndexBracket(2.0, 2);
    assert S[..0] == [];
    forall i: int ensures CountUpTo(S, 3, i) == if 2 <= i then 1 else 0 {}
    assert Fraction(S, 3, 1) == 0.0 && Fraction(S, 3, 2) == 1.0;
    assert StopFrom(S, 3, 0.50, 0) == 2 && StopFrom(S, 3, 0.99, 0) == 2;
  }

  // ----- monotonicity in y

  lemma InterpolateSlope(x0: real, x1: real, y: real, y': real, y0: real, y1: real)
    requires y0 < y < y' <= y1
    ensures var p, p' := Interpolate(x0, x1, y, y0, y1), Interpolate(x0, x1, y', y0, y1);
            p <= p' <==> x0 <= x1
  {
    var h, d := y1 - y0, x1 - x0;
    var g := (y' - y) / h;
    assert (y' - y0) / h == (y - y0) / h + g;
    assert g * h == y' - y && g > 0.0;
    assert d * ((y' - y0) / h) == d * ((y - y0) / h) + d * g;
    if d >= 0.0 { assert d * g >= 0.0; } else { assert d * g < 0.0; }
  }

  /** Two quantile levels in one bucket come out in order exactly when there are at least r2^i samples. */
  lemma OrderedInBucket(S: seq<real>, n: nat, y: real, y': real)
    requires n >= 1 && S != [] && 0.0 < y < y' < 1.0
    requires StopFrom(S, n, y, 0) == StopFrom(S, n, y', 0)
    ensures Percentile(S, n, y).value <= Percentile(S, n, y').value
       <==> Low(StopFrom(S, n, y, 0)) <= |S| as real
  {
    var i := StopFrom(S, n, y, 0);
    PowerGrows(i, i + 1);
    InterpolateSlope(Low(i), High(i, |S|), y, y', Before(S, n, i), Fraction(S, n, i));
  }

  lemma OrderedAcrossBuckets(S: seq<real>, n: nat, y: real, y': real)
    requires n >= 1 && S != [] && 0.0 < y < y' < 1.0
    requires StopFrom(S, n, y, 0) < StopFrom(S, n, y', 0)
    requires Low(StopFrom(S, n, y, 0)) <= |S| as real && Low(StopFrom(S, n, y', 0)) <= |S| as real
    ensures Percentile(S, n, y).value <= Percentile(S, n, y').value
  {
    var i, i' := StopFrom(S, n, y, 0), StopFrom(S, n, y', 0);
    PercentileInBucket(S, n, y);
    PercentileInBucket(S, n, y');
    if i + 1 < i' { PowerGrows(i + 1, i'); }
  }

  ghost predicate MonotonePercentile(S: seq<real>, n: nat)
    requires n >= 1 && S != []
  {
    forall y, y' | 0.0 < y < y' < 1.0 :: Percentile(S, n, y).value <= Percentile(S, n, y').value
  }

  /** Every occupied bucket i > 0 has its lower edge r2^i at or below the number of samples. */
  ghost predicate EnoughSamples(S: seq<real>, n: nat)
    requires n >= 1
  {
    forall i :: 0 < i < n && CountAt(S, n, i) > 0 ==> Power(i) <= |S| as real
  }

  lemma StopIsOccupied(S: seq<real>, n: nat, y: real)
    requires n >= 1 && S != [] && 0.0 < y < 1.0
    ensures CountAt(S, n, StopFrom(S, n, y, 0)) > 0
  {
    var i := StopFrom(S, n, y, 0);
    CountStep(S, n, i);
    assert Before(S, n, i) < y;
  }

  /** An occupied bucket is where every level between its two cumulative fractions stops. */
  lemma OccupiedIsStop(S: seq<real>, n: nat, i: nat, y: real)
    requires n >= 1 && S != [] && i < n
    requires 0.0 < y < 1.0 && Before(S, n, i) < y <= Fraction(S, n, i)
    ensures StopFrom(S, n, y, 0) == i
  {
    var stop := StopFrom(S, n, y, 0);
    if stop < i {
      CountMonotone(S, n, stop, i - 1);
      FractionMonotone(CountUpTo(S, n, stop), CountUpTo(S, n, i - 1), |S|);
    }
  }

  lemma FractionMonotone(a: nat, b: nat, count: nat)
    requires a <= b && count > 0
    ensures a as real / count as real <= b as real / count as real
  {
    assert (b - a) as real / count as real >= 0.0;
    assert b as real / count as real - a as real / count as real == (b - a) as real / count as real;
  }

  lemma MonotoneIfEnough(S: seq<real>, n: nat, y: real, y': real)
    requires n >= 1 && S != [] && EnoughSamples(S, n) && 0.0 < y < y' < 1.0
    ensures Percentile(S, n, y).value <= Percentile(S, n, y').value
  {
    StopIsOccupied(S, n, y);
    StopIsOccupied(S, n, y');
    if StopFrom(S, n, y, 0) == StopFrom(S, n, y', 0) {
      OrderedInBucket(S, n, y, y');
    } else {
      OrderedAcrossBuckets(S, n, y, y');
    }
  }

  lemma EnoughIfMonotone(S: seq<real>, n: nat, i: nat)
    requires n >= 1 && S != [] && MonotonePercentile(S, n)
    requires 0 < i < n && CountAt(S, n, i) > 0
    ensures Power(i) <= |S| as real
  {
    CountStep(S, n, i);
    var a, b := Before(S, n, i), Fraction(S, n, i);
    var y, y' := a + (b - a) / 3.0, a + 2.0 * (b - a) / 3.0;
    assert 0.0 <= a < b <= 1.0 by {
      FractionGap(CountUpTo(S, n, i - 1), CountUpTo(S, n, i), |S|);
    }
    OccupiedIsStop(S, n, i, y);
    OccupiedIsStop(S, n, i, y');
    OrderedInBucket(S, n, y, y');
  }

  lemma FractionGap(a: nat, b: nat, count: nat)
    requires a < b <= count
    ensures 0.0 <= a as real / count as real < b as real / count as real <= 1.0
  {
    var x, z := a as real / count as real, b as real / count as real;
    assert x * count as real == a as real && z * count as real == b as real;
  }

  /** get_percentile is monotone in y if and only if every occupied bucket i > 0 has r2^i <= N. */
  lemma MonotoneIffEnoughSamples(S: seq<real>, n: nat)
    requires n >= 1 && S != []
    ensures MonotonePercentile(S, n) <==> EnoughSamples(S, n)
  {
    if MonotonePercentile(S, n) {
      forall i | 0 < i < n && CountAt(S, n, i) > 0 ensures Power(i) <= |S| as real {
        EnoughIfMonotone(S, n, i);
      }
    }
    if EnoughSamples(S, n) {
      forall y, y' | 0.0 < y < y' < 1.0 ensures Percentile(S, n, y).value <= Percentile(S, n, y').value {
        MonotoneIfEnough(S, n, y, y');
      }
    }
  }

  // ----- sizing

  /** A histogram sized from max_value >= 1 never sends a value up to max_value through the overflow clamp,
      so its bucket encloses it. */
  lemma SizedForMax(maxValue: real, v: real)
    requires maxValue >= 1.0 && v <= maxValue
    ensures var n := LogIndex(maxValue) + 1;
            v < Power(n) && Bucket(n, v) == LogIndex(v) && (v >= R2 ==> Power(Bucket(n, v)) <= v)
  {
    var n := LogIndex(maxValue) + 1;
    LogIndexMonotone(v, maxValue);
    LogIndexBracket(maxValue, n - 1);
    LogIndexBracket(v, LogIndex(v));
    assert Power(1) == R2;
  }

  /** A lap through the whole array accounts for every sample. */
  lemma {:induction false} BucketsSumToCount(S: seq<real>, n: nat, i: nat)
    requires n >= 1 && i <= n
    ensures Sum(seq(i, j requires 0 <= j < i => CountAt(S, n, j))) == CountUpTo(S, n, i - 1)
    ensures CountUpTo(S, n, n - 1) == |S|
  {
    CountAll(S, n);
    if i == 0 {
      CountStep(S, n, 0);
    } else {
      BucketsSumToCount(S, n, i - 1);
      CountStep(S, n, i - 1);
      var all, front := seq(i, j requires 0 <= j < i => CountAt(S, n, j)),
                        seq(i - 1, j requires 0 <= j < i - 1 => CountAt(S, n, j));
      assert all[..i - 1] == front;
    }
  }

  function Sum(s: seq<int>): int {
    if s == [] then 0 else Sum(s[..|s| - 1]) + s[|s| - 1]
  }
}
