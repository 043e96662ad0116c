/** The log-bucket latency histogram (utils/percentile.c). Floats are exact reals, and one base R2 serves both
    the index `(int)(log(v) * inv_log_r2)` and the bucket edges `pow(r2, i)`. */
module Histogram {
  const R2: real := 1.4142

  datatype Option<T> = None | Some(value: T)

  // ----- buckets

  /** pow(r2, i) */
  function Power(i: nat): (p: real)
    ensures p >= 1.0
  {
    if i == 0 then 1.0 else R2 * Power(i - 1)
  }

  lemma {:induction false} PowerGrows(i: nat, j: nat)
    requires i < j
    ensures Power(i) < Power(j)
  {
    if i + 1 < j {
      PowerGrows(i, j - 1);
    }
  }

  /** floor(log_R2(v)), and 0 for the values below R2 that the source keeps away from log. */
  function LogIndex(v: real): nat
    decreases (3.0 * v).Floor
  {
    if v < R2 then 0 else 1 + LogIndex(v / R2)
  }

  /** LogIndex(v) is the one bucket whose edges enclose v. */
  lemma {:induction false} LogIndexBracket(v: real, i: nat)
    ensures LogIndex(v) == i <==> (if i == 0 then v < R2 else Power(i) <= v < Power(i + 1))
    decreases i
  {
    assert i > 0 ==> Power(i + 1) == R2 * Power(i) && Power(i) == R2 * Power(i - 1);
    if v >= R2 && i > 0 {
      LogIndexBracket(v / R2, i - 1);
      assert Power(1) == R2;
    } else if i > 0 {
      PowerGrows(0, i);
      assert Power(i) >= R2;
    }
  }

  lemma LogIndexMonotone(v: real, w: real)
    requires v <= w
    ensures LogIndex(v) <= LogIndex(w)
  {
    var i, j := LogIndex(v), LogIndex(w);
    LogIndexBracket(v, i);
    LogIndexBracket(w, j);
    if j < i {
      assert w < Power(j + 1);
      if j + 1 < i { PowerGrows(j + 1, i); }
    }
  }

  /** The bucket a value goes to in a histogram of n buckets: the last one takes the overflow. */
  function Bucket(n: nat, v: real): (i: nat)
    requires n >= 1
    ensures i < n
  {
    if LogIndex(v) >= n then n - 1 else LogIndex(v)
  }

  lemma BucketMonotone(n: nat, v: real, w: real)
    requires n >= 1 && v <= w
    ensures Bucket(n, v) <= Bucket(n, w)
  {
    LogIndexMonotone(v, w);
  }

  // ----- counting samples

  /** How many samples of S fall into bucket j. */
  function CountAt(S: seq<real>, n: nat, j: nat): nat
    requires n >= 1
  {
    if S == [] then 0
    else CountAt(S[..|S| - 1], n, j) + if Bucket(n, S[|S| - 1]) == j then 1 else 0
  }

  /** How many samples of S fall into the buckets 0 .. i. */
  function CountUpTo(S: seq<real>, n: nat, i: int): (c: nat)
    requires n >= 1
    ensures c <= |S|
  {
    if S == [] then 0
    else CountUpTo(S[..|S| - 1], n, i) + if Bucket(n, S[|S| - 1]) <= i then 1 else 0
  }

  lemma {:induction false} CountStep(S: seq<real>, n: nat, i: nat)
    requires n >= 1
    ensures CountUpTo(S, n, i) == CountUpTo(S, n, i - 1) + CountAt(S, n, i)
    ensures CountUpTo(S, n, -1) == 0
  {
    if S != [] { CountStep(S[..|S| - 1], n, i); }
  }

  lemma {:induction false} CountAll(S: seq<real>, n: nat)
    requires n >= 1
    ensures CountUpTo(S, n, n - 1) == |S|
  {
    if S != [] { CountAll(S[..|S| - 1], n); }
  }

  lemma {:induction false} CountMonotone(S: seq<real>, n: nat, i: int, j: int)
    requires n >= 1 && i <= j
    ensures CountUpTo(S, n, i) <= CountUpTo(S, n, j)
  {
    if S != [] { CountMonotone(S[..|S| - 1], n, i, j); }
  }

  lemma {:induction false} CountRemove(S: seq<real>, n: nat, p: nat, i: int)
    requires n >= 1 && p < |S|
    ensures CountUpTo(S, n, i) == CountUpTo(S[..p] + S[p + 1..], n, i) + if Bucket(n, S[p]) <= i then 1 else 0
  {
    var last := |S| - 1;
    if p == last {
      assert S[..p] + S[p + 1..] == S[..last];
    } else {
      var rest := S[..p] + S[p + 1..];
      assert rest[..|rest| - 1] == S[..last][..p] + S[..last][p + 1..];
      CountRemove(S[..last], n, p, i);
    }
  }

  /** The counts depend on the multiset of samples only. */
  lemma {:induction false} CountOfMultiset(S: seq<real>, T: seq<real>, n: nat, i: int)
    requires n >= 1 && multiset(S) == multiset(T)
    ensures CountUpTo(S, n, i) == CountUpTo(T, n, i)
    decreases |S|
  {
    if S == [] {
      assert |T| == |multiset(T)| == 0;
    } else {
      var x, S' := S[|S| - 1], S[..|S| - 1];
      assert S == S' + [x];
      assert x in multiset(T);
      var p :| 0 <= p < |T| && T[p] == x;
      var T' := T[..p] + T[p + 1..];
      assert T == T[..p] + [x] + T[p + 1..];
      assert multiset(T') == multiset(T) - multiset{x};
      CountRemove(T, n, p, i);
      CountOfMultiset(S', T', n, i);
    }
  }

  /** Adding the same samples in any order gives the same buckets. */
  lemma BucketsOfMultiset(S: seq<real>, T: seq<real>, n: nat, j: nat)
    requires n >= 1 && multiset(S) == multiset(T)
    ensures CountAt(S, n, j) == CountAt(T, n, j)
  {
    CountStep(S, n, j);
    CountStep(T, n, j);
    CountOfMultiset(S, T, n, j);
    CountOfMultiset(S, T, n, j - 1);
  }

  ghost predicate Sorted(T: seq<real>) {
    forall i, j :: 0 <= i <= j < |T| ==> T[i] <= T[j]
  }

  /** In a sorted list the samples of the buckets 0 .. i are exactly a prefix. */
  lemma {:induction false} SortedPrefix(T: seq<real>, n: nat, i: int, p: nat)
    requires n >= 1 && Sorted(T) && p < |T|
    ensures Bucket(n, T[p]) <= i <==> p < CountUpTo(T, n, i)
    decreases |T|
  {
    var last := |T| - 1;
    if p < last {
      SortedPrefix(T[..last], n, i, p);
      BucketMonotone(n, T[p], T[last]);
    }
    if Bucket(n, T[last]) <= i {
      AllUpTo(T, n, i);
    }
  }

  lemma {:induction false} AllUpTo(T: seq<real>, n: nat, i: int)
    requires n >= 1 && Sorted(T) && T != [] && Bucket(n, T[|T| - 1]) <= i
    ensures CountUpTo(T, n, i) == |T|
    decreases |T|
  {
    if |T| > 1 {
      BucketMonotone(n, T[|T| - 2], T[|T| - 1]);
      AllUpTo(T[..|T| - 1], n, i);
    }
  }

  // ----- the percentile

  /** The fraction of the samples in the buckets 0 .. i. */
  function Fraction(S: seq<real>, n: nat, i: int): real
    requires n >= 1 && S != []
  {
    CountUpTo(S, n, i) as real / |S| as real
  }

  /** Where the scan of get_percentile breaks, started at bucket i. */
  function StopFrom(S: seq<real>, n: nat, y: real, i: nat): (stop: nat)
    requires n >= 1 && S != [] && y <= 1.0 && i < n
    ensures i <= stop < n
    ensures Fraction(S, n, stop) >= y
    ensures forall j :: i <= j < stop ==> Fraction(S, n, j) < y
    decreases n - i
  {
    CountAll(S, n);
    if Fraction(S, n, i) >= y then i else StopFrom(S, n, y, i + 1)
  }

  function Low(i: nat): real {
    if i == 0 then 0.0 else Power(i)
  }

  function High(i: nat, count: nat): real {
    if Power(i + 1) > count as real then count as real else Power(i + 1)
  }

  /** Linear interpolation between (y0, x0) and (y1, x1). */
  function Interpolate(x0: real, x1: real, y: real, y0: real, y1: real): real
    requires y0 < y1
  {
    x0 + (x1 - x0) * ((y - y0) / (y1 - y0))
  }

  /** The fraction below bucket i. */
  function Before(S: seq<real>, n: nat, i: nat): real
    requires n >= 1 && S != []
  {
    if i == 0 then 0.0 else Fraction(S, n, i - 1)
  }

  function Percentile(S: seq<real>, n: nat, y: real): Option<real>
    requires n >= 1 && 0.0 < y < 1.0
  {
    if S == [] then None
    else
      var i := StopFrom(S, n, y, 0);
      Some(Interpolate(Low(i), High(i, |S|), y, Before(S, n, i), Fraction(S, n, i)))
  }

  class PHist {
    var countBucket: int
    var countValues: int
    var buckets: array<int>
    ghost var samples: seq<real>  // every value ever added, in order

    ghost predicate Valid()
      reads this, buckets
    {
      && countBucket >= 1 && buckets.Length == countBucket
      && countValues == |samples|
      && forall j :: 0 <= j < countBucket ==> buckets[j] == CountAt(samples, countBucket, j)
    }

    /** new_p_hist_from_max_value */
    constructor FromMaxValue(maxValue: real)
      requires maxValue >= 1.0
      ensures Valid() && fresh(buckets) && samples == []
      ensures countBucket == LogIndex(maxValue) + 1
    {
      countBucket := LogIndex(maxValue) + 1;
      countValues := 0;
      buckets := new int[LogIndex(maxValue) + 1](_ => 0);
      samples := [];
    }

    /** add_number_to_p_hist */
    method Add(value: real)
      requires Valid()
      modifies this, buckets
      ensures Valid() && buckets == old(buckets) && countBucket == old(countBucket)
      ensures samples == old(samples) + [value]
    {
      var index := LogIndex(value);
      if index >= countBucket {
        index := countBucket - 1;
      }
      buckets[index] := buckets[index] + 1;
      countValues := countValues + 1;
      samples := samples + [value];
      assert samples[..|samples| - 1] == old(samples);
    }

    /** get_percentile; with no samples the source divides 0 by 0 and returns no number. */
    method GetPercentile(y: real) returns (p: Option<real>)
      requires Valid() && 0.0 < y < 1.0
      ensures p == Percentile(samples, countBucket, y)
    {
      if countValues == 0 {
        return None;
      }
      ghost var S, n := samples, countBucket;
      var i, tmp, y0, y1 := 0, 0, 0.0, 0.0;
      CountStep(S, n, 0);
      while i < countBucket
        invariant 0 <= i < n && tmp == CountUpTo(S, n, i - 1)
        invariant y1 == Before(S, n, i) < y
        invariant StopFrom(S, n, y, 0) == StopFrom(S, n, y, i)
      {
        y0 := y1;
        tmp := tmp + buckets[i];
        CountStep(S, n, i);
        y1 := tmp as real / countValues as real;
        assert y1 == Fraction(S, n, i);
        if y1 >= y {
          break;
        }
        CountAll(S, n);
        i := i + 1;
      }
      var x0, x1 := if i == 0 then 0.0 else Power(i), if i == 0 then R2 else Power(i + 1);
      if x1 > countValues as real {
        x1 := countValues as real;
      }
      assert Power(1) == R2;
      p := Some(Interpolate(x0, x1, y, y0, y1));
    }
  }
}
