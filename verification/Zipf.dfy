/** The Zipf sampler (utils/zipf.c): a cumulative table of integers built from real probabilities, and the
    binary search that inverts it. `pow(i, s)` comes from libm and is a parameter; doubles are exact reals. */
module Zipf {
  import opened Lcg
  import opened Rand

  // ----- the table

  /** Partial sums of 1 / pow(i, s). */
  ghost function Harmonic(pow: nat -> real, k: nat): real
    requires forall i | 1 <= i <= k :: pow(i) > 0.0
  {
    if k == 0 then 0.0 else Harmonic(pow, k - 1) + 1.0 / pow(k)
  }

  ghost predicate Positive(pow: nat -> real, n: nat) {
    forall i | 1 <= i <= n :: pow(i) > 0.0
  }

  lemma {:induction false} HarmonicGrows(pow: nat -> real, j: nat, k: nat)
    requires j <= k && Positive(pow, k)
    ensures Harmonic(pow, j) <= Harmonic(pow, k)
    ensures j < k ==> Harmonic(pow, j) < Harmonic(pow, k)
  {
    if j < k {
      HarmonicGrows(pow, j, k - 1);
      assert 1.0 / pow(k) > 0.0;
    }
  }

  /** The exact probability of the first k ranks. */
  ghost function Probability(pow: nat -> real, n: nat, k: nat): real
    requires 1 <= n && k <= n && Positive(pow, n)
  {
    HarmonicGrows(pow, 0, n);
    Harmonic(pow, k) / Harmonic(pow, n)
  }

  ghost function Ideal(pow: nat -> real, n: nat, k: nat): real
    requires 1 <= n && k <= n && Positive(pow, n)
  {
    Probability(pow, n, k) * RAND_MAX as real
  }

  /** What new_zipfgen stores: the truncated ideal cumulative counts. */
  ghost predicate IsTable(pow: nat -> real, n: nat, c: seq<int>)
    requires Positive(pow, n)
  {
    && |c| == n + 1 && c[0] == 0
    && forall k :: 1 <= k <= n ==> c[k] == Ideal(pow, n, k).Floor
  }

  ghost predicate Nondecreasing(c: seq<int>) {
    forall i, j :: 0 <= i <= j < |c| ==> c[i] <= c[j]
  }

  lemma DivMonotone(a: real, b: real, h: real)
    requires a <= b && h > 0.0
    ensures a / h <= b / h
  {
    assert b / h - a / h == (b - a) / h;
  }

  lemma ProbabilityGrows(pow: nat -> real, n: nat, j: nat, k: nat)
    requires 1 <= n && j <= k <= n && Positive(pow, n)
    ensures 0.0 <= Probability(pow, n, j) <= Probability(pow, n, k)
  {
    HarmonicGrows(pow, 0, n);
    HarmonicGrows(pow, 0, j);
    HarmonicGrows(pow, j, k);
    DivMonotone(0.0, Harmonic(pow, j), Harmonic(pow, n));
    DivMonotone(Harmonic(pow, j), Harmonic(pow, k), Harmonic(pow, n));
  }

  lemma IdealGrows(pow: nat -> real, n: nat, j: nat, k: nat)
    requires 1 <= n && j <= k <= n && Positive(pow, n)
    ensures 0.0 <= Ideal(pow, n, j) <= Ideal(pow, n, k)
  {
    ProbabilityGrows(pow, n, j, k);
    var d := Probability(pow, n, k) - Probability(pow, n, j);
    assert d * RAND_MAX as real >= 0.0;
  }

  lemma IdealTotal(pow: nat -> real, n: nat)
    requires 1 <= n && Positive(pow, n)
    ensures Ideal(pow, n, n) == RAND_MAX as real
  {
    HarmonicGrows(pow, 0, n);
    assert Harmonic(pow, n) / Harmonic(pow, n) == 1.0;
  }

  /** The table is nondecreasing, starts at 0 and ends at RAND_MAX. */
  lemma TableShape(pow: nat -> real, n: nat, c: seq<int>)
    requires 1 <= n && Positive(pow, n) && IsTable(pow, n, c)
    ensures c[0] == 0 && c[n] == RAND_MAX && Nondecreasing(c)
  {
    IdealTotal(pow, n);
    forall i, j | 0 <= i <= j < |c| ensures c[i] <= c[j] {
      IdealGrows(pow, n, i, j);
    }
  }

  lemma ProbabilityStep(pow: nat -> real, n: nat, k: nat)
    requires 1 <= k <= n && Positive(pow, n)
    ensures Harmonic(pow, n) > 0.0
    ensures Probability(pow, n, k) == Probability(pow, n, k - 1) + (1.0 / pow(k)) / Harmonic(pow, n)
  {
    HarmonicGrows(pow, 0, n);
    AddQuotient(Harmonic(pow, k - 1), 1.0 / pow(k), Harmonic(pow, n));
  }

  lemma AddQuotient(a: real, b: real, h: real)
    requires h > 0.0
    ensures (a + b) / h == a / h + b / h
  {
  }

  lemma IdealStep(pow: nat -> real, n: nat, k: nat)
    requires 1 <= k <= n && Positive(pow, n)
    ensures Harmonic(pow, n) > 0.0
    ensures Ideal(pow, n, k) - Ideal(pow, n, k - 1) == ((1.0 / pow(k)) / Harmonic(pow, n)) * RAND_MAX as real
  {
    ProbabilityStep(pow, n, k);
    ScaleSum(Probability(pow, n, k - 1), (1.0 / pow(k)) / Harmonic(pow, n), RAND_MAX as real);
  }

  lemma ScaleSum(x: real, y: real, k: real)
    ensures (x + y) * k - x * k == y * k
  {
  }

  /** Each entry is the exact cumulative share with its fraction cut off. */
  lemma EntryError(pow: nat -> real, n: nat, c: seq<int>, k: nat)
    requires 1 <= k <= n && Positive(pow, n) && IsTable(pow, n, c)
    ensures Harmonic(pow, n) > 0.0
    ensures 0.0 <= Harmonic(pow, k) / Harmonic(pow, n) * RAND_MAX as real - c[k] as real < 1.0
  {
    HarmonicGrows(pow, 0, n);
    assert c[k] == Ideal(pow, n, k).Floor;
  }

  /** Truncation moves the number of draws of each rank by less than one from its exact share. */
  lemma WidthError(pow: nat -> real, n: nat, c: seq<int>, k: nat)
    requires 1 <= k <= n && Positive(pow, n) && IsTable(pow, n, c)
    ensures Harmonic(pow, n) > 0.0
    ensures var share := ((1.0 / pow(k)) / Harmonic(pow, n)) * RAND_MAX as real;
            -1.0 < (c[k] - c[k - 1]) as real - share < 1.0
  {
    IdealStep(pow, n, k);
    assert k == 1 ==> Ideal(pow, n, 0) == 0.0;
  }

  lemma ReciprocalAntitone(p: real, q: real)
    requires 0.0 < p <= q
    ensures 1.0 / q <= 1.0 / p
  {
    assert 1.0 / p - 1.0 / q == (q - p) / (p * q);
  }

  /** When pow does not decrease (s >= 0) a rank is drawn at most once more often than the rank before it. */
  lemma WidthStep(pow: nat -> real, n: nat, c: seq<int>, k: nat)
    requires 1 <= k < n && Positive(pow, n) && IsTable(pow, n, c)
    requires pow(k) <= pow(k + 1)
    ensures c[k + 1] - c[k] <= c[k] - c[k - 1] + 1
  {
    var h := Harmonic(pow, n);
    WidthError(pow, n, c, k);
    WidthError(pow, n, c, k + 1);
    ReciprocalAntitone(pow(k), pow(k + 1));
    DivMonotone(1.0 / pow(k + 1), 1.0 / pow(k), h);
    TwoErrors((1.0 / pow(k)) / h, (1.0 / pow(k + 1)) / h, c[k] - c[k - 1], c[k + 1] - c[k]);
  }

  lemma TwoErrors(p: real, q: real, w: int, w': int)
    requires q <= p
    requires -1.0 < w as real - p * RAND_MAX as real && w' as real - q * RAND_MAX as real < 1.0
    ensures w' <= w + 1
  {
  }

  /** x^k for a whole exponent. */
  function IntPow(x: real, k: nat): real {
    if k == 0 then 1.0 else x * IntPow(x, k - 1)
  }

  lemma {:induction false} IntPowGrows(x: real, y: real, k: nat)
    requires 0.0 < x <= y
    ensures 0.0 < IntPow(x, k) <= IntPow(y, k)
    ensures x < y && k > 0 ==> IntPow(x, k) < IntPow(y, k)
  {
    if k > 0 {
      IntPowGrows(x, y, k - 1);
      ProductGrows(x, y, IntPow(x, k - 1), IntPow(y, k - 1));
    }
  }

  lemma ProductGrows(x: real, y: real, u: real, v: real)
    requires 0.0 < x <= y && 0.0 < u <= v
    ensures 0.0 < x * u <= y * v
    ensures x < y ==> x * u < y * v
  {
    PositiveProduct(x, u);
    Scale(u, v, x);
    Scale(x, y, v);
  }

  lemma PositiveProduct(x: real, u: real)
    requires x > 0.0 && u > 0.0
    ensures x * u > 0.0
  {
  }

  lemma Scale(a: real, b: real, k: real)
    requires a <= b && k > 0.0
    ensures a * k <= b * k && k * a <= k * b
    ensures a < b ==> a * k < b * k
  {
    if a < b {
      PositiveProduct(b - a, k);
      assert (b - a) * k == b * k - a * k;
    }
  }

  /** pow is i^s for the exponent s = num / den: the positive number whose den-th power is i^num. */
  ghost predicate IsPow(pow: nat -> real, num: nat, den: nat) {
    den > 0 && forall i: nat :: i >= 1 ==> pow(i) > 0.0 && IntPow(pow(i), den) == IntPow(i as real, num)
  }

  /** Every double is such a fraction, so the two facts about pow used above hold for every exponent s >= 0. */
  lemma PowGrows(pow: nat -> real, num: nat, den: nat, n: nat, k: nat)
    requires IsPow(pow, num, den) && k >= 1
    ensures Positive(pow, n) && pow(k) <= pow(k + 1)
  {
    IntPowGrows(k as real, (k + 1) as real, num);
    if pow(k + 1) < pow(k) {
      IntPowGrows(pow(k + 1), pow(k), den);
    }
  }

  // ----- the search

  /** Draw `rnd` belongs to rank k. */
  predicate Selects(c: seq<int>, rnd: int, k: int) {
    1 <= k < |c| && c[k - 1] < rnd <= c[k]
  }

  lemma RankUnique(c: seq<int>, rnd: int, j: int, k: int)
    requires Nondecreasing(c) && Selects(c, rnd, j) && Selects(c, rnd, k)
    ensures j == k
  {
  }

  /** Exactly the draws 1 .. c[n] have a rank. */
  lemma {:induction false} RankExists(c: seq<int>, n: nat, rnd: int) returns (k: int)
    requires |c| == n + 1 && Nondecreasing(c) && c[0] == 0
    ensures 0 < rnd <= c[n] ==> Selects(c, rnd, k)
    ensures !(0 < rnd <= c[n]) ==> forall k :: !Selects(c, rnd, k)
    decreases n
  {
    k := 0;
    if 0 < rnd <= c[n] {
      if c[n - 1] < rnd {
        k := n;
      } else {
        k := RankExists(c[..n], n - 1, rnd);
      }
    }
  }

  /** The draws lo+1 .. hi. */
  ghost function Draws(lo: int, hi: int): (s: set<int>)
    ensures forall r :: r in s <==> lo < r <= hi
    ensures lo <= hi ==> |s| == hi - lo
    decreases hi - lo
  {
    if lo < hi then Draws(lo, hi - 1) + {hi} else {}
  }

  /** Rank k owns exactly c[k] - c[k-1] of the draws 1 .. c[n]. */
  lemma RankShare(c: seq<int>, k: nat)
    requires 1 <= k < |c| && Nondecreasing(c) && c[0] == 0
    ensures |set r | r in Draws(0, c[|c| - 1]) && Selects(c, r, k)| == c[k] - c[k - 1]
  {
    var draws := set r | r in Draws(0, c[|c| - 1]) && Selects(c, r, k);
    assert draws == Draws(c[k - 1], c[k]);
  }

  /** Over any 2^25 consecutive calls of myrand, the draws in (lo, hi] number at most twice the interval,
      plus one if the interval holds 1. */
  lemma {:induction false} RingShare(T: set<nat>, from: nat, lo: nat, hi: nat)
    requires lo <= hi
    requires forall n <- T :: from <= n < from + RING && lo < Draw(n) <= hi
    ensures |T| <= 2 * (hi - lo) + if lo < 1 <= hi then 1 else 0
    decreases hi
  {
    if lo == hi {
      assert T == {};
    } else {
      var top, rest := set n | n in T && Draw(n) == hi, set n | n in T && Draw(n) != hi;
      DrawRepeats(top, from, hi);
      RingShare(rest, from, lo, hi - 1);
      assert T == top + rest;
      assert |T| == |top| + |rest|;
    }
  }

  /** So no rank is drawn more than 2 * width + 1 times in a lap of the ring. */
  lemma RankFrequency(c: seq<int>, k: nat, T: set<nat>, from: nat)
    requires 1 <= k < |c| && Nondecreasing(c) && c[0] == 0
    requires forall n <- T :: from <= n < from + RING && Selects(c, Draw(n), k)
    ensures |T| <= 2 * (c[k] - c[k - 1]) + 1
  {
    RingShare(T, from, c[k - 1], c[k]);
  }

  /** The loop of number_from_zipf_distribution. */
  method Search(c: array<int>, n: nat, rnd: int) returns (k: int)
    requires c.Length == n + 1 && Nondecreasing(c[..]) && c[0] == 0
    ensures k == -1 || Selects(c[..], rnd, k)
    ensures k == -1 <==> rnd <= 0 || c[n] < rnd
  {
    var low, high := 1, n;
    while low <= high
      invariant 1 <= low <= high + 1 && high <= n
      invariant 0 < rnd ==> c[low - 1] < rnd
      invariant rnd <= c[n] ==> rnd <= c[high]
      decreases high - low
    {
      var mid := (low + high) / 2;
      if c[mid] < rnd {
        assert c[..][low - 1] <= c[..][mid];
        low := mid + 1;
      } else if rnd <= c[mid - 1] {
        high := mid - 1;
      } else {
        assert c[..][0] <= c[..][mid - 1] && c[..][mid] <= c[..][n];
        return mid;
      }
    }
    return -1;
  }

  lemma ProbabilityOfNone(pow: nat -> real, n: nat)
    requires 1 <= n && Positive(pow, n)
    ensures Probability(pow, n, 0) == 0.0
  {
    HarmonicGrows(pow, 0, n);
  }

  lemma NestedQuotient(p: real, h: real)
    requires p > 0.0 && h > 0.0
    ensures p * h > 0.0 && 1.0 / (p * h) == (1.0 / p) / h
  {
  }

  /** The first loop of new_zipfgen. */
  method HarmonicSum(n: nat, pow: nat -> real) returns (h: real)
    requires Positive(pow, n)
    ensures h == Harmonic(pow, n)
  {
    h := 0.0;
    for i := 1 to n + 1
      invariant h == Harmonic(pow, i - 1)
    {
      h := h + 1.0 / pow(i);
    }
  }

  /** The second loop of new_zipfgen: running probabilities, truncated after scaling by RAND_MAX. */
  method CumulativeCounts(n: nat, pow: nat -> real, h: real) returns (counts: array<int>)
    requires Positive(pow, n) && h == Harmonic(pow, n)
    ensures fresh(counts) && IsTable(pow, n, counts[..])
  {
    counts := new int[n + 1];
    var probs := new real[n + 1];
    probs[0], counts[0] := 0.0, 0;
    for i := 1 to n + 1
      invariant counts[0] == 0
      invariant if i == 1 then probs[i - 1] == 0.0 else probs[i - 1] == Probability(pow, n, i - 1)
      invariant forall k :: 1 <= k < i ==> counts[k] == Ideal(pow, n, k).Floor
    {
      ProbabilityOfNone(pow, n);
      ProbabilityStep(pow, n, i);
      NestedQuotient(pow(i), h);
      probs[i] := probs[i - 1] + 1.0 / (pow(i) * h);
      counts[i] := (probs[i] * RAND_MAX as real).Floor;
    }
  }

  class ZipfGen {
    var table: array<int>
    var n: nat
    ghost var pow: nat -> real

    ghost predicate Valid()
      reads this, table
    {
      Positive(pow, n) && IsTable(pow, n, table[..])
    }

    /** new_zipfgen. */
    constructor (n: nat, pow: nat -> real)
      requires Positive(pow, n)
      ensures Valid() && fresh(table) && this.n == n && this.pow == pow
    {
      var h := HarmonicSum(n, pow);
      var counts := CumulativeCounts(n, pow, h);
      this.table, this.n, this.pow := counts, n, pow;
    }

    /** number_from_zipf_distribution: with a rank to return it never fails, because myrand never returns 0. */
    method Gen(rng: Replay) returns (k: int)
      requires Valid() && rng.Valid() && table != rng.srendipity
      modifies rng, rng.srendipity
      ensures Valid() && rng.Valid() && rng.srendipity == old(rng.srendipity)
      ensures table == old(table) && table[..] == old(table[..])
      ensures rng.calls == old(rng.calls) + 1
      ensures if n == 0 then k == -1 else 1 <= k <= n && Selects(table[..], Draw(old(rng.calls)), k)
    {
      var rnd := rng.MyRand();
      assert table[..] == old(table[..]);
      DrawRange(old(rng.calls));
      if n > 0 {
        TableShape(pow, n, table[..]);
      }
      k := Search(table, n, rnd);
    }
  }

  /** With n ranks in the table, the comment "it should not" fail is right: every call yields a rank. */
  lemma SamplingNeverFails(pow: nat -> real, n: nat, c: seq<int>, call: nat)
    requires 1 <= n && Positive(pow, n) && IsTable(pow, n, c)
    ensures exists k :: 1 <= k <= n && Selects(c, Draw(call), k)
  {
    DrawRange(call);
    TableShape(pow, n, c);
    var k := RankExists(c, n, Draw(call));
  }
}
