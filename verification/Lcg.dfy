/** The linear congruential generator behind `myrand` (utils/zipf.c), as a pure function of the call
    number, and its number theory: the seed has full period 2^32, and so has every low-bit window of it. */
module Lcg {
  import opened Arith

  const A: nat := 1664525
  const C: nat := 1013904223
  const M: nat := 0x1_0000_0000
  // stdlib.h of the C library in use: 2^31 - 1
  const RAND_MAX: nat := 0x7FFF_FFFF

  /** The seed after `t` calls of __myrand; `a * seed + c` stays below 2^53, so the 64-bit product is exact. */
  function Seed(t: nat): nat {
    if t == 0 then 1 else (A * Seed(t - 1) + C) % M
  }

  /** What the t-th call of __myrand returns (t counted from 1). */
  function Output(t: nat): nat {
    Seed(t) % RAND_MAX
  }

  function Pow2(j: nat): (p: nat)
    ensures p > 0
  {
    if j == 0 then 1 else 2 * Pow2(j - 1)
  }

  // ----- divisibility by powers of two

  lemma EvenFactor(x: int, j: nat)
    requires j > 0 && x % Pow2(j) == 0
    ensures x % 2 == 0
  {
    assert Pow2(j) == 2 * Pow2(j - 1);
    ModMod(x, 2, Pow2(j - 1));
  }

  lemma OddTimesOdd(x: int, y: int)
    requires x % 2 == 1 && y % 2 == 1
    ensures (x * y) % 2 == 1
  {
    var a, b := x / 2, y / 2;
    calc {
      x * y;
      (2 * a + 1) * (2 * b + 1);
      2 * (2 * (a * b) + a + b) + 1;
    }
  }

  /** Multiplying by an odd number neither adds nor removes factors of two. */
  lemma {:induction false} OddFactor(x: int, q: int, j: nat)
    requires q % 2 == 1
    ensures (x * q) % Pow2(j) == 0 <==> x % Pow2(j) == 0
    decreases j
  {
    if j == 0 {
    } else if x % 2 == 0 {
      var y := x / 2;
      assert x * q == 2 * (y * q) by { assert x == 2 * y; }
      DoubleMod(y, Pow2(j - 1));
      DoubleMod(y * q, Pow2(j - 1));
      OddFactor(y, q, j - 1);
    } else {
      OddTimesOdd(x, q);
      if (x * q) % Pow2(j) == 0 { EvenFactor(x * q, j); }
      if x % Pow2(j) == 0 { EvenFactor(x, j); }
    }
  }

  // ----- the unreduced orbit: U(x, n) - x is S(n) times an odd number

  function U(x: nat, n: nat): nat {
    if n == 0 then x else A * U(x, n - 1) + C
  }

  /** 1 + A + ... + A^(n-1) */
  function S(n: nat): nat {
    if n == 0 then 0 else A * S(n - 1) + 1
  }

  lemma {:induction false} OrbitDisplacement(x: nat, n: nat)
    ensures U(x, n) - x == S(n) * ((A - 1) * x + C)
  {
    if n > 0 {
      OrbitDisplacement(x, n - 1);
      DisplacementStep(x, U(x, n - 1), S(n - 1));
    }
  }

  lemma DisplacementStep(x: nat, u: nat, s: nat)
    requires u - x == s * ((A - 1) * x + C)
    ensures A * u + C - x == (A * s + 1) * ((A - 1) * x + C)
  {
    var d := (A - 1) * x + C;
    Scaled(s, d);
    assert A * u + C - x == A * (u - x) + d;
  }

  lemma Scaled(s: int, d: int)
    ensures (A * s + 1) * d == A * (s * d) + d
  {
  }

  lemma {:induction false} OrbitSplit(x: nat, m: nat, n: nat)
    ensures U(x, m + n) == U(U(x, m), n)
  {
    if n > 0 {
      OrbitSplit(x, m, n - 1);
    }
  }

  lemma Distribute(p: int, s: int)
    ensures p * (A * s + 1) == A * (p * s) + p
  {
  }

  lemma SquareTerm(s: int, w: int)
    ensures (4 * w + 1) * s == 4 * (w * s) + s
    ensures s * (1 + 2 * w) == s + 2 * (w * s)
  {
  }

  lemma {:induction false} SumSplit(m: nat, n: nat)
    ensures S(m + n) == S(m) + ((A - 1) * S(m) + 1) * S(n)
  {
    if n == 0 {
    } else {
      SumSplit(m, n - 1);
      Distribute((A - 1) * S(m) + 1, S(n - 1));
    }
  }

  /** S(2m) is 2 * S(m) times an odd number, because 4 divides A - 1. */
  lemma SumDouble(m: nat)
    ensures S(2 * m) == 2 * (S(m) * (1 + 2 * (416131 * S(m))))
  {
    SumSplit(m, m);
    SquareTerm(S(m), 416131 * S(m));
  }

  lemma {:induction false} SumParity(n: nat)
    ensures S(n) % 2 == n % 2
  {
    if n > 0 {
      SumParity(n - 1);
      ParityStep(S(n - 1), n - 1);
    }
  }

  lemma ParityStep(s: nat, n: nat)
    requires s % 2 == n % 2
    ensures (A * s + 1) % 2 == (n + 1) % 2
  {
    var e := 832262 * s;
    assert A * s + 1 == 2 * e + (s + 1);
    EvenPlus(e, s + 1);
  }

  lemma EvenPlus(e: int, r: int)
    ensures (2 * e + r) % 2 == r % 2
  {
  }

  /** The key fact: S(n) and n are divisible by the same powers of two. */
  lemma {:induction false} SumDivisibility(n: nat, j: nat)
    ensures S(n) % Pow2(j) == 0 <==> n % Pow2(j) == 0
  {
    if j == 0 {
    } else if n % 2 == 0 {
      var m := n / 2;
      var odd := 1 + 2 * (416131 * S(m));
      SumDouble(m);
      DoubleMod(S(m) * odd, Pow2(j - 1));
      OddFactor(S(m), odd, j - 1);
      SumDivisibility(m, j - 1);
      DoubleMod(m, Pow2(j - 1));
    } else {
      SumParity(n);
      if S(n) % Pow2(j) == 0 { EvenFactor(S(n), j); }
      if n % Pow2(j) == 0 { EvenFactor(n, j); }
    }
  }

  lemma OrbitPeriod(x: nat, n: nat, j: nat)
    ensures U(x, n) % Pow2(j) == x % Pow2(j) <==> n % Pow2(j) == 0
  {
    var d := (A - 1) * x + C;
    assert d % 2 == 1 by { assert d == 2 * (832262 * x + 506952111) + 1; }
    OrbitDisplacement(x, n);
    CongruentIffDivides(U(x, n), x, Pow2(j));
    OddFactor(S(n), d, j);
    SumDivisibility(n, j);
  }

  // ----- back to the reduced seed

  lemma {:induction false} SeedIsOrbit(t: nat)
    ensures Seed(t) == U(1, t) % M
  {
    if t > 0 {
      SeedIsOrbit(t - 1);
      var u := U(1, t - 1);
      var q, r := u / M, u % M;
      assert A * u + C == (A * r + C) + (A * q) * M;
      ModShift(A * r + C, A * q, M);
    }
  }

  lemma {:induction false} Pow2Divides(j: nat, k: nat)
    requires j <= k
    ensures Pow2(k) == Pow2(j) * Pow2(k - j)
  {
    if k > j {
      Pow2Divides(j, k - 1);
      assert Pow2(j) * (2 * Pow2(k - j - 1)) == 2 * (Pow2(j) * Pow2(k - j - 1));
    }
  }

  lemma Pow2At32()
    ensures Pow2(32) == M
  {
    assert Pow2(8) == 256;
    Pow2Divides(8, 16);
    Pow2Divides(16, 32);
  }

  lemma SeedLowBits(t: nat, j: nat)
    requires j <= 32
    ensures Seed(t) % Pow2(j) == U(1, t) % Pow2(j)
  {
    SeedIsOrbit(t);
    Pow2At32();
    Pow2Divides(j, 32);
    ModMod(U(1, t), Pow2(j), Pow2(32 - j));
  }

  /** Full period: the low j bits of two seeds agree exactly when the call numbers agree modulo 2^j. */
  lemma SeedPeriod(t: nat, n: nat, j: nat)
    requires j <= 32
    ensures Seed(t + n) % Pow2(j) == Seed(t) % Pow2(j) <==> n % Pow2(j) == 0
  {
    SeedLowBits(t, j);
    SeedLowBits(t + n, j);
    OrbitSplit(1, t, n);
    OrbitPeriod(U(1, t), n, j);
  }

  lemma SeedRange(t: nat)
    ensures 0 <= Seed(t) < M
  {
  }

  /** Any 2^32 consecutive seeds are pairwise distinct. */
  lemma SeedsDistinct(t: nat, t': nat)
    requires t < t' < t + M
    ensures Seed(t) != Seed(t')
  {
    Pow2At32();
    SeedPeriod(t, t' - t, 32);
    SmallMod(t' - t, M);
  }

  /** ... and they are all the 32-bit values: lift a solution modulo 2^j one bit at a time. */
  lemma {:induction false} SeedHits(lo: nat, v: nat, j: nat) returns (t: nat)
    requires j <= 32
    ensures lo <= t < lo + Pow2(j) && Seed(t) % Pow2(j) == v % Pow2(j)
  {
    if j == 0 {
      t := lo;
    } else {
      var p := Pow2(j - 1);
      t := SeedHits(lo, v, j - 1);
      if Seed(t) % (2 * p) != v % (2 * p) {
        SeedPeriod(t, p, j);
        SeedPeriod(t, p, j - 1);
        SmallMod(p, 2 * p);
        ModShift(0, 1, p);
        TwoLifts(Seed(t), Seed(t + p), v, p);
        t := t + p;
      }
    }
  }

  /** Modulo 2p there are two residues above one residue modulo p. */
  lemma TwoLifts(x: int, y: int, v: int, p: nat)
    requires p > 0 && x % p == v % p == y % p
    requires x % (2 * p) != v % (2 * p) && x % (2 * p) != y % (2 * p)
    ensures y % (2 * p) == v % (2 * p)
  {
    LiftOf(x, p);
    LiftOf(y, p);
    LiftOf(v, p);
  }

  lemma LiftOf(x: int, p: nat)
    requires p > 0
    ensures x % (2 * p) == x % p || x % (2 * p) == x % p + p
  {
    ModMod(x, p, 2);
    var r := x % (2 * p);
    if r < p {
      SmallMod(r, p);
    } else {
      ModShift(r - p, 1, p);
      SmallMod(r - p, p);
    }
  }

  // ----- how often an output repeats

  /** The seeds that __myrand turns into the value v. */
  function Preimages(v: nat): set<nat> {
    if v <= 1 then {v, v + RAND_MAX, v + 2 * RAND_MAX} else {v, v + RAND_MAX}
  }

  lemma PreimagesExact(s: nat, v: nat)
    requires s < M && v < RAND_MAX
    ensures s % RAND_MAX == v <==> s in Preimages(v)
  {
  }

  lemma {:induction false} DistinctSeedsBound(T: set<nat>, lo: nat, seeds: set<nat>)
    requires forall t <- T :: lo <= t < lo + M && Seed(t) in seeds
    ensures |T| <= |seeds|
    decreases T
  {
    if T != {} {
      var t :| t in T;
      forall t' <- T - {t} ensures Seed(t') in seeds - {Seed(t)} {
        if t < t' { SeedsDistinct(t, t'); } else { SeedsDistinct(t', t); }
      }
      DistinctSeedsBound(T - {t}, lo, seeds - {Seed(t)});
    }
  }

  /** In any 2^32 consecutive calls a value is returned at most twice; 0 and 1 at most three times. */
  lemma OutputRepeats(T: set<nat>, lo: nat, v: nat)
    requires forall t <- T :: lo <= t < lo + M && Output(t) == v
    ensures |T| <= if v <= 1 then 3 else 2
  {
    if T != {} {
      forall t <- T ensures Seed(t) in Preimages(v) {
        SeedRange(t);
        PreimagesExact(Seed(t), v);
      }
      DistinctSeedsBound(T, lo, Preimages(v));
    }
  }

  /** The bound is met: in every window of 2^32 calls each v below RAND_MAX does occur that often. */
  lemma OutputRepeatsExactly(lo: nat, v: nat) returns (T: set<nat>)
    requires v < RAND_MAX
    ensures T == set t | lo <= t < lo + M && Output(t) == v
    ensures |T| == if v <= 1 then 3 else 2
  {
    T := set t | lo <= t < lo + M && Output(t) == v;
    OutputRepeats(T, lo, v);
    var t0 := SeedOccurs(lo, v, v);
    var t1 := SeedOccurs(lo, v + RAND_MAX, v);
    if v <= 1 {
      var t2 := SeedOccurs(lo, v + 2 * RAND_MAX, v);
      SubsetSize({t0, t1, t2}, T);
    } else {
      SubsetSize({t0, t1}, T);
    }
  }

  lemma SeedOccurs(lo: nat, s: nat, v: nat) returns (t: nat)
    requires s < M && v < RAND_MAX && s in Preimages(v)
    ensures lo <= t < lo + M && Seed(t) == s && Output(t) == v
  {
    Pow2At32();
    t := SeedHits(lo, s, 32);
    SeedRange(t);
    SmallMod(Seed(t), M);
    SmallMod(s, M);
    PreimagesExact(s, v);
  }

  lemma {:induction false} SubsetSize<T>(a: set<T>, b: set<T>)
    requires a <= b
    ensures |a| <= |b|
  {
    if a != {} {
      var x :| x in a;
      SubsetSize(a - {x}, b - {x});
    }
  }
}
