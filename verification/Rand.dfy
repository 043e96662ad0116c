/** `myrand` (utils/zipf.c:44-71): a ring of generator outputs, filled on the first call and replayed. */
module Rand {
  import opened Arith
  import opened Lcg
  import JumpAhead

  // 1 << 25
  const RING: nat := 0x200_0000

  /** The value call number `n` of myrand (counted from 0) returns. */
  function Draw(n: nat): nat {
    Output(n % RING + 1)
  }

  class Replay {
    var srendipity: array<int>
    var needInit: bool
    var seed: nat
    var ptr: nat
    ghost var calls: nat  // how often MyRand has returned

    ghost predicate Valid()
      reads this, srendipity
    {
      && srendipity.Length == RING
      && ptr == calls % RING
      && (needInit ==> seed == Seed(0) && calls == 0)
      && (!needInit ==> forall i :: 0 <= i < RING ==> srendipity[i] == Output(i + 1))
    }

    constructor ()
      ensures Valid() && fresh(srendipity) && calls == 0
    {
      srendipity := new int[RING];
      needInit, seed, ptr, calls := true, 1, 0, 0;
    }

    /** One step of the generator. */
    method NextOutput(ghost t: nat) returns (r: nat)
      requires seed == Seed(t)
      modifies this`seed
      ensures seed == Seed(t + 1) && r == Output(t + 1)
    {
      seed := (A * seed + C) % M;
      r := seed % RAND_MAX;
    }

    method MyRand() returns (r: int)
      requires Valid()
      modifies this, srendipity
      ensures Valid() && srendipity == old(srendipity)
      ensures r == Draw(old(calls)) && calls == old(calls) + 1
    {
      if needInit {
        needInit := false;
        for i := 0 to RING
          invariant srendipity.Length == RING && srendipity == old(srendipity)
          invariant !needInit && ptr == 0 && calls == 0 && old(calls) == 0
          invariant seed == Seed(i)
          invariant forall j :: 0 <= j < i ==> srendipity[j] == Output(j + 1)
        {
          var x := NextOutput(i);
          srendipity[i] := x;
        }
      }
      r := srendipity[ptr];
      RingAdvance(calls);
      ptr := ptr + 1;
      ptr := ptr % RING;
      calls := calls + 1;
    }
  }

  lemma RingAdvance(n: nat)
    ensures (n % RING + 1) % RING == (n + 1) % RING
  {
    ModShift(n % RING + 1, n / RING, RING);
  }

  lemma RingIsPow2()
    ensures Pow2(25) == RING
  {
    assert Pow2(5) == 32;
    Pow2Divides(5, 10);
    Pow2Divides(10, 20);
    Pow2Divides(5, 25);
  }

  /** The ring positions of a seed agree modulo 2^25, so one candidate position p settles them all. */
  lemma SamePosition(t: nat, p: nat)
    requires 1 <= t <= RING && 1 <= p <= RING
    requires Seed(t) % Pow2(25) == Seed(p) % Pow2(25)
    ensures t == p
  {
    var lo, n := if t < p then t else p, if t < p then p - t else t - p;
    SeedPeriod(lo, n, 25);
    RingIsPow2();
    SmallMod(n, RING);
  }

  lemma NotInRing(t: nat, p: nat, x: nat, v: nat)
    requires 1 <= t <= RING && 1 <= p <= RING && JumpAhead.SeedIs(p, x)
    requires x % RING == v % RING && x != v
    ensures Seed(t) != v
  {
    assert Seed(p) == x;
    RingIsPow2();
    if Seed(t) == v {
      SamePosition(t, p);
    }
  }

  /** No ring slot holds 0: the three seeds that map to 0 all lie outside the first 2^25 steps. */
  lemma RingHasNoZero(t: nat)
    requires 1 <= t <= RING
    ensures Output(t) != 0
  {
    JumpAhead.NearZero();
    NotInRing(t, 10792485, 1275068416, 0);
    JumpAhead.NearRandMax();
    NotInRing(t, 17987270, 4227858431, RAND_MAX);
    JumpAhead.NearTwiceRandMax();
    NotInRing(t, 19443843, 905969662, 2 * RAND_MAX);
    SeedRange(t);
    if Output(t) == 0 {
      PreimagesExact(Seed(t), 0);
    }
  }

  /** Every value of myrand is a positive int below RAND_MAX, and the sequence repeats after 2^25 calls. */
  lemma DrawRange(n: nat)
    ensures 1 <= Draw(n) < RAND_MAX
    ensures Draw(n + RING) == Draw(n)
  {
    RingHasNoZero(n % RING + 1);
    ModShift(n, 1, RING);
  }

  /** In any 2^25 consecutive calls a value is returned at most twice, 1 at most three times. */
  lemma DrawRepeats(T: set<nat>, lo: nat, v: nat)
    requires forall n <- T :: lo <= n < lo + RING && Draw(n) == v
    ensures |T| <= if v <= 1 then 3 else 2
  {
    var slots := set n | n in T :: n % RING + 1;
    forall s <- slots ensures 0 <= s < 0 + M && Output(s) == v {}
    OutputRepeats(slots, 0, v);
    forall a, b | a in T && b in T && a % RING + 1 == b % RING + 1 ensures a == b {
      var d := if a < b then b - a else a - b;
      CongruentIffDivides(a, b, RING);
      CongruentIffDivides(b, a, RING);
      SmallMod(d, RING);
    }
    ImageSize(T, slots);
  }

  lemma {:induction false} ImageSize(T: set<nat>, slots: set<nat>)
    requires slots == set n | n in T :: n % RING + 1
    requires forall a, b | a in T && b in T && a % RING + 1 == b % RING + 1 :: a == b
    ensures |T| == |slots|
    decreases T
  {
    if T != {} {
      var n :| n in T;
      var rest := set m | m in T - {n} :: m % RING + 1;
      assert slots == rest + {n % RING + 1} by {
        assert T == (T - {n}) + {n};
      }
      assert n % RING + 1 !in rest;
      ImageSize(T - {n}, rest);
    }
  }
}
