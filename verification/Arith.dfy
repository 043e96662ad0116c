/** Division and remainder facts the other modules share. */
module Arith {
  lemma ModShift(y: int, k: int, p: nat)
    requires p > 0
    ensures (y + k * p) % p == y % p
  {
    var q, r := y / p, y % p;
    assert y + k * p == p * (q + k) + r by {
      assert p * (q + k) == p * q + p * k;
    }
    DivModUnique(y + k * p, p, q + k, r);
  }

  lemma DivModUnique(x: int, p: nat, q: int, r: int)
    requires p > 0 && x == p * q + r && 0 <= r < p
    ensures x / p == q && x % p == r
  {
    var d := x / p - q;
    assert p * d == r - x % p by {
      assert p * (x / p - q) == p * (x / p) - p * q;
    }
    if d >= 1 { MulAtLeast(p, d); } else if d <= -1 { MulAtLeast(p, -d); }
  }

  lemma MulAtLeast(p: nat, d: int)
    requires d >= 1
    ensures p * d >= p
  {
    assert p * (d - 1) >= 0;
  }

  lemma DoubleMod(z: int, p: nat)
    requires p > 0
    ensures (2 * z) % (2 * p) == 2 * (z % p)
  {
    var q := z / p;
    assert 2 * z == (2 * p) * q + 2 * (z % p) by {
      assert z == p * q + z % p;
      assert (2 * p) * q == 2 * (p * q);
    }
    DivModUnique(2 * z, 2 * p, q, 2 * (z % p));
  }

  lemma ModMod(x: int, p: nat, k: nat)
    requires p > 0 && k > 0
    ensures p * k > 0 && (x % (p * k)) % p == x % p
  {
    assert p * k > 0 by { assert p * (k - 1) >= 0; }
    var q, r := x / (p * k), x % (p * k);
    assert x == r + (q * k) * p by { assert (p * k) * q == (q * k) * p; }
    ModShift(r, q * k, p);
  }

  /** Congruence modulo p is divisibility of the difference. */
  lemma CongruentIffDivides(x: int, y: int, p: nat)
    requires p > 0
    ensures x % p == y % p <==> (x - y) % p == 0
  {
    var qx, qy, d := x / p, y / p, (x - y) / p;
    if x % p == y % p {
      assert x - y == 0 + (qx - qy) * p by { assert (qx - qy) * p == p * qx - p * qy; }
      ModShift(0, qx - qy, p);
    }
    if (x - y) % p == 0 {
      assert x == y + d * p;
      ModShift(y, d, p);
    }
  }

  lemma SmallMod(x: nat, p: nat)
    requires x < p
    ensures x % p == x
  {
  }

  /** Counting up by one modulo p. */
  lemma ModSuccessor(n: nat, p: nat)
    requires p > 0
    ensures (n + 1) % p == if n % p + 1 == p then 0 else n % p + 1
  {
    var q, r := n / p, n % p;
    if r + 1 == p {
      assert n + 1 == p * (q + 1) + 0 by { assert p * (q + 1) == p * q + p; }
      DivModUnique(n + 1, p, q + 1, 0);
    } else {
      DivModUnique(n + 1, p, q, r + 1);
    }
  }

  lemma WrapInjective(base: nat, x: nat, y: nat, m: nat)
    requires m > 0 && x < m && y < m && (base + x) % m == (base + y) % m
    ensures x == y
  {
    if x < y {
      CongruentIffDivides(base + y, base + x, m);
      SmallMod(y - x, m);
    } else if y < x {
      CongruentIffDivides(base + x, base + y, m);
      SmallMod(x - y, m);
    }
  }

  lemma MulMonotone(a: int, b: int, k: nat)
    requires a <= b
    ensures a * k <= b * k
  {
    assert (b - a) * k >= 0;
  }

  lemma MulSplit(k: int, a: int, b: int)
    ensures k * (a + b) == k * a + k * b
  {
  }

  lemma MulCancel(a: int, b: int, k: nat)
    requires a * k <= b * k && k > 0
    ensures a <= b
  {
    if a > b {
      MulMonotone(b + 1, a, k);
      MulSplit(k, b, 1);
    }
  }

  lemma DivAtLeast(v: nat, h: nat, k: nat)
    requires h > 0 && k * h <= v
    ensures k <= v / h
  {
    var q, r := v / h, v % h;
    assert v == h * q + r;
    if q < k {
      MulMonotone(q + 1, k, h);
      MulSplit(h, q, 1);
    }
  }

  lemma QuotientGrows(w: nat, v: nat, h: nat)
    requires h > 0 && v >= w + h
    ensures w / h < v / h
  {
    var q, r := w / h, w % h;
    assert w == h * q + r;
    MulSplit(h, q, 1);
    DivAtLeast(v, h, q + 1);
  }

  /** Scaling and dividing modulo m gives the exact quotient just when the scaled value fits. */
  lemma ScaledExact(d: nat, k: nat, m: nat, h: nat)
    requires 0 < h <= m
    ensures (d % m * k) % m / h == d * k / h <==> d * k < m
  {
    var v := d * k;
    ScaledMod(d, k, m);
    if v < m {
      SmallMod(v, m);
    } else {
      var q, r := v / m, v % m;
      assert v == m * q + r;
      assert q >= 1 by { if q <= 0 { MulMonotone(q, 0, m); } }
      MulAtLeast(m, q);
      QuotientGrows(r, v, h);
    }
  }

  lemma ScaledMod(d: nat, k: nat, m: nat)
    requires m > 0
    ensures (d % m * k) % m == (d * k) % m
  {
    var q, r := d / m, d % m;
    assert d * k == r * k + (q * k) * m by { ScaledSplit(q, r, k, m); }
    ModShift(r * k, q * k, m);
  }

  lemma ScaledSplit(q: nat, r: nat, k: nat, m: nat)
    ensures (m * q + r) * k == r * k + (q * k) * m
  {
  }
}
