/** Powers and residues, as far as the p-adic modules need them. */
module Arithmetic {
  function Pow(b: int, e: nat): int {
    if e == 0 then 1 else b * Pow(b, e - 1)
  }

  lemma PowStep(b: int, e: nat)
    requires e > 0
    ensures Pow(b, e) == b * Pow(b, e - 1)
  {
  }

  /** The ring facts the proofs below call on, kept apart from the recursive definitions. */
  lemma Distribute(p: int, v: int, d: int, w: int)
    ensures p * (v + d * w) == p * v + d * (p * w)
  {
    assert p * (d * w) == d * (p * w);
  }

  lemma Associate(a: int, b: int, c: int)
    ensures a * (b * c) == (a * b) * c
  {
  }

  lemma Factor(m: int, x: int, y: int, c: int, a: int, b: int)
    requires a == c + m * x && b == c + m * y
    ensures a - b == (x - y) * m
  {
  }

  lemma MulMonotone(x: int, y: int, z: int)
    requires x <= y && 0 <= z
    ensures x * z <= y * z
  {
  }

  lemma {:induction false} PowPositive(b: int, e: nat)
    requires b >= 1
    ensures Pow(b, e) >= 1
  {
    if e > 0 {
      PowPositive(b, e - 1);
      MulMonotone(1, b, Pow(b, e - 1));
    }
  }

  lemma {:induction false} PowAdd(b: int, m: nat, n: nat)
    ensures Pow(b, m + n) == Pow(b, m) * Pow(b, n)
  {
    if m > 0 {
      PowAdd(b, m - 1, n);
      PowStep(b, m);
      PowStep(b, m + n);
      hide Pow;
      Associate(b, Pow(b, m - 1), Pow(b, n));
    }
  }

  /** Powers of powers multiply exponents, so their order does not matter. */
  lemma {:induction false} PowPow(b: int, m: nat, n: nat)
    ensures 0 <= m * n
    ensures Pow(Pow(b, m), n) == Pow(b, m * n)
  {
    if n == 0 {
      assert m * n == 0;
    } else {
      PowPow(b, m, n - 1);
      assert m * n == m + m * (n - 1);
      PowAdd(b, m, m * (n - 1));
    }
  }

  lemma {:induction false} PowStrict(b: int, m: nat, n: nat)
    requires b >= 2 && m < n
    ensures Pow(b, m) < Pow(b, n)
  {
    PowPositive(b, n - 1);
    assert 2 * Pow(b, n - 1) <= b * Pow(b, n - 1);
    if m < n - 1 {
      PowStrict(b, m, n - 1);
    }
  }

  lemma SmallMultiple(k: int, m: int, r: int)
    requires m >= 1 && k * m == r && -m < r < m
    ensures k == 0 && r == 0
  {
    if k >= 1 {
      MulMonotone(1, k, m);
    } else if k <= -1 {
      MulMonotone(k, -1, m);
    }
  }

  /** `x` and `y` differ by a multiple of `m`, so they leave the same remainder. */
  lemma SameRemainder(x: int, y: int, k: int, m: int)
    requires m >= 1 && x == y + k * m
    ensures x % m == y % m
  {
    var qx, rx := x / m, x % m;
    var qy, ry := y / m, y % m;
    assert x == qx * m + rx;
    assert y == qy * m + ry;
    assert (qx - qy - k) * m == ry - rx;
    SmallMultiple(qx - qy - k, m, ry - rx);
  }

  lemma RemainderUnique(x: int, r: int, k: int, m: int)
    requires 0 <= r < m && x == r + k * m
    ensures x % m == r
  {
    var q := x / m;
    assert x == q * m + x % m;
    assert (q - k) * m == r - x % m;
    SmallMultiple(q - k, m, r - x % m);
  }

  lemma ModMod(x: int, m: int)
    requires m >= 1
    ensures (x % m) % m == x % m
  {
    RemainderUnique(x % m, x % m, 0, m);
  }

  lemma MulMod(x: int, y: int, m: int)
    requires m >= 1
    ensures ((x % m) * y) % m == (x * y) % m
  {
    var q := x / m;
    assert x == q * m + x % m;
    assert x * y == (x % m) * y + (q * y) * m;
    SameRemainder(x * y, (x % m) * y, q * y, m);
  }

  lemma MulModBoth(x: int, x': int, y: int, m: int)
    requires m >= 1 && x % m == x' % m
    ensures (x * y) % m == (x' * y) % m
  {
    MulMod(x, y, m);
    MulMod(x', y, m);
  }

  lemma {:induction false} PowMod(x: int, e: nat, m: int)
    requires m >= 1
    ensures Pow(x % m, e) % m == Pow(x, e) % m
  {
    if e > 0 {
      PowMod(x, e - 1, m);
      var u, v := Pow(x % m, e - 1), Pow(x, e - 1);
      assert Pow(x % m, e) == (x % m) * u && Pow(x, e) == x * v;
      MulMod(x, u, m);
      MulModBoth(u, v, x, m);
      assert x * u == u * x && x * v == v * x;
    }
  }
}
