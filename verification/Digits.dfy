/** Truncated p-adic numbers: little-endian digit vectors, their value, valuation and balls. */
module Digits {
  import opened Common
  import opened Arithmetic

  datatype QpDigits = QpDigits(p: nat, digits: seq<Byte>)

  /** The primes a byte digit can carry. */
  predicate GoodBase(p: int) { 2 <= p <= 256 }

  ghost function Value(p: nat, ds: seq<int>): int {
    if ds == [] then 0 else ds[0] + p * Value(p, ds[1..])
  }

  ghost predicate Canonical(p: nat, ds: seq<int>) {
    forall i :: 0 <= i < |ds| ==> 0 <= ds[i] < p
  }

  /** The reference reading of a number: its `n` lowest base-`p` digits. */
  function DigitsOf(x: nat, p: nat, n: nat): (ds: seq<Byte>)
    requires GoodBase(p)
    ensures |ds| == n && Canonical(p, ds)
    decreases n
  {
    if n == 0 then [] else [x % p] + DigitsOf(x / p, p, n - 1)
  }

  lemma ValueStep(p: nat, ds: seq<int>)
    requires ds != []
    ensures Value(p, ds) == ds[0] + p * Value(p, ds[1..])
  {
  }

  lemma {:induction false} ValueSnoc(p: nat, ds: seq<int>, d: int)
    ensures Value(p, ds + [d]) == Value(p, ds) + d * Pow(p, |ds|)
  {
    if ds == [] {
      assert [d][1..] == [];
      assert Value(p, [d]) == d + p * Value(p, []);
    } else {
      ValueSnoc(p, ds[1..], d);
      ValueStep(p, ds);
      ValueStep(p, ds + [d]);
      PowStep(p, |ds|);
      hide Value, Pow;
      assert (ds + [d])[1..] == ds[1..] + [d];
      Distribute(p, Value(p, ds[1..]), d, Pow(p, |ds| - 1));
    }
  }

  lemma {:induction false} ValueSplit(p: nat, ds: seq<int>, i: nat)
    requires i <= |ds|
    ensures Value(p, ds) == Value(p, ds[..i]) + Pow(p, i) * Value(p, ds[i..])
  {
    if i == 0 {
      assert ds[0..] == ds;
      assert Pow(p, 0) * Value(p, ds) == Value(p, ds);
    } else {
      ValueSplit(p, ds[1..], i - 1);
      ValueStep(p, ds);
      ValueStep(p, ds[..i]);
      PowStep(p, i);
      hide Value, Pow;
      assert ds[..i][1..] == ds[1..][..i - 1] && ds[1..][i - 1..] == ds[i..];
      Distribute(p, Value(p, ds[..i][1..]), Pow(p, i - 1), Value(p, ds[i..]));
      Associate(p, Pow(p, i - 1), Value(p, ds[i..]));
      Associate(Pow(p, i - 1), p, Value(p, ds[i..]));
    }
  }

  lemma {:induction false} ValueUpdate(p: nat, ds: seq<int>, k: nat, x: int)
    requires k < |ds|
    ensures Value(p, ds[k := ds[k] + x]) == Value(p, ds) + x * Pow(p, k)
  {
    var ds' := ds[k := ds[k] + x];
    if k == 0 {
      assert ds'[1..] == ds[1..];
    } else {
      ValueUpdate(p, ds[1..], k - 1, x);
      ValueStep(p, ds);
      ValueStep(p, ds');
      PowStep(p, k);
      hide Value, Pow;
      assert ds'[1..] == ds[1..][k - 1 := ds[1..][k - 1] + x];
      Distribute(p, Value(p, ds[1..]), x, Pow(p, k - 1));
    }
  }

  lemma {:induction false} ValueZeros(p: nat, ds: seq<int>)
    requires forall i :: 0 <= i < |ds| ==> ds[i] == 0
    ensures Value(p, ds) == 0
  {
    if ds != [] {
      ValueZeros(p, ds[1..]);
    }
  }

  lemma DigitBound(p: nat, d: nat, v: nat, w: nat)
    requires d < p && v < w
    ensures 0 <= d + p * v < p * w
  {
    MulMonotone(0, v, p);
    MulMonotone(v + 1, w, p);
  }

  lemma {:induction false} ValueBound(p: nat, ds: seq<int>)
    requires p >= 1 && Canonical(p, ds)
    ensures 0 <= Value(p, ds) < Pow(p, |ds|)
  {
    if ds != [] {
      ValueBound(p, ds[1..]);
      ValueStep(p, ds);
      PowStep(p, |ds|);
      hide Value, Pow;
      DigitBound(p, ds[0], Value(p, ds[1..]), Pow(p, |ds| - 1));
    }
  }

  lemma {:induction false} ValueNonNegative(p: nat, ds: seq<Byte>)
    ensures Value(p, ds) >= 0
  {
    if ds != [] {
      ValueNonNegative(p, ds[1..]);
      MulMonotone(0, Value(p, ds[1..]), p);
    }
  }

  /** Digit vectors of one length are determined by their value: canonical forms are unique. */
  lemma {:induction false} CanonicalUnique(p: nat, a: seq<int>, b: seq<int>)
    requires p >= 1 && |a| == |b| && Canonical(p, a) && Canonical(p, b)
    requires Value(p, a) == Value(p, b)
    ensures a == b
  {
    if a != [] {
      var va, vb := Value(p, a[1..]), Value(p, b[1..]);
      assert (va - vb) * p == b[0] - a[0] by {
        assert (va - vb) * p == p * va - p * vb;
      }
      SmallMultiple(va - vb, p, b[0] - a[0]);
      CanonicalUnique(p, a[1..], b[1..]);
      assert a == [a[0]] + a[1..] && b == [b[0]] + b[1..];
    }
  }

  lemma RemainderStepEquation(p: nat, m: nat, y: nat, d: nat, q: nat, r: nat)
    requires y == q * m + r
    ensures p * y + d == (d + p * r) + q * (p * m)
  {
    Distribute(p, r, q, m);
  }

  /** Peeling the lowest digit off a remainder. */
  lemma RemainderStep(x: nat, p: nat, m: nat)
    requires p >= 1 && m >= 1
    ensures p * m >= 1
    ensures x % (p * m) == x % p + p * ((x / p) % m)
  {
    var y := x / p;
    var d, q, r := x % p, y / m, y % m;
    MulMonotone(1, p, m);
    DigitBound(p, d, r, m);
    RemainderStepEquation(p, m, y, d, q, r);
    RemainderUnique(x, d + p * r, q, p * m);
  }

  /** `DigitsOf` is the canonical form of the residue modulo `p^n`. */
  lemma {:induction false} DigitsOfValue(x: nat, p: nat, n: nat)
    requires GoodBase(p)
    ensures Pow(p, n) >= 1
    ensures Value(p, DigitsOf(x, p, n)) == x % Pow(p, n)
    decreases n
  {
    PowPositive(p, n);
    if n == 0 {
      assert Value(p, DigitsOf(x, p, 0)) == 0;
    } else {
      DigitsOfValue(x / p, p, n - 1);
      assert DigitsOf(x, p, n)[1..] == DigitsOf(x / p, p, n - 1);
      RemainderStep(x, p, Pow(p, n - 1));
    }
  }

  /** Any canonical vector with the right residue is the one `DigitsOf` names. */
  lemma IsDigitsOf(ds: seq<Byte>, x: nat, p: nat, n: nat, k: int)
    requires GoodBase(p) && |ds| == n && Canonical(p, ds)
    requires x == Value(p, ds) + k * Pow(p, n)
    ensures ds == DigitsOf(x, p, n)
  {
    DigitsOfValue(x, p, n);
    ValueBound(p, ds);
    RemainderUnique(x, Value(p, ds), k, Pow(p, n));
    CanonicalUnique(p, ds, DigitsOf(x, p, n));
  }

  lemma DigitsOfResidue(x: nat, y: nat, p: nat, n: nat)
    requires GoodBase(p) && Pow(p, n) >= 1 && x % Pow(p, n) == y % Pow(p, n)
    ensures DigitsOf(x, p, n) == DigitsOf(y, p, n)
  {
    DigitsOfValue(x, p, n);
    DigitsOfValue(y, p, n);
    CanonicalUnique(p, DigitsOf(x, p, n), DigitsOf(y, p, n));
  }

  /** The constructor loop stops at a zero quotient and pads; it still yields the `n` low digits. */
  lemma DigitsOfStep(v: nat, p: nat, n: nat, pre: seq<Byte>)
    requires GoodBase(p) && n > 0
    ensures v / p >= 0
    ensures pre + DigitsOf(v, p, n) == (pre + [v % p]) + DigitsOf(v / p, p, n - 1)
  {
  }

  method FromU64(value: nat, p: nat, precision: nat) returns (r: QpDigits)
    requires GoodBase(p)
    ensures r == QpDigits(p, DigitsOf(value, p, precision))
  {
    hide DigitsOf;
    var digits: seq<Byte> := [];
    var v: nat := value;
    ghost var all := DigitsOf(value, p, precision);
    var i := 0;
    while i < precision
      invariant 0 <= i <= precision && |digits| == i
      invariant all == digits + DigitsOf(v, p, precision - i)
    {
      DigitsOfStep(v, p, precision - i, digits);
      digits := digits + [v % p];
      v := v / p;
      i := i + 1;
      if v == 0 {
        break;
      }
    }
    while |digits| < precision
      invariant |digits| <= precision
      invariant all == digits + DigitsOf(0, p, precision - |digits|)
    {
      DigitsOfStep(0, p, precision - |digits|, digits);
      assert 0 / p == 0 && 0 % p == 0;
      digits := digits + [0];
    }
    r := QpDigits(p, digits);
  }

  // ----- machine integers as bytes

  /** `to_le_bytes`: a base-256 digit vector. */
  function BytesLE(x: nat, n: nat): (bytes: seq<Byte>)
    ensures |bytes| == n
  {
    DigitsOf(x, 256, n)
  }

  lemma BytesRoundTrip(x: nat, n: nat)
    requires x < Pow(256, n)
    ensures Value(256, BytesLE(x, n)) == x
  {
    DigitsOfValue(x, 256, n);
    RemainderUnique(x, x, 0, Pow(256, n));
  }

  lemma EightBytes()
    ensures Pow(256, 8) == U64_LIMIT
  {
    assert Pow(256, 4) == 0x1_0000_0000;
    PowAdd(256, 4, 4);
  }
}
