/** Digit-wise valuation and ball identifiers, and why they form an ultrametric. */
module Ultrametric {
  import opened Common
  import opened Arithmetic
  import opened Digits

  function Min(a: int, b: int): int { if a < b then a else b }

  function Max(a: int, b: int): int { if a < b then b else a }

  /** Digits past the end of a vector read as zero. */
  function DigitAt(x: seq<Byte>, i: nat): Byte {
    if i < |x| then x[i] else 0
  }

  function FirstDifference(x: seq<Byte>, y: seq<Byte>, i: nat): (v: nat)
    requires i <= Max(|x|, |y|)
    ensures i <= v <= Max(|x|, |y|)
    ensures forall j :: i <= j < v ==> DigitAt(x, j) == DigitAt(y, j)
    ensures v < Max(|x|, |y|) ==> DigitAt(x, v) != DigitAt(y, v)
    decreases Max(|x|, |y|) - i
  {
    if i == Max(|x|, |y|) || DigitAt(x, i) != DigitAt(y, i) then i else FirstDifference(x, y, i + 1)
  }

  /** The valuation of a difference: the first index where the zero-padded digits differ. */
  function VpDiff(x: seq<Byte>, y: seq<Byte>): nat {
    FirstDifference(x, y, 0)
  }

  method ComputeVpDiff(x: seq<Byte>, y: seq<Byte>) returns (v: nat)
    ensures v == VpDiff(x, y)
  {
    var maxLen := Max(|x|, |y|);
    for i := 0 to maxLen
      invariant VpDiff(x, y) == FirstDifference(x, y, i)
    {
      if DigitAt(x, i) != DigitAt(y, i) {
        return i;
      }
    }
    return maxLen;
  }

  function BallId(x: seq<Byte>, radius: nat): seq<Byte> {
    x[..Min(radius, |x|)]
  }

  // ----- the valuation is the p-adic one

  ghost function PadTo(x: seq<Byte>, n: nat): (pad: seq<Byte>)
    ensures |pad| == n && forall i :: 0 <= i < n ==> pad[i] == DigitAt(x, i)
  {
    seq(n, i requires 0 <= i < n => DigitAt(x, i))
  }

  lemma {:induction false} PadKeepsValue(p: nat, x: seq<Byte>, n: nat)
    requires |x| <= n
    ensures Value(p, PadTo(x, n)) == Value(p, x)
  {
    var pad := PadTo(x, n);
    ValueSplit(p, pad, |x|);
    assert pad[..|x|] == x;
    ValueZeros(p, pad[|x|..]);
    assert Pow(p, |x|) * 0 == 0;
  }

  /** Equal low digits factor out of a difference. */
  lemma CommonLowDigits(p: nat, a: seq<int>, b: seq<int>, v: nat) returns (hi: int)
    requires v <= |a| == |b| && a[..v] == b[..v]
    ensures hi == Value(p, a[v..]) - Value(p, b[v..])
    ensures Value(p, a) - Value(p, b) == hi * Pow(p, v)
  {
    ValueSplit(p, a, v);
    ValueSplit(p, b, v);
    hide Value, Pow;
    hi := Value(p, a[v..]) - Value(p, b[v..]);
    Factor(Pow(p, v), Value(p, a[v..]), Value(p, b[v..]), Value(p, a[..v]), Value(p, a), Value(p, b));
  }

  /** The first unequal digit is what is left of a difference modulo `p`. */
  lemma LeadingDigit(p: nat, a: seq<int>, b: seq<int>) returns (d: int, k: int)
    requires GoodBase(p) && |a| == |b| && Canonical(p, a) && Canonical(p, b)
    requires a == [] || a[0] != b[0]
    ensures Value(p, a) - Value(p, b) == d + k * p
    ensures d < p && -d < p && (d == 0 <==> a == []) && (d == 0 ==> k == 0)
  {
    if a == [] {
      d, k := 0, 0;
    } else {
      ValueStep(p, a);
      ValueStep(p, b);
      hide Value, GoodBase;
      d, k := a[0] - b[0], Value(p, a[1..]) - Value(p, b[1..]);
      Factor(p, Value(p, a[1..]), Value(p, b[1..]), 0, Value(p, a) - a[0], Value(p, b) - b[0]);
    }
  }

  ghost predicate DivisibleByPow(p: nat, e: nat, x: int) {
    Pow(p, e) >= 1 && x % Pow(p, e) == 0
  }

  lemma NotDivisible(p: nat, m: nat, d: int, k: int, hi: int)
    requires p >= 2 && m >= 1 && d != 0 && d < p && -d < p && hi == d + k * p
    ensures p * m >= 1 && (hi * m) % (p * m) != 0
  {
    MulMonotone(1, p, m);
    if (hi * m) % (p * m) == 0 {
      var q := (hi * m) / (p * m);
      assert hi * m == (p * m) * q;
      assert (hi - p * q) * m == 0 by {
        assert (p * m) * q == (p * q) * m;
      }
      SmallMultiple(hi - p * q, m, 0);
      assert (q - k) * p == d by {
        assert (q - k) * p == p * q - p * k;
      }
      SmallMultiple(q - k, p, d);
    }
  }

  lemma MultipleExactly(p: nat, m: nat, d: int, k: int, hi: int, diff: int)
    requires p >= 2 && m >= 1 && p * m >= 1 && d < p && -d < p && hi == d + k * p && diff == hi * m
    requires d == 0 ==> k == 0
    ensures diff % m == 0
    ensures diff % (p * m) == 0 <==> d == 0
  {
    RemainderUnique(diff, 0, hi, m);
    if d == 0 {
      assert hi == 0 && diff == 0;
    } else {
      NotDivisible(p, m, d, k, hi);
    }
  }

  lemma DivisibleExactly(p: nat, v: nat, d: int, k: int, hi: int, diff: int)
    requires p >= 2 && d < p && -d < p && hi == d + k * p && diff == hi * Pow(p, v)
    requires d == 0 ==> k == 0
    ensures DivisibleByPow(p, v, diff)
    ensures DivisibleByPow(p, v + 1, diff) <==> d == 0
  {
    hide Pow;
    PowPositive(p, v);
    PowStep(p, v + 1);
    MulMonotone(1, p, Pow(p, v));
    MultipleExactly(p, Pow(p, v), d, k, hi, diff);
  }

  lemma EqualLengthValuation(p: nat, a: seq<Byte>, b: seq<Byte>, v: nat)
    requires GoodBase(p) && Canonical(p, a) && Canonical(p, b)
    requires v <= |a| == |b| && a[..v] == b[..v] && (v < |a| ==> a[v] != b[v])
    ensures DivisibleByPow(p, v, Value(p, a) - Value(p, b))
    ensures DivisibleByPow(p, v + 1, Value(p, a) - Value(p, b)) <==> v == |a|
  {
    hide Value, Pow, DivisibleByPow;
    var hi := CommonLowDigits(p, a, b, v);
    assert Canonical(p, a[v..]) && Canonical(p, b[v..]);
    var d, k := LeadingDigit(p, a[v..], b[v..]);
    DivisibleExactly(p, v, d, k, hi, Value(p, a) - Value(p, b));
  }

  /** `p^v` divides the difference of the two numbers and, below the precision, `p^(v+1)` does not. */
  lemma VpDiffIsValuation(p: nat, x: seq<Byte>, y: seq<Byte>)
    requires GoodBase(p) && Canonical(p, x) && Canonical(p, y)
    ensures DivisibleByPow(p, VpDiff(x, y), Value(p, x) - Value(p, y))
    ensures DivisibleByPow(p, VpDiff(x, y) + 1, Value(p, x) - Value(p, y)) <==> VpDiff(x, y) == Max(|x|, |y|)
  {
    hide Value, Pow, DivisibleByPow, PadTo;
    var n, v := Max(|x|, |y|), VpDiff(x, y);
    var a, b := PadTo(x, n), PadTo(y, n);
    PadKeepsValue(p, x, n);
    PadKeepsValue(p, y, n);
    assert a[..v] == b[..v];
    EqualLengthValuation(p, a, b, v);
  }

  /** The strong triangle inequality, for a middle point no longer than the outer two. */
  lemma StrongTriangle(x: seq<Byte>, y: seq<Byte>, z: seq<Byte>)
    requires |y| <= Max(|x|, |z|)
    ensures VpDiff(x, z) >= Min(VpDiff(x, y), VpDiff(y, z))
  {
    var v := VpDiff(x, z);
    if v < Max(|x|, |z|) && v < Min(VpDiff(x, y), VpDiff(y, z)) {
      assert false;
    }
  }

  /** All three read alike up to and including the first position past the outer two. */
  predicate AlikeThrough(x: seq<Byte>, y: seq<Byte>, z: seq<Byte>, n: nat) {
    forall i :: 0 <= i <= n ==> DigitAt(x, i) == DigitAt(y, i) == DigitAt(z, i)
  }

  /** In general it fails exactly for a middle point longer than both that reads like them through their end. */
  lemma StrongTriangleExactly(x: seq<Byte>, y: seq<Byte>, z: seq<Byte>)
    ensures VpDiff(x, z) >= Min(VpDiff(x, y), VpDiff(y, z)) <==>
            !(|y| > Max(|x|, |z|) && AlikeThrough(x, y, z, Max(|x|, |z|)))
  {
    var m := Max(|x|, |z|);
    var v := VpDiff(x, z);
    if |y| <= m {
      StrongTriangle(x, y, z);
    } else if AlikeThrough(x, y, z, m) {
      assert VpDiff(x, y) > m && VpDiff(y, z) > m;
    } else {
      var i :| 0 <= i <= m && !(DigitAt(x, i) == DigitAt(y, i) == DigitAt(z, i));
      assert v < m ==> DigitAt(x, v) != DigitAt(z, v);
      assert Min(VpDiff(x, y), VpDiff(y, z)) <= i;
    }
  }

  /** So zero padding makes `[0, 0]` closer to `[0]` than `[0]` is to itself. */
  lemma StrongTriangleNeedsLength()
    ensures VpDiff([0], [0]) < Min(VpDiff([0], [0, 0]), VpDiff([0, 0], [0]))
  {
    assert AlikeThrough([0], [0, 0], [0], 1);
    StrongTriangleExactly([0], [0, 0], [0]);
  }

  // ----- balls

  /** For vectors of any lengths: one ball id exactly when they are equally long within the radius and their difference
      has that valuation. */
  lemma BallExactly(x: seq<Byte>, y: seq<Byte>, r: nat)
    ensures BallId(x, r) == BallId(y, r) <==> Min(r, |x|) == Min(r, |y|) && VpDiff(x, y) >= Min(r, |x|)
  {
    var n, v := Min(r, |x|), VpDiff(x, y);
    if n == Min(r, |y|) {
      if v < n {
        assert BallId(x, r)[v] == x[v] != y[v] == BallId(y, r)[v];
      } else {
        forall i | 0 <= i < n ensures x[i] == y[i] {
          assert DigitAt(x, i) == DigitAt(y, i);
        }
      }
    } else {
      assert |BallId(x, r)| != |BallId(y, r)|;
    }
  }

  /** Two points share the ball of radius `r` exactly when their difference has valuation at least `r`. */
  lemma BallIffValuation(x: seq<Byte>, y: seq<Byte>, r: nat)
    requires |x| == |y| && r <= |x|
    ensures BallId(x, r) == BallId(y, r) <==> VpDiff(x, y) >= r
  {
    var v := VpDiff(x, y);
    if v < r {
      assert BallId(x, r)[v] == x[v] != y[v] == BallId(y, r)[v];
    } else {
      forall i | 0 <= i < r ensures x[i] == y[i] {
        assert DigitAt(x, i) == DigitAt(y, i);
      }
    }
  }

  /** One direction survives unequal lengths, as long as both vectors reach the radius. */
  lemma CloseMeansSameBall(x: seq<Byte>, y: seq<Byte>, r: nat)
    requires r <= |x| && r <= |y| && VpDiff(x, y) >= r
    ensures BallId(x, r) == BallId(y, r)
  {
    forall i | 0 <= i < r ensures x[i] == y[i] {
      assert DigitAt(x, i) == DigitAt(y, i);
    }
  }

  ghost predicate InBall(centre: seq<Byte>, r: nat, x: seq<Byte>) {
    |x| == |centre| && VpDiff(x, centre) >= r
  }

  lemma Symmetric(x: seq<Byte>, y: seq<Byte>)
    ensures VpDiff(x, y) == VpDiff(y, x)
  {
    var v, w := VpDiff(x, y), VpDiff(y, x);
    if v < w {
      assert false;
    } else if w < v {
      assert false;
    }
  }

  /** Every point of a ball is a centre of it. */
  lemma EveryPointIsACentre(c: seq<Byte>, d: seq<Byte>, r: nat)
    requires InBall(c, r, d)
    ensures forall x :: InBall(c, r, x) <==> InBall(d, r, x)
  {
    forall x ensures InBall(c, r, x) <==> InBall(d, r, x) {
      if |x| == |c| {
        Symmetric(c, d);
        StrongTriangle(x, d, c);
        StrongTriangle(x, c, d);
      }
    }
  }

  /** Balls of any two radii are nested or disjoint. */
  lemma BallsNestedOrDisjoint(c: seq<Byte>, r: nat, d: seq<Byte>, s: nat)
    requires r <= s
    ensures (forall x :: InBall(d, s, x) ==> InBall(c, r, x)) || (forall x :: InBall(d, s, x) ==> !InBall(c, r, x))
  {
    if x :| InBall(d, s, x) && InBall(c, r, x) {
      EveryPointIsACentre(c, x, r);
      EveryPointIsACentre(d, x, s);
      forall y | InBall(d, s, y) ensures InBall(c, r, y) {
        assert InBall(x, s, y);
        assert InBall(x, r, y);
      }
    }
  }

  // ----- the Python simulator's twin

  function CommonPrefix(x: seq<Byte>, y: seq<Byte>, i: nat): (v: nat)
    requires i <= Min(|x|, |y|)
    ensures i <= v <= Min(|x|, |y|)
    ensures forall j :: i <= j < v ==> x[j] == y[j]
    ensures v < Min(|x|, |y|) ==> x[v] != y[v]
    decreases Min(|x|, |y|) - i
  {
    if i == Min(|x|, |y|) || x[i] != y[i] then i else CommonPrefix(x, y, i + 1)
  }

  /** The simulator compares only the common prefix instead of padding. */
  function SimulatorVpDiff(x: seq<Byte>, y: seq<Byte>): nat {
    CommonPrefix(x, y, 0)
  }

  /** The two implementations agree except when the shorter vector is a prefix and the longer goes on with a zero. */
  lemma SimulatorAgrees(x: seq<Byte>, y: seq<Byte>)
    ensures SimulatorVpDiff(x, y) == VpDiff(x, y) <==>
            (|x| == |y| || SimulatorVpDiff(x, y) < Min(|x|, |y|)
             || DigitAt(x, Min(|x|, |y|)) != 0 || DigitAt(y, Min(|x|, |y|)) != 0)
  {
    var s, v, m := SimulatorVpDiff(x, y), VpDiff(x, y), Min(|x|, |y|);
    if s < m {
      assert DigitAt(x, s) != DigitAt(y, s);
      if v < s {
        assert false;
      }
    } else {
      if v < m {
        assert false;
      }
      if v == m && |x| != |y| {
        assert DigitAt(x, m) != DigitAt(y, m);
      }
    }
  }
}
