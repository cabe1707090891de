/** Multiplication and exponentiation of digit vectors, and the key exchange built on them. */
module PadicCrypto {
  import opened Common
  import opened Arithmetic
  import opened Digits
  import opened Ultrametric

  // The accumulators of the multiplication are `U64`s: a value of that type cannot have overflowed.

  /** Vectors of up to 2^46 digits; a longer accumulator would need half a petabyte. */
  const MAX_PRECISION: int := 0x4000_0000_0000

  // ----- the exponent that square-and-multiply really uses

  /** Number of squarings spent on one exponent digit: a zero digit still costs one. */
  function BitLength(d: nat): (n: nat)
    ensures n >= 1
  {
    if d <= 1 then 1 else 1 + BitLength(d / 2)
  }

  /** The bits of one digit below the number `high` formed by the digits after it. */
  ghost function ReadBits(bits: nat, high: nat): nat {
    if bits <= 1 then bits + 2 * high else bits % 2 + 2 * ReadBits(bits / 2, high)
  }

  /** Binary reading of a digit vector in which each digit occupies as many bits as it needs. */
  ghost function MixedExponent(ds: seq<Byte>): nat {
    if ds == [] then 0 else ReadBits(ds[0], MixedExponent(ds[1..]))
  }

  /** Closed form: the digit, plus the later digits shifted by the digit's bit length. */
  lemma {:induction false} ReadBitsShifts(bits: nat, high: nat)
    ensures ReadBits(bits, high) == bits + Pow(2, BitLength(bits)) * high
  {
    if bits <= 1 {
      PowStep(2, 1);
    } else {
      ReadBitsShifts(bits / 2, high);
      PowStep(2, BitLength(bits));
      Associate(2, Pow(2, BitLength(bits) - 1), high);
    }
  }

  lemma {:induction false} MixedExponentShifts(d: Byte, ds: seq<Byte>)
    ensures MixedExponent([d] + ds) == d + Pow(2, BitLength(d)) * MixedExponent(ds)
  {
    assert ([d] + ds)[1..] == ds;
    ReadBitsShifts(d, MixedExponent(ds));
  }

  /** It is not the base-`p` value: the digits `[0, 1]` read as 2, whatever the prime. */
  lemma MixedExponentIsNotValue(p: nat)
    requires GoodBase(p) && p > 2
    ensures MixedExponent([0, 1]) != Value(p, [0, 1])
  {
    assert [0, 1][1..] == [1] && [1][1..] == [];
    assert MixedExponent([1]) == 1 && MixedExponent([0, 1]) == 2;
    assert Value(p, [1]) == 1 + p * Value(p, []);
    assert Value(p, [0, 1]) == 0 + p * Value(p, [1]);
  }

  /** On bits the two readings are one. */
  lemma {:induction false} BitsReadAsValue(ds: seq<Byte>)
    requires Canonical(2, ds)
    ensures MixedExponent(ds) == Value(2, ds)
  {
    if ds != [] {
      BitsReadAsValue(ds[1..]);
      assert 0 <= ds[0] < 2;
    }
  }

  /** The exponent used is the base-`p` value of every private key exactly when the prime is 2. */
  lemma MixedExponentIsValueExactly(p: nat)
    requires GoodBase(p)
    ensures (forall ds: seq<Byte> :: Canonical(p, ds) ==> MixedExponent(ds) == Value(p, ds)) <==> p == 2
  {
    if p == 2 {
      forall ds: seq<Byte> | Canonical(p, ds) ensures MixedExponent(ds) == Value(p, ds) {
        BitsReadAsValue(ds);
      }
    } else {
      MixedExponentIsNotValue(p);
      var key: seq<Byte> := [0, 1];
      assert Canonical(p, key);
    }
  }

  // ----- multiplication

  lemma ProductStep(pij: int, pi: int, pj: int, x: int, y: int, base: int, v: int, w: int)
    requires pij == pi * pj && v == base + (x * pi) * w
    ensures v + (x * y) * pij == base + (x * pi) * (w + y * pj)
  {
    assert (x * pi) * (y * pj) == (x * y) * (pi * pj) by {
      Associate(x, pi, y * pj);
      Associate(pi, y, pj);
      Associate(y, pi, pj);
      Associate(x, y, pi * pj);
    }
  }

  lemma SmallProduct(a: Byte, b: Byte)
    ensures 0 <= a * b <= 65025
  {
    MulMonotone(a, 255, b);
    MulMonotone(0, a, b);
  }

  lemma RowAlgebra(x: int, pi: int, pj: int, pn: int, low: int, high: int, all: int, lost: int)
    requires all == low + pj * high && pn == pi * pj && lost == -x * high
    ensures (x * pi) * low == (x * pi) * all + lost * pn
  {
    assert (x * pi) * (pj * high) == (x * high) * (pi * pj) by {
      Associate(x * pi, pj, high);
      Associate(x, pi, pj);
      assert (x * (pi * pj)) * high == (x * high) * (pi * pj);
    }
    assert (x * pi) * (low + pj * high) == (x * pi) * low + (x * pi) * (pj * high);
    assert (-x * high) * pn == -((x * high) * pn);
  }

  /** What the convolution of row `i` adds: `a[i] * p^i` times the digits of `b` that still fit. */
  lemma RowDone(p: nat, b: seq<Byte>, i: nat, j: nat, n: nat, x: int) returns (lost: int)
    requires i < n && (j == |b| || (j == n - i && j <= |b|))
    ensures (x * Pow(p, i)) * Value(p, b[..j]) == (x * Pow(p, i)) * Value(p, b) + lost * Pow(p, n)
  {
    if j == |b| {
      assert b[..j] == b;
      lost := 0;
      assert lost * Pow(p, n) == 0;
    } else {
      ValueSplit(p, b, j);
      PowAdd(p, i, j);
      hide Pow, Value;
      lost := -x * Value(p, b[j..]);
      RowAlgebra(x, Pow(p, i), Pow(p, j), Pow(p, n), Value(p, b[..j]), Value(p, b[j..]), Value(p, b), lost);
    }
  }

  lemma SumTimes(x: int, y: int, m: int, z: int)
    requires z == x + y
    ensures z * m == x * m + y * m
  {
  }

  lemma RowAdvances(p: nat, a: seq<Byte>, b: seq<Byte>, i: nat, j: nat, n: nat, before: int, after: int, q: int)
      returns (q': int)
    requires i < |a| && i < n && (j == |b| || (j == n - i && j <= |b|))
    requires before == Value(p, a[..i]) * Value(p, b) + q * Pow(p, n)
    requires after == before + (a[i] * Pow(p, i)) * Value(p, b[..j])
    ensures after == Value(p, a[..i + 1]) * Value(p, b) + q' * Pow(p, n)
  {
    var lost := RowDone(p, b, i, j, n, a[i]);
    assert a[..i + 1] == a[..i] + [a[i]];
    ValueSnoc(p, a[..i], a[i]);
    hide Pow, Value;
    q' := q + lost;
    SumTimes(Value(p, a[..i]), a[i] * Pow(p, i), Value(p, b), Value(p, a[..i + 1]));
    SumTimes(q, lost, Pow(p, n), q');
  }

  /** Rows of `a` past the precision only contribute multiples of `p^n`. */
  lemma RowsCut(p: nat, a: seq<Byte>, i: nat, n: nat, b: int, total: int, q: int) returns (q': int)
    requires i <= |a| && (i == |a| || i == n)
    requires total == Value(p, a[..i]) * b + q * Pow(p, n)
    ensures total == Value(p, a) * b + q' * Pow(p, n)
  {
    if i == |a| {
      assert a[..i] == a;
      q' := q;
    } else {
      ValueSplit(p, a, i);
      hide Pow, Value;
      var high := Value(p, a[i..]);
      q' := q - high * b;
      SumTimes(Value(p, a[..i]), Pow(p, n) * high, b, Value(p, a));
      Associate(Pow(p, n), high, b);
      assert Pow(p, n) * (high * b) == (high * b) * Pow(p, n);
      SumTimes(q', high * b, Pow(p, n), q);
    }
  }

  lemma CarryStep(p: nat, w: int, low: int, carry: int, r: int, sum: int, x: int)
    requires p >= 1 && low + carry * w == sum && x == r + carry
    ensures (low + (x % p) * w) + (x / p) * (p * w) == sum + r * w
  {
    var d, c := x % p, x / p;
    assert x == p * c + d;
    assert c * (p * w) == (p * c) * w;
    SumTimes(p * c, d, w, x);
    SumTimes(r, carry, w, x);
  }

  lemma CarryAdvances(p: nat, done: seq<Byte>, read: seq<U64>, carry: nat, r: nat)
    requires GoodBase(p) && |done| == |read|
    requires Value(p, done) + carry * Pow(p, |done|) == Value(p, read)
    ensures Value(p, done + [(r + carry) % p]) + ((r + carry) / p) * Pow(p, |done| + 1) == Value(p, read + [r])
  {
    var x := r + carry;
    ValueSnoc(p, done, x % p);
    ValueSnoc(p, read, r);
    PowStep(p, |done| + 1);
    hide Value, Pow;
    CarryStep(p, Pow(p, |done|), Value(p, done), carry, r, Value(p, read), x);
  }

  lemma HalfAtLeast(x: nat, p: nat)
    requires GoodBase(p)
    ensures 0 <= x / p <= x / 2
  {
    var q := x / p;
    assert x == p * q + x % p;
    MulMonotone(2, p, q);
  }

  lemma CellAlgebra(v': int, v: int, w': int, w: int, pij: int, pi: int, pj: int, x: int, y: int, xy: int, xpi: int,
                    base: int)
    requires pij == pi * pj && xy == x * y && xpi == x * pi
    requires v' == v + xy * pij && w' == w + y * pj && v == base + xpi * w
    ensures v' == base + xpi * w'
  {
    ProductStep(pij, pi, pj, x, y, base, v, w);
  }

  lemma CellAdded(p: nat, earlier: seq<int>, later: seq<int>, b: seq<Byte>, i: nat, j: nat, x: int, xy: int, xpi: int,
                  base: int)
    requires i + j < |earlier| && j < |b| && xy == x * b[j] && xpi == x * Pow(p, i)
    requires later == earlier[i + j := earlier[i + j] + xy]
    requires Value(p, earlier) == base + xpi * Value(p, b[..j])
    ensures Value(p, later) == base + xpi * Value(p, b[..j + 1])
  {
    hide Value, Pow;
    ValueUpdate(p, earlier, i + j, xy);
    assert b[..j + 1] == b[..j] + [b[j]];
    ValueSnoc(p, b[..j], b[j]);
    PowAdd(p, i, j);
    CellAlgebra(Value(p, later), Value(p, earlier), Value(p, b[..j + 1]), Value(p, b[..j]),
                Pow(p, i + j), Pow(p, i), Pow(p, j), x, b[j], xy, xpi, base);
  }

  // ----- exponentiation

  /** The value both loops of `padic_exp` preserve: exact powers, before any reduction. */
  lemma BitConsumed(r: int, b: int, bit: nat, rest: nat)
    requires bit <= 1
    ensures (if bit == 1 then r * b else r) * Pow(b * b, rest) == r * Pow(b, bit + 2 * rest)
  {
    PowPow(b, 2, rest);
    PowStep(b, 2);
    PowStep(b, 1);
    assert Pow(b, 0) == 1 && Pow(b, 1) == b && Pow(b, 2) == b * b;
    if bit == 1 {
      PowStep(b, 1 + 2 * rest);
      Associate(r, b, Pow(b, 2 * rest));
    }
  }

  lemma {:induction false} PowNonNegative(b: nat, e: nat)
    ensures Pow(b, e) >= 0
  {
    if e > 0 {
      PowNonNegative(b, e - 1);
      MulMonotone(0, b, Pow(b, e - 1));
    }
  }

  ghost function ExpDigits(base: seq<Byte>, exponent: seq<Byte>, p: nat, n: nat): (ds: seq<Byte>)
    requires GoodBase(p)
  {
    ValueNonNegative(p, base);
    PowNonNegative(Value(p, base), MixedExponent(exponent));
    DigitsOf(Pow(Value(p, base), MixedExponent(exponent)), p, n)
  }

  /** Digit vectors standing for `x` and `y` multiply to the one standing for `x * y`. */
  lemma ProductResidue(p: nat, n: nat, u: nat, v: nat, x: nat, y: nat)
    requires GoodBase(p) && Pow(p, n) >= 1
    requires u % Pow(p, n) == x % Pow(p, n) && v % Pow(p, n) == y % Pow(p, n)
    ensures u * v >= 0 && x * y >= 0 && DigitsOf(u * v, p, n) == DigitsOf(x * y, p, n)
  {
    MulMonotone(0, u, v);
    MulMonotone(0, x, y);
    hide DigitsOf, Pow;
    var m := Pow(p, n);
    MulModBoth(u, x, v, m);
    assert x * v == v * x && x * y == y * x;
    MulModBoth(v, y, x, m);
    DigitsOfResidue(u * v, x * y, p, n);
  }

  /** Exponentiating twice uses the product of the two mixed exponents. */
  lemma ExpOfExp(g: seq<Byte>, a: seq<Byte>, b: seq<Byte>, p: nat, n: nat)
    requires GoodBase(p)
    ensures MixedExponent(a) * MixedExponent(b) >= 0
    ensures Pow(Value(p, g), MixedExponent(a) * MixedExponent(b)) >= 0
    ensures ExpDigits(ExpDigits(g, a, p, n), b, p, n)
         == DigitsOf(Pow(Value(p, g), MixedExponent(a) * MixedExponent(b)), p, n)
  {
    var v, e, f, m := Value(p, g), MixedExponent(a), MixedExponent(b), Pow(p, n);
    ValueNonNegative(p, g);
    PowPow(v, e, f);
    PowNonNegative(v, e);
    PowNonNegative(v, e * f);
    DigitsOfValue(Pow(v, e), p, n);
    var inner := Value(p, ExpDigits(g, a, p, n));
    ValueNonNegative(p, ExpDigits(g, a, p, n));
    PowNonNegative(inner, f);
    hide Value, Pow, MixedExponent, DigitsOf;
    PowMod(Pow(v, e), f, m);
    DigitsOfResidue(Pow(inner, f), Pow(v, e * f), p, n);
  }

  /** Diffie-Hellman: both orders of exponentiation give the same digits, for all keys and generators. */
  lemma KeyAgreement(g: seq<Byte>, a: seq<Byte>, b: seq<Byte>, p: nat, n: nat)
    requires GoodBase(p)
    ensures ExpDigits(ExpDigits(g, a, p, n), b, p, n) == ExpDigits(ExpDigits(g, b, p, n), a, p, n)
  {
    ExpOfExp(g, a, b, p, n);
    ExpOfExp(g, b, a, p, n);
    assert MixedExponent(a) * MixedExponent(b) == MixedExponent(b) * MixedExponent(a);
  }

  // ----- the stream cipher

  /** Each digit, widened to eight little-endian bytes. */
  function WordsLE(digits: seq<Byte>): seq<Byte> {
    if digits == [] then [] else [digits[0], 0, 0, 0, 0, 0, 0, 0] + WordsLE(digits[1..])
  }

  /** `padic_hash`: the first four hash bytes, reduced modulo a power of the prime. */
  function PadicHash(hash: HashFn, prefix: seq<Byte>, p: nat, precision: nat): nat
    requires p >= 1
  {
    var bytes := hash(WordsLE(prefix));
    PowPositive(p, if precision > 8 then 4 else precision);
    (((bytes[0] * 256 + bytes[1]) * 256 + bytes[2]) * 256 + bytes[3])
      % Pow(p, if precision > 8 then 4 else precision)
  }

  function KeyByte(hash: HashFn, key: seq<Byte>, p: nat, precision: nat, i: nat): Byte
    requires p >= 1 && key != []
  {
    if i < |key| then key[i] else PadicHash(hash, key[..i % |key|], p, precision) % 256
  }

  /** Exclusive or, bit by bit. */
  function Xor(a: nat, b: nat): nat
    decreases a + b
  {
    if a == 0 && b == 0 then 0 else (a + b) % 2 + 2 * Xor(a / 2, b / 2)
  }

  lemma {:induction false} XorFits(a: nat, b: nat, n: nat)
    requires a < Pow(2, n) && b < Pow(2, n)
    ensures Xor(a, b) < Pow(2, n)
  {
    if a > 0 || b > 0 {
      PowStep(2, n);
      XorFits(a / 2, b / 2, n - 1);
    }
  }

  function XorByte(a: Byte, b: Byte): Byte {
    PowAdd(2, 4, 4);
    assert Pow(2, 4) == 16;
    XorFits(a, b, 8);
    Xor(a, b)
  }

  lemma XorStep(a: nat, b: nat)
    ensures Xor(a, b) / 2 == Xor(a / 2, b / 2) && Xor(a, b) % 2 == (a + b) % 2
  {
  }

  function Bit(x: nat, i: nat): nat {
    if i == 0 then x % 2 else Bit(x / 2, i - 1)
  }

  /** Every bit of the result is the sum of the two bits modulo 2. */
  lemma {:induction false} XorBits(a: nat, b: nat, i: nat)
    ensures Bit(Xor(a, b), i) == (Bit(a, i) + Bit(b, i)) % 2
    decreases i
  {
    hide Xor;
    XorStep(a, b);
    if i > 0 {
      XorBits(a / 2, b / 2, i - 1);
    }
  }

  /** The cipher as a map over positions. */
  ghost function Cipher(hash: HashFn, data: seq<Byte>, key: seq<Byte>, p: nat, precision: nat): (c: seq<Byte>)
    requires p >= 1 && (key != [] || data == [])
    ensures |c| == |data|
  {
    seq(|data|, i requires 0 <= i < |data| => XorByte(data[i], KeyByte(hash, key, p, precision, i)))
  }

  lemma {:induction false} WordsLEAt(digits: seq<Byte>, i: nat)
    requires i < 8 * |digits|
    ensures |WordsLE(digits)| == 8 * |digits|
    ensures WordsLE(digits)[i] == if i % 8 == 0 then digits[i / 8] else 0
  {
    if |digits| > 1 {
      WordsLEAt(digits[1..], if i >= 8 then i - 8 else 0);
    }
  }

  lemma CipherHead(hash: HashFn, data: seq<Byte>, key: seq<Byte>, p: nat, precision: nat, i: nat)
    requires p >= 1 && i < |key| && i < |data|
    ensures Cipher(hash, data, key, p, precision)[i] == XorByte(data[i], key[i])
  {
  }

  lemma {:induction false} XorInjective(x: nat, k: nat, l: nat)
    requires Xor(x, k) == Xor(x, l)
    ensures k == l
    decreases x + k + l
  {
    hide Xor;
    if x > 0 || k > 0 || l > 0 {
      XorStep(x, k);
      XorStep(x, l);
      XorInjective(x / 2, k / 2, l / 2);
    }
  }

  lemma HeadBytes(hash: HashFn, data: seq<Byte>, key: seq<Byte>, p: nat, precision: nat)
    requires p >= 1 && (key != [] || data == [])
    ensures forall i :: 0 <= i < |data| && i < |key| ==>
              Cipher(hash, data, key, p, precision)[i] == XorByte(data[i], key[i])
  {
    hide XorByte;
  }

  /** Past the key, each byte is combined with the low byte of a reduced big-endian word: the first four bytes of the
      hash of a key prefix, each of whose digits is hashed as eight bytes. */
  ghost predicate Stretched(hash: HashFn, data: seq<Byte>, key: seq<Byte>, p: nat, precision: nat, c: seq<Byte>)
    requires key != [] || data == []
  {
    |c| == |data|
    && forall i :: |key| <= i < |data| ==>
         var bytes := hash(WordsLE(key[..i % |key|]));
         var word: nat :=
             bytes[0] as nat * 0x100_0000 + bytes[1] as nat * 0x1_0000 + bytes[2] as nat * 0x100 + bytes[3];
         var m := Pow(p, if precision > 8 then 4 else precision);
         m > 0 && c[i] == XorByte(data[i], word % m % 256)
  }

  lemma TailBytes(hash: HashFn, data: seq<Byte>, key: seq<Byte>, p: nat, precision: nat)
    requires p >= 1 && (key != [] || data == [])
    ensures Stretched(hash, data, key, p, precision, Cipher(hash, data, key, p, precision))
  {
    PowPositive(p, if precision > 8 then 4 else precision);
    hide XorByte, WordsLE, Pow;
  }

  /** Keys that differ at a position both reach never encrypt a message that long alike. */
  lemma KeysTellApart(hash: HashFn, data: seq<Byte>, key: seq<Byte>, key': seq<Byte>, p: nat, precision: nat, i: nat)
    requires p >= 1 && i < |data| && i < |key| && i < |key'| && key[i] != key'[i]
    ensures Cipher(hash, data, key, p, precision) != Cipher(hash, data, key', p, precision)
  {
    CipherHead(hash, data, key, p, precision, i);
    CipherHead(hash, data, key', p, precision, i);
    hide Cipher;
    if XorByte(data[i], key[i]) == XorByte(data[i], key'[i]) {
      XorInjective(data[i], key[i], key'[i]);
    }
  }

  lemma ParityBack(u: nat, x: nat, k: nat)
    requires u % 2 == (x + k) % 2
    ensures (u + k) % 2 == x % 2
  {
  }

  lemma {:induction false} XorTwice(x: nat, k: nat)
    ensures Xor(Xor(x, k), k) == x
    decreases x + k
  {
    if x > 0 || k > 0 {
      hide Xor;
      XorStep(x, k);
      XorStep(Xor(x, k), k);
      ParityBack(Xor(x, k), x, k);
      XorTwice(x / 2, k / 2);
    }
  }

  lemma CipherIsInvolution(hash: HashFn, data: seq<Byte>, key: seq<Byte>, p: nat, precision: nat)
    requires p >= 1 && (key != [] || data == [])
    ensures Cipher(hash, Cipher(hash, data, key, p, precision), key, p, precision) == data
  {
    var once := Cipher(hash, data, key, p, precision);
    forall i | 0 <= i < |data|
      ensures Cipher(hash, once, key, p, precision)[i] == data[i]
    {
      XorTwice(data[i], KeyByte(hash, key, p, precision, i));
    }
  }

  function HashDigits(bytes: Bytes32, p: nat, count: nat): (ds: seq<Byte>)
    requires GoodBase(p)
  {
    seq(Min(32, count), i requires 0 <= i < Min(32, count) => bytes[i] % p)
  }

  /** Session keys are padded to the precision; proximity keys stop at the 32 hash bytes. */
  function SessionKey(hash: HashFn, secret: seq<Byte>, nonce: seq<Byte>, p: nat, n: nat): (ds: seq<Byte>)
    requires GoodBase(p)
    ensures |ds| == n && Canonical(p, ds)
  {
    HashDigits(hash(secret + nonce), p, n) + seq(n - Min(32, n), _ => 0)
  }

  function ProximityKey(hash: HashFn, x: seq<Byte>, y: seq<Byte>, p: nat, n: nat): (ds: seq<Byte>)
    requires GoodBase(p)
    ensures |ds| == Min(32, n)
  {
    HashDigits(hash(x + y + BytesLE(VpDiff(x, y), 4)), p, n)
  }

  lemma ExpFinished(rv: nat, bv: nat, rest: seq<Byte>)
    requires rest == []
    ensures rv * Pow(bv, MixedExponent(rest)) == rv
  {
  }

  lemma {:induction false} BitLengthBound(d: nat, n: nat)
    requires n >= 1 && d < Pow(2, n)
    ensures BitLength(d) <= n
  {
    PowStep(2, n);
    if d > 1 {
      BitLengthBound(d / 2, n - 1);
    }
  }

  lemma BitLengthOfByte(d: Byte)
    ensures BitLength(d) <= 8
  {
    assert Pow(2, 4) == 16;
    PowAdd(2, 4, 4);
    BitLengthBound(d, 8);
  }

  /** `PadicCrypto` of the source: a modulus and a precision; its methods change nothing. */
  datatype PadicCrypto = PadicCrypto(prime: nat, precision: nat) {
    predicate Valid() {
      GoodBase(prime) && precision <= MAX_PRECISION
    }

    /** Inner loop of the convolution: adds the row of digit `x` at position `i`, dropping what does not fit. */
    method AddRow(row: array<U64>, x: Byte, b: seq<Byte>, i: nat)
      requires Valid() && row.Length == precision && i < precision
      requires forall k :: 0 <= k < precision ==> row[k] <= i * 65025
      modifies row
      ensures forall k :: 0 <= k < precision ==> row[k] <= (i + 1) * 65025
      ensures Value(prime, row[..]) == old(Value(prime, row[..]))
                                     + (x * Pow(prime, i)) * Value(prime, b[..Min(|b|, precision - i)])
    {
      hide Value, Pow;
      var columns := Min(|b|, precision - i);
      ghost var before := Value(prime, row[..]);
      assert b[..0] == [];
      ValueZeros(prime, b[..0]);
      assert (x * Pow(prime, i)) * 0 == 0;
      for j := 0 to columns
        invariant forall k :: 0 <= k < i + j ==> row[k] <= (i + 1) * 65025
        invariant forall k :: i + j <= k < precision ==> row[k] <= i * 65025
        invariant Value(prime, row[..]) == before + (x * Pow(prime, i)) * Value(prime, b[..j])
      {
        SmallProduct(x, b[j]);
        var product := (x as int) * (b[j] as int);
        ghost var earlier := row[..];
        row[i + j] := row[i + j] + product;
        assert row[..] == earlier[i + j := earlier[i + j] + product];
        CellAdded(prime, earlier, row[..], b, i, j, x, product, x * Pow(prime, i), before);
      }
    }

    /** First half of `padic_mult`: the truncated convolution, in 64-bit accumulators. */
    method Convolve(a: seq<Byte>, b: seq<Byte>) returns (row: array<U64>, ghost q: int)
      requires Valid()
      ensures fresh(row) && row.Length == precision
      ensures forall k :: 0 <= k < precision ==> row[k] <= precision * 65025
      ensures Value(prime, row[..]) == Value(prime, a) * Value(prime, b) + q * Pow(prime, precision)
    {
      hide Value, Pow;
      row := new U64[precision](_ => 0);
      var rows := Min(|a|, precision);
      q := 0;
      ValueZeros(prime, row[..]);
      assert a[..0] == [];
      ValueZeros(prime, a[..0]);
      assert 0 * Value(prime, b) == 0 && 0 * Pow(prime, precision) == 0;
      for i := 0 to rows
        invariant row.Length == precision && fresh(row)
        invariant forall k :: 0 <= k < precision ==> row[k] <= i * 65025
        invariant Value(prime, row[..]) == Value(prime, a[..i]) * Value(prime, b) + q * Pow(prime, precision)
      {
        ghost var before := Value(prime, row[..]);
        AddRow(row, a[i], b, i);
        q := RowAdvances(prime, a, b, i, Min(|b|, precision - i), precision, before, Value(prime, row[..]), q);
      }
      q := RowsCut(prime, a, rows, precision, Value(prime, b), Value(prime, row[..]), q);
    }

    /** Second half of `padic_mult`: carries leave canonical digits and drop a multiple of `p^precision`. */
    method Normalise(row: array<U64>) returns (digits: seq<Byte>, ghost dropped: nat)
      requires Valid() && row.Length == precision
      requires forall k :: 0 <= k < precision ==> row[k] <= precision * 65025
      ensures |digits| == precision && Canonical(prime, digits)
      ensures Value(prime, row[..]) == Value(prime, digits) + dropped * Pow(prime, precision)
    {
      hide Value, Pow;
      var final := new Byte[precision](_ => 0);
      var carry: U64 := 0;
      assert final[..0] == [] && row[..0] == [];
      ValueZeros(prime, final[..0]);
      ValueZeros(prime, row[..0]);
      assert 0 * Pow(prime, 0) == 0;
      for i := 0 to precision
        invariant carry <= precision * 65025
        invariant Canonical(prime, final[..i])
        invariant Value(prime, final[..i]) + carry * Pow(prime, i) == Value(prime, row[..i])
      {
        var val: U64 := row[i] + carry;
        ghost var earlier := final[..i];
        final[i] := val % prime;
        assert final[..i + 1] == earlier + [val % prime] && row[..i + 1] == row[..i] + [row[i]];
        CarryAdvances(prime, earlier, row[..i], carry, row[i]);
        HalfAtLeast(val, prime);
        carry := val / prime;
      }
      assert final[..precision] == final[..] && row[..precision] == row[..];
      digits, dropped := final[..], carry;
    }

    /** `padic_mult`: the canonical digits of the product modulo `p^precision`, for any two digit vectors. */
    method PadicMult(a: QpDigits, b: QpDigits) returns (r: QpDigits)
      requires Valid()
      ensures Value(prime, a.digits) * Value(prime, b.digits) >= 0
      ensures r == QpDigits(prime, DigitsOf(Value(prime, a.digits) * Value(prime, b.digits), prime, precision))
    {
      hide Value, Pow, DigitsOf;
      ValueNonNegative(prime, a.digits);
      ValueNonNegative(prime, b.digits);
      MulMonotone(0, Value(prime, a.digits), Value(prime, b.digits));
      var row, q := Convolve(a.digits, b.digits);
      var digits, dropped := Normalise(row);
      SumTimes(-q, dropped, Pow(prime, precision), dropped - q);
      assert -q * Pow(prime, precision) == -(q * Pow(prime, precision));
      IsDigitsOf(digits, Value(prime, a.digits) * Value(prime, b.digits), prime, precision, dropped - q);
      r := QpDigits(prime, digits);
    }

    /** `x` is the reduced form of the exact number `v`. */
    ghost predicate StandsFor(x: QpDigits, v: nat)
      requires Valid()
    {
      x == QpDigits(prime, DigitsOf(v, prime, precision))
    }

    ghost predicate Congruent(x: QpDigits, v: nat)
      requires Valid()
    {
      Pow(prime, precision) >= 1 && Value(prime, x.digits) % Pow(prime, precision) == v % Pow(prime, precision)
    }

    lemma StandsForCongruent(x: QpDigits, v: nat)
      requires Valid() && StandsFor(x, v)
      ensures Congruent(x, v)
    {
      DigitsOfValue(v, prime, precision);
      hide DigitsOf, Value, Pow, Valid;
      ModMod(v, Pow(prime, precision));
    }

    /** One multiplication, lifted to the exact numbers the vectors stand for. */
    method MultExact(x: QpDigits, y: QpDigits, ghost u: nat, ghost v: nat) returns (r: QpDigits)
      requires Valid() && Congruent(x, u) && Congruent(y, v)
      ensures u * v >= 0 && StandsFor(r, u * v) && Congruent(r, u * v)
    {
      r := PadicMult(x, y);
      ValueNonNegative(prime, x.digits);
      ValueNonNegative(prime, y.digits);
      ProductResidue(prime, precision, Value(prime, x.digits), Value(prime, y.digits), u, v);
      hide DigitsOf, Value, Pow, Congruent;
      StandsForCongruent(r, u * v);
    }

    /** Inner loop of `padic_exp`: consumes one exponent digit, squaring once per bit of it. */
    method ExpDigit(result: QpDigits, basePower: QpDigits, digit: Byte, ghost r0: nat, ghost b0: nat, ghost high: nat)
        returns (result': QpDigits, basePower': QpDigits, ghost rv: nat, ghost bv: nat)
      requires Valid() && StandsFor(result, r0) && Congruent(basePower, b0)
      ensures StandsFor(result', rv) && Congruent(basePower', bv)
      ensures rv * Pow(bv, high) == r0 * Pow(b0, ReadBits(digit, high))
    {
      hide Pow, StandsFor, Congruent;
      result', basePower', rv, bv := result, basePower, r0, b0;
      var bits: nat := digit;
      BitLengthOfByte(digit);
      var round := 0;
      while round < 64
        invariant BitLength(bits) <= 64 - round
        invariant StandsFor(result', rv) && Congruent(basePower', bv)
        invariant rv * Pow(bv, ReadBits(bits, high)) == r0 * Pow(b0, ReadBits(digit, high))
      {
        BitConsumed(rv, bv, bits % 2, if bits <= 1 then high else ReadBits(bits / 2, high));
        if bits % 2 == 1 {
          StandsForCongruent(result', rv);
          result' := MultExact(result', basePower', rv, bv);
          rv := rv * bv;
        }
        basePower' := MultExact(basePower', basePower', bv, bv);
        bv := bv * bv;
        bits := bits / 2;
        round := round + 1;
        if bits == 0 {
          break;
        }
      }
    }

    lemma ExpResult(r: QpDigits, rv: nat, base: seq<Byte>, exponent: seq<Byte>)
      requires Valid() && StandsFor(r, rv) && rv == Pow(Value(prime, base), MixedExponent(exponent))
      ensures r == QpDigits(prime, ExpDigits(base, exponent, prime, precision))
    {
    }

    /** `padic_exp`: raises to the mixed-width reading of the exponent's digits. */
    method PadicExp(base: QpDigits, exponent: QpDigits) returns (r: QpDigits)
      requires Valid()
      ensures r == QpDigits(prime, ExpDigits(base.digits, exponent.digits, prime, precision))
    {
      var digits := exponent.digits;
      ghost var b0 := Value(prime, base.digits);
      ValueNonNegative(prime, base.digits);
      PowPositive(prime, precision);
      var result := FromU64(1, prime, precision);
      var basePower := base;
      ghost var rv: nat, bv: nat := 1, b0;
      assert digits[0..] == digits;
      assert StandsFor(result, rv) && Congruent(basePower, bv);
      hide Pow, StandsFor, Congruent;
      for i := 0 to |digits|
        invariant StandsFor(result, rv) && Congruent(basePower, bv)
        invariant rv * Pow(bv, MixedExponent(digits[i..])) == Pow(b0, MixedExponent(digits))
      {
        assert digits[i..][1..] == digits[i + 1..];
        result, basePower, rv, bv := ExpDigit(result, basePower, digits[i], rv, bv, MixedExponent(digits[i + 1..]));
      }
      r := result;
      ExpFinished(rv, bv, digits[|digits|..]);
      ExpResult(r, rv, base.digits, digits);
    }

    /** `encrypt`: xors each byte with the key digit, or past the key with a hash of a key prefix. */
    method Encrypt(hash: HashFn, data: seq<Byte>, key: QpDigits) returns (encrypted: seq<Byte>)
      requires Valid() && (key.digits != [] || data == [])
      ensures encrypted == Cipher(hash, data, key.digits, prime, precision) && |encrypted| == |data|
      ensures forall i :: 0 <= i < |data| && i < |key.digits| ==> encrypted[i] == XorByte(data[i], key.digits[i])
      ensures Stretched(hash, data, key.digits, prime, precision, encrypted)
    {
      encrypted := [];
      ghost var goal := Cipher(hash, data, key.digits, prime, precision);
      for i := 0 to |data|
        invariant encrypted == goal[..i]
      {
        encrypted := encrypted + [XorByte(data[i], KeyByte(hash, key.digits, prime, precision, i))];
      }
      hide Cipher, KeyByte, Stretched;
      HeadBytes(hash, data, key.digits, prime, precision);
      TailBytes(hash, data, key.digits, prime, precision);
    }

    method DeriveSessionKey(hash: HashFn, secret: QpDigits, nonce: seq<Byte>) returns (key: QpDigits)
      requires Valid()
      ensures key == QpDigits(prime, SessionKey(hash, secret.digits, nonce, prime, precision))
      ensures |key.digits| == precision
      ensures forall i :: 0 <= i < precision ==>
                key.digits[i] == if i < 32 then hash(secret.digits + nonce)[i] % prime else 0
    {
      var bytes := hash(secret.digits + nonce);
      var digits: seq<Byte> := [];
      ghost var goal := SessionKey(hash, secret.digits, nonce, prime, precision);
      for i := 0 to Min(32, precision)
        invariant digits == goal[..i]
      {
        digits := digits + [bytes[i] % prime];
      }
      while |digits| < precision
        invariant Min(32, precision) <= |digits| <= precision && digits == goal[..|digits|]
      {
        digits := digits + [0];
      }
      key := QpDigits(prime, digits);
    }
  }

  /** One side of the exchange. The private key comes from a random 64-bit number. */
  datatype PadicKeyExchange =
    PadicKeyExchange(crypto: PadicCrypto, generator: QpDigits, privateKey: QpDigits, publicKey: QpDigits)
  {
    ghost predicate Valid() {
      && crypto.Valid()
      && publicKey == QpDigits(crypto.prime,
                               ExpDigits(generator.digits, privateKey.digits, crypto.prime, crypto.precision))
    }

    static method New(prime: nat, precision: nat, random: nat) returns (kx: PadicKeyExchange)
      requires PadicCrypto(prime, precision).Valid()
      ensures kx.Valid() && kx.crypto == PadicCrypto(prime, precision)
      ensures kx.generator == QpDigits(prime, DigitsOf(2, prime, precision))
      ensures kx.privateKey == QpDigits(prime, DigitsOf(random % 1_000_000, prime, precision))
    {
      var crypto := PadicCrypto(prime, precision);
      var generator := FromU64(2, prime, precision);
      var privateKey := FromU64(random % 1_000_000, prime, precision);
      var publicKey := crypto.PadicExp(generator, privateKey);
      kx := PadicKeyExchange(crypto, generator, privateKey, publicKey);
    }

    method ComputeSharedSecret(peer: QpDigits) returns (secret: QpDigits)
      requires Valid()
      ensures secret == QpDigits(crypto.prime,
                                 ExpDigits(peer.digits, privateKey.digits, crypto.prime, crypto.precision))
    {
      secret := crypto.PadicExp(peer, privateKey);
    }
  }

  /** The whole exchange: what one side encrypts, the other decrypts, for every message and nonce. */
  method ExchangeMessage(alice: PadicKeyExchange, bob: PadicKeyExchange, hash: HashFn, message: seq<Byte>,
                         nonce: seq<Byte>)
      returns (decrypted: seq<Byte>)
    requires alice.Valid() && bob.Valid() && alice.crypto == bob.crypto && alice.generator == bob.generator
    requires alice.crypto.precision >= 1
    ensures decrypted == message
  {
    var crypto := alice.crypto;
    var aliceShared := alice.ComputeSharedSecret(bob.publicKey);
    var aliceKey := alice.crypto.DeriveSessionKey(hash, aliceShared, nonce);
    var encrypted := crypto.Encrypt(hash, message, aliceKey);
    var bobShared := bob.ComputeSharedSecret(alice.publicKey);
    var bobKey := bob.crypto.DeriveSessionKey(hash, bobShared, nonce);
    KeyAgreement(alice.generator.digits, alice.privateKey.digits, bob.privateKey.digits, crypto.prime,
                 crypto.precision);
    decrypted := crypto.Encrypt(hash, encrypted, bobKey);
    CipherIsInvolution(hash, message, aliceKey.digits, crypto.prime, crypto.precision);
  }

  datatype ProximityError = DistanceOutOfRange(distance: nat)

  /** Encryption under a key both positions determine; only decryption looks at the allowed range. */
  datatype ProximityEncryption = ProximityEncryption(crypto: PadicCrypto, minDistance: nat, maxDistance: nat) {
    ghost function Encrypted(hash: HashFn, data: seq<Byte>, sender: seq<Byte>, recipient: seq<Byte>): seq<Byte>
      requires crypto.Valid() && crypto.precision >= 1
    {
      var key := ProximityKey(hash, sender, recipient, crypto.prime, crypto.precision);
      Cipher(hash, data, key, crypto.prime, crypto.precision)
    }

    method EncryptWithProximity(hash: HashFn, data: seq<Byte>, sender: QpDigits, recipient: QpDigits)
        returns (encrypted: seq<Byte>, from: QpDigits)
      requires crypto.Valid() && crypto.precision >= 1
      ensures encrypted == Encrypted(hash, data, sender.digits, recipient.digits) && from == sender
      ensures var digest := hash(sender.digits + recipient.digits
                                 + BytesLE(VpDiff(sender.digits, recipient.digits), 4));
              |encrypted| == |data|
              && forall i :: 0 <= i < |data| && i < Min(32, crypto.precision) ==>
                   encrypted[i] == XorByte(data[i], digest[i] % crypto.prime)
    {
      var key := ProximityKey(hash, sender.digits, recipient.digits, crypto.prime, crypto.precision);
      encrypted := crypto.Encrypt(hash, data, QpDigits(crypto.prime, key));
      from := sender;
    }

    method DecryptWithProximity(hash: HashFn, encrypted: seq<Byte>, sender: QpDigits, recipient: QpDigits)
        returns (r: Result<seq<Byte>, ProximityError>)
      requires crypto.Valid() && crypto.precision >= 1
      ensures r.Ok? <==> minDistance <= VpDiff(sender.digits, recipient.digits) <= maxDistance
      ensures r.Ok? ==> r.value == Encrypted(hash, encrypted, sender.digits, recipient.digits)
      ensures r.Err? ==> r.error == DistanceOutOfRange(VpDiff(sender.digits, recipient.digits))
    {
      var distance := ComputeVpDiff(sender.digits, recipient.digits);
      if distance < minDistance || distance > maxDistance {
        return Err(DistanceOutOfRange(distance));
      }
      var key := ProximityKey(hash, sender.digits, recipient.digits, crypto.prime, crypto.precision);
      var data := crypto.Encrypt(hash, encrypted, QpDigits(crypto.prime, key));
      return Ok(data);
    }

    /** Encryption succeeds at any distance; the text comes back exactly when the distance is in range. */
    method ProximityRoundTrip(hash: HashFn, data: seq<Byte>, sender: QpDigits, recipient: QpDigits)
        returns (r: Result<seq<Byte>, ProximityError>)
      requires crypto.Valid() && crypto.precision >= 1
      ensures r == Ok(data) <==> minDistance <= VpDiff(sender.digits, recipient.digits) <= maxDistance
      ensures r.Err? ==> r.error == DistanceOutOfRange(VpDiff(sender.digits, recipient.digits))
    {
      var encrypted, from := EncryptWithProximity(hash, data, sender, recipient);
      var key := ProximityKey(hash, sender.digits, recipient.digits, crypto.prime, crypto.precision);
      CipherIsInvolution(hash, data, key, crypto.prime, crypto.precision);
      r := DecryptWithProximity(hash, encrypted, from, recipient);
    }
  }
}
