/**
 * Java `int` arithmetic: 32-bit two's-complement values, with the semantics of
 * the Java Language Specification (JLS) for the binary operators that constant
 * folding replays at analysis time.  Dafny's `int` is unbounded and its `/` and
 * `%` are Euclidean, so wrap-around, truncating division, shift masking and the
 * bit patterns are written out here.
 */
module JavaInt {

  const Modulus: int := 0x1_0000_0000
  const Half: int := 0x8000_0000
  const MinInt: int := -0x8000_0000
  const MaxInt: int := 0x7fff_ffff

  /** A value of Java's primitive type `int`. */
  type Int32 = x: int | MinInt <= x <= MaxInt

  function Abs(x: int): (r: nat)
    ensures r == x || r == -x
  {
    if x < 0 then -x else x
  }

  /** Two to the power `k`. */
  function Pow2(k: nat): (r: nat)
    ensures r >= 1
  {
    if k == 0 then 1 else 2 * Pow2(k - 1)
  }

  lemma {:induction false} Pow2Add(i: nat, j: nat)
    ensures Pow2(i) * Pow2(j) == Pow2(i + j)
  {
    if i > 0 {
      Pow2Add(i - 1, j);
    }
  }

  lemma Pow2Word()
    ensures Pow2(31) == Half && Pow2(32) == Modulus
  {
    assert Pow2(1) == 2;
    Pow2Add(1, 1);
    assert Pow2(2) == 4;
    Pow2Add(2, 2);
    assert Pow2(4) == 16;
    Pow2Add(4, 4);
    assert Pow2(8) == 256;
    Pow2Add(8, 8);
    assert Pow2(16) == 65536;
    Pow2Add(16, 16);
    assert Pow2(32) == 2 * Pow2(31);
  }

  // ---------------------------------------------------------------------------
  // Division facts on unbounded integers

  lemma MulNonNegative(a: int, b: int)
    requires a >= 0 && b >= 0
    ensures a * b >= 0
  {
  }

  /** Quotient and remainder by a positive divisor are unique. */
  lemma DivUnique(x: int, d: int, q: int, r: int)
    requires d > 0 && 0 <= r < d && x == d * q + r
    ensures x / d == q && x % d == r
  {
    var q', r' := x / d, x % d;
    assert d * q' + r' == x;
    assert d * (q - q') == r' - r;
    if q - q' >= 1 {
      MulAtLeast(d, q - q');
    } else if q' - q >= 1 {
      MulAtLeast(d, q' - q);
    }
  }

  lemma MulAtLeast(d: int, k: int)
    requires d > 0 && k >= 1
    ensures d * k >= d
  {
    MulNonNegative(d, k - 1);
    assert d * k == d * (k - 1) + d;
  }

  lemma DivDiv(x: nat, p: nat)
    requires p >= 1
    ensures (x / 2) / p == x / (2 * p)
  {
    var q, r0 := x / 2, x % 2;
    var q2, r1 := q / p, q % p;
    assert x == (2 * p) * q2 + (2 * r1 + r0);
    DivUnique(x, 2 * p, q2, 2 * r1 + r0);
  }

  lemma DivAddMultiple(n: int, q: int, p: nat)
    requires p >= 1
    ensures (n + q * p) / p == n / p + q
  {
    var d, r := n / p, n % p;
    assert n + q * p == p * (d + q) + r;
    DivUnique(n + q * p, p, d + q, r);
  }

  // ---------------------------------------------------------------------------
  // Wrap-around

  /**
   * The low-order 32 bits of `x`, read as a two's-complement number: the unique
   * `int` value congruent to `x` modulo 2^32 (JLS 4.2.2, 15.18.2, 15.17.1).
   */
  function Wrap(x: int): (r: Int32)
    ensures (r - x) % Modulus == 0
    ensures MinInt <= x <= MaxInt ==> r == x
  {
    (x - MinInt) % Modulus + MinInt
  }

  /** Wrap depends only on the residue of its argument modulo 2^32. */
  lemma WrapShift(x: int, k: int)
    ensures Wrap(x + k * Modulus) == Wrap(x)
  {
    assert (x + k * Modulus - MinInt) % Modulus == (x - MinInt) % Modulus;
  }

  /** Values that differ by a multiple of 2^32 wrap to the same `int`. */
  lemma WrapCongruent(x: int, y: int)
    requires (x - y) % Modulus == 0
    ensures Wrap(x) == Wrap(y)
  {
    var k := (x - y) / Modulus;
    assert x == y + k * Modulus;
    WrapShift(y, k);
  }

  /** `Wrap` absorbs an inner `Wrap` of an addend. */
  lemma WrapAddInner(x: int, y: int)
    ensures Wrap(Wrap(x) + y) == Wrap(x + y)
  {
    WrapCongruent(Wrap(x) + y, x + y);
  }

  /** `Wrap` absorbs an inner `Wrap` of a factor. */
  lemma WrapMulInner(x: int, y: int)
    ensures Wrap(Wrap(x) * y) == Wrap(x * y)
  {
    var k := (Wrap(x) - x) / Modulus;
    assert Wrap(x) == x + k * Modulus;
    assert Wrap(x) * y == x * y + (k * y) * Modulus;
    WrapShift(x * y, k * y);
  }

  // ---------------------------------------------------------------------------
  // Additive and multiplicative operators (JLS 15.17, 15.18)

  /** `a + b`: the mathematical sum, wrapped on overflow (JLS 15.18.2). */
  function Add(a: Int32, b: Int32): (r: Int32)
    ensures (r - (a + b)) % Modulus == 0
    ensures MinInt <= a + b <= MaxInt ==> r == a + b
  {
    Wrap(a + b)
  }

  /** `a - b`: the mathematical difference, wrapped on overflow (JLS 15.18.2). */
  function Sub(a: Int32, b: Int32): (r: Int32)
    ensures (r - (a - b)) % Modulus == 0
    ensures MinInt <= a - b <= MaxInt ==> r == a - b
  {
    Wrap(a - b)
  }

  /** `a * b`: the low-order 32 bits of the mathematical product (JLS 15.17.1). */
  function Mul(a: Int32, b: Int32): (r: Int32)
    ensures (r - a * b) % Modulus == 0
    ensures MinInt <= a * b <= MaxInt ==> r == a * b
  {
    Wrap(a * b)
  }

  lemma AbsMul(x: int, y: int)
    ensures Abs(x * y) == Abs(x) * Abs(y)
  {
    if x < 0 && y < 0 {
      assert x * y == (-x) * (-y);
    } else if x < 0 {
      assert -(x * y) == (-x) * y;
    } else if y < 0 {
      assert -(x * y) == x * (-y);
    }
  }

  lemma NatDivBounds(n: nat, d: nat)
    requires d > 0
    ensures d * (n / d) <= n < d * (n / d + 1)
    ensures n >= d ==> n / d >= 1
  {
    var q, r := n / d, n % d;
    assert n == d * q + r;
    assert d * (q + 1) == d * q + d;
  }

  /**
   * Integer quotient rounded toward zero: the largest magnitude `q` with
   * |b * q| <= |a|, positive when the signs agree and negative when they differ.
   */
  function TruncDiv(a: int, b: int): (q: int)
    requires b != 0
    ensures Abs(b * q) <= Abs(a) < Abs(b) * (Abs(q) + 1)
    ensures q > 0 ==> (a < 0) == (b < 0)
    ensures q < 0 ==> (a < 0) != (b < 0)
    ensures Abs(a) >= Abs(b) ==> q != 0
  {
    var m := Abs(a) / Abs(b);
    TruncDivFacts(a, b, m);
    if (a < 0) == (b < 0) then m else -m
  }

  lemma TruncDivFacts(a: int, b: int, m: int)
    requires b != 0 && m == Abs(a) / Abs(b)
    ensures m >= 0
    ensures Abs(b * m) <= Abs(a) < Abs(b) * (Abs(m) + 1)
    ensures Abs(b * -m) <= Abs(a) < Abs(b) * (Abs(-m) + 1)
    ensures Abs(a) >= Abs(b) ==> m != 0
  {
    NatDivBounds(Abs(a), Abs(b));
    AbsMul(b, m);
    AbsMul(b, -m);
  }

  /**
   * `a / b` for `b != 0`: truncating division (JLS 15.17.2).  The one overflow,
   * Integer.MIN_VALUE / -1, wraps back to Integer.MIN_VALUE.
   */
  function Div(a: Int32, b: Int32): (r: Int32)
    requires b != 0
    ensures a == MinInt && b == -1 ==> r == MinInt
    ensures !(a == MinInt && b == -1) ==>
      Abs(b * r) <= Abs(a) < Abs(b) * (Abs(r) + 1) &&
      (r > 0 ==> (a < 0) == (b < 0)) &&
      (r < 0 ==> (a < 0) != (b < 0))
  {
    var q := TruncDiv(a, b);
    if a == MinInt && b == -1 then
      assert q == Half by {
        assert b * q == -q;
      }
      WrapCongruent(Half, MinInt);
      Wrap(q)
    else
      DivInRange(a, b, q);
      assert Wrap(q) == q;
      Wrap(q)
  }

  lemma DivInRange(a: Int32, b: Int32, q: int)
    requires b != 0 && !(a == MinInt && b == -1)
    requires Abs(b * q) <= Abs(a)
    requires q > 0 ==> (a < 0) == (b < 0)
    ensures MinInt <= q <= MaxInt
  {
    var aa, bb, qq := Abs(a), Abs(b), Abs(q);
    AbsMul(b, q);
    MulNonNegative(bb - 1, qq);
    assert bb * qq == (bb - 1) * qq + qq;
    assert qq <= aa;
    if q > 0 && a < 0 && b != -1 {
      MulNonNegative(bb - 2, qq);
      assert bb * qq == (bb - 2) * qq + 2 * qq;
    }
  }

  /** The remainder that goes with truncating division, computed without overflow. */
  function RemRaw(a: int, b: int): int
    requires b != 0
  {
    a - b * TruncDiv(a, b)
  }

  lemma RemRawBounds(a: int, b: int)
    requires b != 0
    ensures Abs(RemRaw(a, b)) < Abs(b)
    ensures RemRaw(a, b) == 0 || (RemRaw(a, b) < 0) == (a < 0)
  {
    var q := TruncDiv(a, b);
    var m := b * q;
    AbsMul(b, q);
    assert Abs(b) * (Abs(q) + 1) == Abs(m) + Abs(b);
    MulSign(b, q);
    if a < 0 {
      assert m <= 0 && -m <= -a;
    } else {
      assert m >= 0 && m <= a;
    }
  }

  /** The sign of a product follows the signs of its factors. */
  lemma MulSign(x: int, y: int)
    ensures (x >= 0) == (y >= 0) ==> x * y >= 0
    ensures (x >= 0) != (y >= 0) ==> x * y <= 0
  {
    if x >= 0 && y >= 0 {
      MulNonNegative(x, y);
    } else if x < 0 && y < 0 {
      MulNonNegative(-x, -y);
      assert (-x) * (-y) == x * y;
    } else if x >= 0 {
      MulNonNegative(x, -y);
      assert x * (-y) == -(x * y);
    } else {
      MulNonNegative(-x, y);
      assert (-x) * y == -(x * y);
    }
  }

  /**
   * `a % b` for `b != 0` (JLS 15.17.3): `(a / b) * b + a % b == a` in `int`
   * arithmetic, the result is zero or has the sign of the dividend, and its
   * magnitude is below that of the divisor.
   */
  function Rem(a: Int32, b: Int32): (r: Int32)
    requires b != 0
    ensures Add(Mul(Div(a, b), b), r) == a
    ensures r == 0 || (r < 0) == (a < 0)
    ensures Abs(r) < Abs(b)
  {
    RemRawBounds(a, b);
    var r := RemRaw(a, b);
    var q := TruncDiv(a, b);
    assert Div(a, b) == Wrap(q);
    WrapMulInner(q, b);
    WrapAddInner(Wrap(q) * b, r);
    WrapAddInner(q * b, r);
    assert q * b + r == a;
    r
  }

  // ---------------------------------------------------------------------------
  // Two's-complement bit patterns

  /** The unsigned reading of the 32-bit pattern of `a`. */
  function Unsigned(a: Int32): (u: nat)
    ensures u < Modulus && (u - a) % Modulus == 0
    ensures a >= 0 <==> u < Half
  {
    if a < 0 then a + Modulus else a
  }

  /** The `int` whose 32-bit pattern, read unsigned, is `u`. */
  function FromUnsigned(u: nat): (r: Int32)
    requires u < Modulus
    ensures Unsigned(r) == u
  {
    if u < Half then u else u - Modulus
  }

  /** Bit `i` of the binary representation of `u`. */
  function BitAt(u: nat, i: nat): (b: nat)
    ensures b <= 1
  {
    (u / Pow2(i)) % 2
  }

  /** Bit 31 of the pattern is the sign bit. */
  lemma SignBit(a: Int32)
    ensures a < 0 <==> BitAt(Unsigned(a), 31) == 1
  {
    Pow2Word();
    var u := Unsigned(a);
    if a < 0 {
      DivUnique(u, Half, 1, u - Half);
    } else {
      DivUnique(u, Half, 0, u);
    }
  }

  // ---------------------------------------------------------------------------
  // Shift operators (JLS 15.19)

  /**
   * The shift distance actually used: the five low-order bits of the pattern of
   * `s`, which is `s` modulo 32.
   */
  function ShiftDistance(s: Int32): (k: nat)
    ensures k < 32
    ensures k == s % 32
  {
    var u := Unsigned(s);
    assert u % 32 == s % 32 by {
      assert u == s || u == s + 32 * 0x800_0000;
    }
    u % 32
  }

  /**
   * `a << s`: multiplication by 2^k for the masked distance k, keeping the
   * low-order 32 bits even on overflow.
   */
  function Shl(a: Int32, s: Int32): (r: Int32)
    ensures (r - a * Pow2(ShiftDistance(s))) % Modulus == 0
  {
    Wrap(a * Pow2(ShiftDistance(s)))
  }

  /**
   * `a >> s`: arithmetic (sign-extending) right shift, the floor of
   * a / 2^k; the sign of the result is that of `a`.
   */
  function Shr(a: Int32, s: Int32): (r: Int32)
    ensures r * Pow2(ShiftDistance(s)) <= a < (r + 1) * Pow2(ShiftDistance(s))
    ensures r < 0 <==> a < 0
  {
    var p := Pow2(ShiftDistance(s));
    FloorDivBounds(a, p);
    a / p
  }

  lemma FloorDivBounds(a: Int32, p: nat)
    requires p >= 1
    ensures MinInt <= a / p <= MaxInt
    ensures (a / p) * p <= a < (a / p + 1) * p
    ensures a / p < 0 <==> a < 0
  {
    var q, r := a / p, a % p;
    assert a == q * p + r && 0 <= r < p;
    assert (q + 1) * p == q * p + p;
    if a >= 0 {
      FloorQuotientNonNegative(a, p, q, r);
    } else {
      FloorQuotientNegative(a, p, q, r);
    }
  }

  lemma FloorQuotientNonNegative(a: int, p: int, q: int, r: int)
    requires a >= 0 && p >= 1 && a == q * p + r && 0 <= r < p
    ensures 0 <= q <= a
  {
    if q < 0 {
      MulAtLeast(p, -q);
    } else if q >= 1 {
      MulAtLeast(q, p);
    }
  }

  lemma FloorQuotientNegative(a: int, p: int, q: int, r: int)
    requires a < 0 && p >= 1 && a == q * p + r && 0 <= r < p
    ensures a <= q < 0
  {
    if q >= 0 {
      MulNonNegative(q, p);
    } else if p > 1 {
      MulAtLeast(p - 1, -q);
      assert q - q * p == (p - 1) * -q;
    }
  }

  /**
   * `a >>> s`: logical (zero-filling) right shift of the 32-bit pattern of `a`.
   * For a non-zero distance the result is non-negative, and for a non-negative
   * `a` it agrees with `a >> s`.
   */
  function Ushr(a: Int32, s: Int32): (r: Int32)
    ensures ShiftDistance(s) > 0 ==> r == Unsigned(a) / Pow2(ShiftDistance(s))
    ensures ShiftDistance(s) == 0 ==> r == a
  {
    var k := ShiftDistance(s);
    UshrFits(a, k);
    Wrap(Unsigned(a) / Pow2(k))
  }

  lemma UshrFits(a: Int32, k: nat)
    requires k < 32
    ensures k > 0 ==> Wrap(Unsigned(a) / Pow2(k)) == Unsigned(a) / Pow2(k)
    ensures k == 0 ==> Wrap(Unsigned(a) / Pow2(k)) == a
  {
    var u := Unsigned(a);
    if k == 0 {
      assert u / Pow2(k) == u;
      WrapCongruent(u, a);
    } else {
      UshrSmall(u, k);
    }
  }

  /** For a non-negative `n`, `n >>> s` equals `n >> s` (JLS 15.19). */
  lemma UshrOfNonNegative(n: Int32, s: Int32)
    requires n >= 0
    ensures Ushr(n, s) == Shr(n, s)
  {
    assert Unsigned(n) == n;
  }

  lemma UshrSmall(u: nat, k: nat)
    requires u < Modulus && 0 < k < 32
    ensures 0 <= u / Pow2(k) <= MaxInt
  {
    var p' := Pow2(k - 1);
    assert Pow2(k) == 2 * p';
    DivDiv(u, p');
    var h := u / 2;
    assert 0 <= h <= MaxInt;
    FloorQuotientNonNegative(h, p', h / p', h % p');
  }

  /**
   * JLS 15.19: for a negative `n`, `n >>> s` equals `(n >> s) + (2 << ~s)`, where
   * `~s` is `-1 - s`.
   */
  lemma UshrOfNegative(n: Int32, s: Int32)
    requires n < 0
    ensures Ushr(n, s) == Add(Shr(n, s), Shl(2, -1 - s))
  {
    var k := ShiftDistance(s);
    var p := Pow2(k);
    var q := 2 * Pow2(31 - k);
    ComplementDistance(s);
    WordSplit(k);
    assert Shl(2, -1 - s) == Wrap(q);
    assert Shr(n, s) == n / p;
    assert Ushr(n, s) == Wrap(Unsigned(n) / p);
    assert Unsigned(n) == n + q * p;
    DivAddMultiple(n, q, p);
    WrapAddInner(q, n / p);
  }

  /** The masked distance of `~s` is 31 minus that of `s`. */
  lemma ComplementDistance(s: Int32)
    ensures ShiftDistance(-1 - s) == 31 - ShiftDistance(s)
  {
    var k := s % 32;
    var m := s / 32;
    assert -1 - s == 32 * (-m - 1) + (31 - k);
    DivUnique(-1 - s, 32, -m - 1, 31 - k);
  }

  /** 2^32 is 2 * 2^(31 - k) times 2^k. */
  lemma WordSplit(k: nat)
    requires k < 32
    ensures 2 * (Pow2(31 - k) * Pow2(k)) == Modulus
  {
    Pow2Add(31 - k, k);
    assert 31 - k + k == 31;
    Pow2Word();
  }

  // ---------------------------------------------------------------------------
  // Bitwise operators (JLS 15.22.1)

  /** The three bitwise connectives of Java: `|`, `&` and `^`. */
  datatype Connective = BitOr | BitAnd | BitXor

  /** A connective applied to two bits. */
  function Combine(op: Connective, x: nat, y: nat): (b: nat)
    requires x <= 1 && y <= 1
    ensures b <= 1
  {
    match op
    case BitOr => if x == 1 || y == 1 then 1 else 0
    case BitAnd => if x == 1 && y == 1 then 1 else 0
    case BitXor => if x != y then 1 else 0
  }

  /** The connective applied bit by bit to the low `n` bits of `x` and `y`. */
  function BitwiseNat(op: Connective, x: nat, y: nat, n: nat): (r: nat)
    ensures r < Pow2(n)
    decreases n
  {
    if n == 0 then 0
    else 2 * BitwiseNat(op, x / 2, y / 2, n - 1) + Combine(op, x % 2, y % 2)
  }

  lemma {:induction false} BitwiseNatBit(op: Connective, x: nat, y: nat, n: nat, i: nat)
    requires i < n
    ensures BitAt(BitwiseNat(op, x, y, n), i) == Combine(op, BitAt(x, i), BitAt(y, i))
  {
    var hi := BitwiseNat(op, x / 2, y / 2, n - 1);
    var lo := Combine(op, x % 2, y % 2);
    var r := 2 * hi + lo;
    assert BitwiseNat(op, x, y, n) == r;
    DivUnique(r, 2, hi, lo);
    if i == 0 {
      assert Pow2(0) == 1;
    } else {
      BitAtHalf(r, i);
      BitAtHalf(x, i);
      BitAtHalf(y, i);
      BitwiseNatBit(op, x / 2, y / 2, n - 1, i - 1);
    }
  }

  /** Bit `i` of `u` is bit `i - 1` of `u / 2`. */
  lemma BitAtHalf(u: nat, i: nat)
    requires i > 0
    ensures BitAt(u, i) == BitAt(u / 2, i - 1)
  {
    var p := Pow2(i - 1);
    assert Pow2(i) == 2 * p;
    DivDiv(u, p);
  }

  /**
   * A bitwise operator on `int`: every one of the 32 bits of the result is the
   * connective applied to the same bit of the two operands.
   */
  function Bitwise(op: Connective, a: Int32, b: Int32): (r: Int32)
    ensures forall i :: 0 <= i < 32 ==>
      BitAt(Unsigned(r), i) == Combine(op, BitAt(Unsigned(a), i), BitAt(Unsigned(b), i))
  {
    Pow2Word();
    var u := BitwiseNat(op, Unsigned(a), Unsigned(b), 32);
    forall i | 0 <= i < 32
      ensures BitAt(u, i) == Combine(op, BitAt(Unsigned(a), i), BitAt(Unsigned(b), i))
    {
      BitwiseNatBit(op, Unsigned(a), Unsigned(b), 32, i);
    }
    FromUnsigned(u)
  }

  /** `a | b`: negative exactly when either operand is. */
  function Or(a: Int32, b: Int32): (r: Int32)
    ensures r < 0 <==> a < 0 || b < 0
  {
    var r := Bitwise(BitOr, a, b);
    SignBit(a);
    SignBit(b);
    SignBit(r);
    r
  }

  /** `a & b`: negative exactly when both operands are. */
  function And(a: Int32, b: Int32): (r: Int32)
    ensures r < 0 <==> a < 0 && b < 0
  {
    var r := Bitwise(BitAnd, a, b);
    SignBit(a);
    SignBit(b);
    SignBit(r);
    r
  }

  /** `a ^ b`: negative exactly when the operands' signs differ. */
  function Xor(a: Int32, b: Int32): (r: Int32)
    ensures r < 0 <==> (a < 0) != (b < 0)
  {
    var r := Bitwise(BitXor, a, b);
    SignBit(a);
    SignBit(b);
    SignBit(r);
    r
  }

  /** Worked values of `/` from JLS 15.17.2, including the one overflow. */
  lemma DivExamples()
    ensures Div(5, 3) == 1 && Div(5, -3) == -1 && Div(-5, 3) == -1 && Div(-5, -3) == 1
    ensures Div(MinInt, -1) == MinInt
  {
  }

  /** Worked values of `%` from JLS 15.17.3: the remainder takes the dividend's sign. */
  lemma RemExamples()
    ensures Rem(5, 3) == 2 && Rem(5, -3) == 2 && Rem(-5, 3) == -2 && Rem(-5, -3) == -2
  {
  }

  /** Overflow wraps around (JLS 15.18.2). */
  lemma AddExamples()
    ensures Add(MaxInt, 1) == MinInt && Sub(MinInt, 1) == MaxInt
  {
  }

  /** Shift distances are masked, `>>` extends the sign and `>>>` fills with zeros (JLS 15.19). */
  lemma ShiftExamples()
    ensures Shl(1, 33) == 2 && Shr(-8, 1) == -4 && Ushr(-1, 28) == 15
  {
    assert ShiftDistance(33) == 1 && ShiftDistance(1) == 1 && ShiftDistance(28) == 28;
    assert Pow2(1) == 2;
    Pow2Add(14, 14);
    assert Pow2(14) == 0x4000 by {
      Pow2Add(7, 7);
      assert Pow2(7) == 0x80;
    }
    assert Pow2(28) == 0x1000_0000;
    assert Unsigned(-1) == 0xffff_ffff;
    DivUnique(0xffff_ffff, 0x1000_0000, 15, 0x0fff_ffff);
  }
}
