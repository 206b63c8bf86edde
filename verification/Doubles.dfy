/** IEEE 754 binary64 values, carried as their 64-bit pattern. */
module Doubles {

  type uint64 = x: int | 0 <= x < 0x1_0000_0000_0000_0000
  type int64 = x: int | -0x8000_0000_0000_0000 <= x < 0x8000_0000_0000_0000

  const SIGN_BIT: int := 0x8000_0000_0000_0000
  const IMPLICIT_BIT: int := 0x10_0000_0000_0000
  const INFINITY: int := 0x7FF0_0000_0000_0000
  const QUIET_NAN: int := 0x7FF8_0000_0000_0000

  /** The IEEE comparison `==`: a NaN differs from everything, and the two zeros agree. */
  predicate SameDouble(a: uint64, b: uint64) {
    !IsNaN(a) && !IsNaN(b) && (a == b || (a % SIGN_BIT == 0 && b % SIGN_BIT == 0))
  }

  predicate IsNaN(bits: uint64) {
    bits % SIGN_BIT > INFINITY
  }

  function Pow2(n: nat): (p: nat)
    ensures p > 0
  {
    if n == 0 then 1 else 2 * Pow2(n - 1)
  }

  /** The number of binary digits of m. */
  function BitLength(m: nat): (n: nat)
    ensures m > 0 ==> n > 0 && Pow2(n - 1) <= m
    ensures m < Pow2(n)
  {
    if m == 0 then 0 else 1 + BitLength(m / 2)
  }

  lemma {:induction false} Pow2Splits(m: nat, n: nat)
    ensures Pow2(m + n) == Pow2(m) * Pow2(n)
  {
    if m > 0 { Pow2Splits(m - 1, n); }
  }

  lemma {:induction false} Pow2Monotonic(m: nat, n: nat)
    requires m <= n
    ensures Pow2(m) <= Pow2(n)
  {
    Pow2Splits(m, n - m);
  }

  lemma BitLengthBound(m: nat, n: nat)
    requires m < Pow2(n)
    ensures BitLength(m) <= n
  {
    if m > 0 && BitLength(m) > n { Pow2Monotonic(n, BitLength(m) - 1); }
  }

  lemma Pow2Values()
    ensures Pow2(52) == IMPLICIT_BIT && Pow2(53) == 2 * IMPLICIT_BIT
    ensures Pow2(64) == 0x1_0000_0000_0000_0000
  {
    assert Pow2(13) == 0x2000;
    assert Pow2(26) == Pow2(13) * Pow2(13) by { Pow2Splits(13, 13); }
    assert Pow2(52) == Pow2(26) * Pow2(26) by { Pow2Splits(26, 26); }
    assert Pow2(64) == 0x1000 * Pow2(52) by { Pow2Splits(12, 52); }
  }

  /** m * 2^e rounded to 53 significant bits, ties to even, as a non-negative double. */
  function Magnitude(m: nat, e: int): (bits: uint64)
    requires m < 0x1_0000_0000_0000_0000 && -500 <= e <= 500
    ensures bits < INFINITY
  {
    if m == 0 then 0 else
      Pow2Values();
      BitLengthBound(m, 64);
      var length := BitLength(m);
      (e + length + 1021) * IMPLICIT_BIT + Significand(m)
  }

  /** The 53 leading bits of m, rounded to nearest even; a carry out yields 2^53. */
  function Significand(m: nat): (q: nat)
    requires m > 0
    ensures IMPLICIT_BIT <= q <= 2 * IMPLICIT_BIT
  {
    var length := BitLength(m);
    Pow2Values();
    if length <= 53 then
      SignificandOfShort(m, length);
      m * Pow2(53 - length)
    else
      SignificandOfLong(m, length);
      RoundedQuotient(m, Pow2(length - 53))
  }

  /** m / unit to the nearest integer, ties to even. */
  function RoundedQuotient(m: nat, unit: nat): (q: nat)
    requires unit > 0
    ensures m / unit <= q <= m / unit + 1
  {
    var (q, rest) := (m / unit, m % unit);
    if 2 * rest > unit || (2 * rest == unit && q % 2 == 1) then q + 1 else q
  }

  /** Nearest, and even where two integers are equally near. */
  lemma RoundsToNearestEven(m: nat, unit: nat)
    requires unit > 0
    ensures var error: int := 2 * (m - RoundedQuotient(m, unit) * unit);
      error <= unit && -error <= unit && (error == unit || -error == unit ==> RoundedQuotient(m, unit) % 2 == 0)
  {
    var (q, rest) := (m / unit, m % unit);
    var r := RoundedQuotient(m, unit);
    assert m == q * unit + rest;
    assert r == q || r == q + 1;
    assert r * unit == q * unit + (r - q) * unit;
    assert 2 * (m - r * unit) == if r == q then 2 * rest else 2 * rest - 2 * unit;
  }

  lemma SignificandOfShort(m: nat, length: nat)
    requires m > 0 && length == BitLength(m) <= 53
    ensures Pow2(52) <= m * Pow2(53 - length) < Pow2(53)
  {
    var scale := Pow2(53 - length);
    Pow2Splits(length, 53 - length);
    Pow2Splits(length - 1, 53 - length);
    MulBounds(Pow2(length - 1), m, Pow2(length), scale);
  }

  lemma SignificandOfLong(m: nat, length: nat)
    requires m > 0 && length == BitLength(m) > 53
    ensures Pow2(52) <= m / Pow2(length - 53) < Pow2(53)
  {
    var unit := Pow2(length - 53);
    Pow2Splits(53, length - 53);
    Pow2Splits(52, length - 53);
    DivBounds(m, unit, Pow2(52), Pow2(53));
  }

  lemma MulMonotonic(a: nat, b: nat, c: nat)
    requires a <= b
    ensures a * c <= b * c
  {
  }

  lemma MulBounds(low: nat, m: nat, high: nat, scale: nat)
    requires low <= m < high && scale > 0
    ensures low * scale <= m * scale < high * scale
  {
  }

  lemma DivBounds(m: nat, unit: nat, low: nat, high: nat)
    requires unit > 0 && low * unit <= m < high * unit
    ensures low <= m / unit < high
  {
    var q := m / unit;
    assert q * unit <= m < (q + 1) * unit;
    if q < low { MulMonotonic(q + 1, low, unit); }
    if q >= high { MulMonotonic(high, q, unit); }
  }

  /** static_cast<double> of an integer. */
  function FromInteger(n: int): (bits: uint64)
    requires -0x8000_0000_0000_0000 <= n < 0x1_0000_0000_0000_0000
    ensures !IsNaN(bits)
  {
    if n < 0 then SIGN_BIT + Magnitude(-n, 0) else Magnitude(n, 0)
  }

  /** Widening of a binary16 pattern, as the decoder of RFC 7049 appendix D computes it. */
  function FromHalf(half: int): (bits: uint64)
    requires 0 <= half < 0x1_0000
  {
    var (exp, mant) := (half / 0x400 % 32, half % 0x400);
    var val :=
      if exp == 0 then Magnitude(mant, -24)
      else if exp != 31 then Magnitude(mant + 0x400, exp - 25)
      else if mant == 0 then INFINITY else QUIET_NAN;
    if half >= 0x8000 then SIGN_BIT + val else val
  }

  /** The conversion of a binary32 pattern to binary64. */
  function FromSingle(single: int): (bits: uint64)
    requires 0 <= single < 0x1_0000_0000
  {
    var (exp, mant) := (single / 0x80_0000 % 256, single % 0x80_0000);
    var val :=
      if exp == 0 then Magnitude(mant, -149)
      else if exp != 255 then Magnitude(mant + 0x80_0000, exp - 150)
      else if mant == 0 then INFINITY
      else QUIET_NAN + mant % 0x40_0000 * 0x2000_0000;
    if single >= 0x8000_0000 then SIGN_BIT + val else val
  }
}
