/** Numbers that become doubles: half and single precision keep their value, long integers are rounded (IEEE 754). */
module Widening {
  import opened DoubleIntegers
  import opened Doubles

  function SignOf(bits: uint64): nat { bits / 0x8000_0000_0000_0000 }

  function ExponentOf(bits: uint64): nat { bits / 0x10_0000_0000_0000 % 2048 }

  function FractionOf(bits: uint64): nat { bits % 0x10_0000_0000_0000 }

  /** The double with these bits is m * 2^x with the given sign. */
  predicate IsProduct(bits: uint64, sign: nat, m: nat, x: int) {
    var (e, f) := (ExponentOf(bits), FractionOf(bits));
    && SignOf(bits) == sign
    && (m == 0 ==> e == 0 && f == 0)
    && (m != 0 ==> 1 <= e <= 2046 && e <= x + 1075 && 0x10_0000_0000_0000 + f == m * Pow2(x + 1075 - e))
  }

  lemma MagnitudeIsProduct(m: nat, x: int, sign: nat)
    requires m < 0x20_0000_0000_0000 && -500 <= x <= 500 && sign <= 1
    ensures var bits := sign * SIGN_BIT + Magnitude(m, x); bits < 0x1_0000_0000_0000_0000 && IsProduct(bits, sign, m, x)
  {
    hide BitLength, Significand, Pow2;
    if m > 0 {
      ShortSignificand(m);
      var e := x + BitLength(m) + 1021;
      assert BitLength(m) > 0;
      Fields(e, Significand(m), sign);
      assert x + 1075 - (e + 1) == 53 - BitLength(m);
    }
  }

  /** Sign, five bits of exponent and ten of fraction: subnormal, normal, infinite or not a number. */
  lemma HalfIsWidened(half: nat)
    requires half < 0x1_0000
    ensures var (s, e, f, d) := (half / 0x8000, half / 0x400 % 0x20, half % 0x400, FromHalf(half));
      && (e == 0 ==> IsProduct(d, s, f, -24))
      && (0 < e < 31 ==> IsProduct(d, s, 0x400 + f, e - 25))
      && (e == 31 ==> ExponentOf(d) == 2047 && SignOf(d) == s && (FractionOf(d) == 0 <==> f == 0))
  {
    hide Magnitude, IsProduct, Pow2;
    var (s, e, f) := (half / 0x8000, half / 0x400 % 0x20, half % 0x400);
    MagnitudeIsProduct(f, -24, s);
    if 0 < e < 31 { MagnitudeIsProduct(0x400 + f, e - 25, s); }
    assert s == if half >= 0x8000 then 1 else 0;
  }

  /** Sign, eight bits of exponent and 23 of fraction: subnormal, normal, infinite or not a number. */
  lemma SingleIsWidened(single: nat)
    requires single < 0x1_0000_0000
    ensures var (s, e, f, d) := (single / 0x8000_0000, single / 0x80_0000 % 0x100, single % 0x80_0000, FromSingle(single));
      && (e == 0 ==> IsProduct(d, s, f, -149))
      && (0 < e < 255 ==> IsProduct(d, s, 0x80_0000 + f, e - 150))
      && (e == 255 ==> ExponentOf(d) == 2047 && SignOf(d) == s && (FractionOf(d) == 0 <==> f == 0))
  {
    hide Magnitude, IsProduct, Pow2;
    var (s, e, f) := (single / 0x8000_0000, single / 0x80_0000 % 0x100, single % 0x80_0000);
    MagnitudeIsProduct(f, -149, s);
    if 0 < e < 255 { MagnitudeIsProduct(0x80_0000 + f, e - 150, s); }
    assert s == if single >= 0x8000_0000 then 1 else 0;
  }

  // ---------- integers of more than 53 bits ----------

  /** The value of a double that is at least 2^52. */
  function IntegerOf(bits: uint64): nat
    requires ExponentOf(bits) >= 1075
  {
    (0x10_0000_0000_0000 + FractionOf(bits)) * Pow2(ExponentOf(bits) - 1075)
  }

  /** m and the value of the double are at most half a unit in the last place apart; of two such doubles, the even one. */
  predicate IsNearest(bits: uint64, sign: nat, m: nat) {
    && SignOf(bits) == sign && 1075 <= ExponentOf(bits) <= 1087 &&
      var ulp: int := Pow2(ExponentOf(bits) - 1075);
      var error: int := 2 * (m - IntegerOf(bits));
      error <= ulp && -error <= ulp && (error == ulp || -error == ulp ==> FractionOf(bits) % 2 == 0)
  }

  /** The significand r, at the scale of a number of that length, gives the value r * 2^(length - 53). */
  lemma LongValue(length: nat, r: nat, sign: nat)
    requires 53 < length <= 64 && IMPLICIT_BIT <= r <= 2 * IMPLICIT_BIT && sign <= 1
    ensures var bits := sign * SIGN_BIT + (length + 1021) * IMPLICIT_BIT + r;
      && 0 <= bits < 0x1_0000_0000_0000_0000 && SignOf(bits) == sign
      && ExponentOf(bits) == length + 1022 + (if r == 2 * IMPLICIT_BIT then 1 else 0)
      && IntegerOf(bits) == r * Pow2(length - 53) && (r % 2 == 0 ==> FractionOf(bits) % 2 == 0)
  {
    if r == 2 * IMPLICIT_BIT {
      Fields(length + 1022, IMPLICIT_BIT, sign);
      assert Pow2(length - 52) == 2 * Pow2(length - 53);
    } else {
      Fields(length + 1021, r, sign);
    }
  }

  /** Longer integers, of either kind, become one of the nearest doubles. */
  lemma ConversionIsNearest(n: int)
    requires -0x8000_0000_0000_0000 <= n < 0x1_0000_0000_0000_0000 && Absolute(n) >= 0x20_0000_0000_0000
    ensures IsNearest(FromInteger(n), if n < 0 then 1 else 0, Absolute(n))
  {
    hide BitLength, RoundedQuotient, Pow2, IntegerOf;
    var m := Absolute(n);
    var length := BitLength(m);
    LongLength(m);
    var unit := Pow2(length - 53);
    var r := RoundedQuotient(m, unit);
    assert Significand(m) == r;
    LongValue(length, r, if n < 0 then 1 else 0);
    RoundsToNearestEven(m, unit);
    OneMoreBit(length - 53);
  }

  lemma OneMoreBit(k: nat)
    ensures Pow2(k + 1) == 2 * Pow2(k)
  {
  }

  lemma LongLength(m: nat)
    requires 0x20_0000_0000_0000 <= m < 0x1_0000_0000_0000_0000
    ensures 53 < BitLength(m) <= 64
  {
    Pow2Values();
    BitLengthBound(m, 64);
    if BitLength(m) <= 53 { Pow2Monotonic(BitLength(m), 53); }
  }
}
