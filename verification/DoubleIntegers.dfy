/** The doubles that are integers, by the value of their sign, exponent and fraction (IEEE 754, binary64). */
module DoubleIntegers {
  import opened Doubles
  import opened Jsons

  function Absolute(n: int): nat { if n < 0 then -n else n }

  /** The 52 bits of the fraction, behind an implicit one, times a power of two that is at most 1: exactly n. */
  predicate Denotes(bits: uint64, n: int) {
    var (sign, exponent, fraction) := (bits / SIGN_BIT, bits / IMPLICIT_BIT % 2048, bits % IMPLICIT_BIT);
    && (n == 0 ==> exponent == 0 && fraction == 0)
    && (n != 0 ==> 1 <= exponent <= 1075 && sign == if n < 0 then 1 else 0)
    && (n != 0 ==> Absolute(n) * Pow2(1075 - exponent) == 0x10_0000_0000_0000 + fraction)
  }

  /** The fields of a double put together. */
  lemma Fields(exponent: nat, significand: nat, sign: nat)
    requires exponent < 2047 && IMPLICIT_BIT <= significand < 2 * IMPLICIT_BIT && sign <= 1
    ensures var bits := sign * SIGN_BIT + exponent * IMPLICIT_BIT + significand;
      bits / SIGN_BIT == sign && bits / IMPLICIT_BIT % 2048 == exponent + 1 && bits % IMPLICIT_BIT == significand - IMPLICIT_BIT
  {
    var (high, fraction) := (sign * 2048 + exponent + 1, significand - IMPLICIT_BIT);
    var bits := sign * SIGN_BIT + exponent * IMPLICIT_BIT + significand;
    assert bits == high * IMPLICIT_BIT + fraction;
    assert bits / IMPLICIT_BIT == high && bits % IMPLICIT_BIT == fraction;
  }

  lemma ShortSignificand(m: nat)
    requires 0 < m < 0x20_0000_0000_0000
    ensures BitLength(m) <= 53 && Significand(m) == m * Pow2(53 - BitLength(m))
    ensures IMPLICIT_BIT <= Significand(m) < 2 * IMPLICIT_BIT
  {
    Pow2Values();
    BitLengthBound(m, 53);
    SignificandOfShort(m, BitLength(m));
  }

  /** An integer of at most 53 bits is converted without loss. */
  lemma ConversionIsExact(n: int)
    requires -0x20_0000_0000_0000 < n < 0x20_0000_0000_0000
    ensures Denotes(FromInteger(n), n) && (n != 0 ==> FromInteger(n) % SIGN_BIT != 0)
  {
    hide BitLength, Significand, Pow2;
    var m := Absolute(n);
    if m > 0 {
      ShortSignificand(m);
      assert BitLength(m) > 0;
      Fields(BitLength(m) + 1021, Significand(m), if n < 0 then 1 else 0);
      assert 1075 - (BitLength(m) + 1022) == 53 - BitLength(m);
    }
  }

  /** Only one power of two brings m to 53 bits. */
  lemma OneScale(m: nat, h: nat, k: nat)
    requires IMPLICIT_BIT <= m * Pow2(h) < 2 * IMPLICIT_BIT && IMPLICIT_BIT <= m * Pow2(k) < 2 * IMPLICIT_BIT
    ensures h == k
  {
    if h < k { TwiceAsMuch(m, h, k); }
    if k < h { TwiceAsMuch(m, k, h); }
  }

  lemma TwiceAsMuch(m: nat, h: nat, k: nat)
    requires h < k
    ensures 2 * (m * Pow2(h)) <= m * Pow2(k)
  {
    Pow2Monotonic(h + 1, k);
    MulMonotonic(Pow2(h + 1), Pow2(k), m);
  }

  /** No other double has that value. */
  lemma DenotesOnce(bits: uint64, n: int)
    requires -0x20_0000_0000_0000 < n < 0x20_0000_0000_0000 && n != 0 && Denotes(bits, n)
    ensures bits == FromInteger(n)
  {
    hide BitLength, Significand, Pow2;
    var (m, other) := (Absolute(n), FromInteger(n));
    ConversionIsExact(n);
    OneScale(m, 1075 - bits / IMPLICIT_BIT % 2048, 1075 - other / IMPLICIT_BIT % 2048);
    SameFields(bits, other);
  }

  lemma SameFields(a: uint64, b: uint64)
    requires a / SIGN_BIT == b / SIGN_BIT && a / IMPLICIT_BIT % 2048 == b / IMPLICIT_BIT % 2048 && a % IMPLICIT_BIT == b % IMPLICIT_BIT
    ensures a == b
  {
    Divided(a);
    Divided(b);
  }

  lemma Divided(a: uint64)
    ensures a == a / SIGN_BIT * SIGN_BIT + a / IMPLICIT_BIT % 2048 * IMPLICIT_BIT + a % IMPLICIT_BIT
  {
    var high := a / IMPLICIT_BIT;
    assert a == high * IMPLICIT_BIT + a % IMPLICIT_BIT;
    assert high / 2048 == a / SIGN_BIT;
    assert high == high / 2048 * 2048 + high % 2048;
  }

  /** A zero of either sign. */
  lemma ZeroBits(bits: uint64)
    ensures Denotes(bits, 0) <==> bits % SIGN_BIT == 0
  {
    Divided(bits);
    var (exponent, fraction) := (bits / IMPLICIT_BIT % 2048, bits % IMPLICIT_BIT);
    var low := exponent * IMPLICIT_BIT + fraction;
    assert bits == bits / SIGN_BIT * SIGN_BIT + low && 0 <= low < SIGN_BIT;
    assert bits % SIGN_BIT == low;
  }

  lemma SameAsDenoted(bits: uint64, n: int)
    requires -0x20_0000_0000_0000 < n < 0x20_0000_0000_0000
    ensures SameDouble(FromInteger(n), bits) <==> Denotes(bits, n)
  {
    hide Denotes, FromInteger;
    ConversionIsExact(n);
    ZeroBits(bits);
    if n == 0 {
      assert FromInteger(0) == 0 by { ZeroIsZero(); }
    } else if Denotes(bits, n) {
      DenotesOnce(bits, n);
    }
  }

  lemma ZeroIsZero()
    ensures FromInteger(0) == 0
  {
  }

  /** By operator==, an integer of at most 53 bits equals exactly the doubles of that value, on either side. */
  lemma IntegerEqualsItsDouble(n: int64, bits: uint64)
    requires -0x20_0000_0000_0000 < n < 0x20_0000_0000_0000
    ensures Equal(Integer(n), Float(bits)) <==> Denotes(bits, n)
    ensures Equal(Float(bits), Integer(n)) <==> Denotes(bits, n)
    ensures n >= 0 ==> (Equal(Unsigned(n), Float(bits)) <==> Denotes(bits, n))
    ensures n >= 0 ==> (Equal(Float(bits), Unsigned(n)) <==> Denotes(bits, n))
  {
    hide Denotes, FromInteger;
    SameAsDenoted(bits, n);
  }

  /** Integers of both kinds are compared after a conversion to the signed one. */
  lemma MixedIntegers(n: int64, u: uint64)
    ensures Equal(Integer(n), Unsigned(u)) <==> (n - u) % 0x1_0000_0000_0000_0000 == 0
    ensures Equal(Unsigned(u), Integer(n)) <==> (n - u) % 0x1_0000_0000_0000_0000 == 0
  {
    var d := n - u;
    assert d == 0 || d == -0x1_0000_0000_0000_0000 <==> d % 0x1_0000_0000_0000_0000 == 0;
  }
}
