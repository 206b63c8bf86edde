/** Hexadecimal text, written by division with the digits of two literal tables. */
module Hexadecimals {
  import opened Bytes
  import opened Decimals

  const LOWER_DIGITS: string := "0123456789abcdef"
  const UPPER_DIGITS: string := "0123456789ABCDEF"

  predicate DigitOf(c: byte, d: nat)
    requires d < 16
  {
    c as int == LOWER_DIGITS[d] as int || c as int == UPPER_DIGITS[d] as int
  }

  /** s is n to base 16, with any leading zeros, each digit from either table. */
  predicate HexTextOf(s: Str, n: nat) {
    s != [] && DigitOf(s[|s| - 1], n % 16) && if |s| == 1 then n < 16 else HexTextOf(s[..|s| - 1], n / 16)
  }

  lemma DigitIsRead(c: byte, d: nat)
    requires d < 16 && DigitOf(c, d)
    ensures IsHex(c) && HexDigitValue(c) == d
  {
    assert LOWER_DIGITS[d] as int == if d < 10 then 48 + d else 87 + d;
    assert UPPER_DIGITS[d] as int == if d < 10 then 48 + d else 55 + d;
  }

  lemma {:induction false} AllHex(s: Str, n: nat)
    requires HexTextOf(s, n)
    ensures forall i :: 0 <= i < |s| ==> IsHex(s[i])
  {
    hide DigitOf;
    DigitIsRead(s[|s| - 1], n % 16);
    if |s| > 1 {
      AllHex(s[..|s| - 1], n / 16);
      assert forall i :: 0 <= i < |s| - 1 ==> s[i] == s[..|s| - 1][i];
    }
  }
}
