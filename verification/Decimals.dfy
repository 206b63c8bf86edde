/** Decimal text: std::to_string of a size, and std::stoi. */
module Decimals {
  import opened Bytes
  import opened Wrappers

  predicate IsDigit(c: byte) { ZERO <= c <= NINE }

  /** isspace in the "C" locale. */
  predicate IsSpace(c: byte) { c == SPACE || 0x09 <= c <= 0x0D }

  predicate IsHex(c: byte) { IsDigit(c) || 0x41 <= c <= 0x46 || 0x61 <= c <= 0x66 }

  function HexDigitValue(c: byte): (d: nat)
    requires IsHex(c)
    ensures d < 16
  {
    if IsDigit(c) then (c - ZERO) as int else if c <= 0x46 then (c - 0x37) as int else (c - 0x57) as int
  }

  ghost predicate AllDigits(s: Str) { forall i :: 0 <= i < |s| ==> IsDigit(s[i]) }

  function DigitValue(c: byte): (d: nat)
    requires IsDigit(c)
    ensures d < 10
  {
    (c - ZERO) as int
  }

  /** std::to_string of an unsigned number. */
  function Decimal(n: nat): (s: Str)
    ensures |s| > 0 && AllDigits(s)
    ensures s[0] == ZERO ==> s == [ZERO]
    ensures s == [ZERO] <==> n == 0
  {
    if n < 10 then [(48 + n) as byte] else Decimal(n / 10) + [(48 + n % 10) as byte]
  }

  /** The number a run of digits denotes. */
  function DigitsValue(s: Str): nat
    requires AllDigits(s)
  {
    if s == [] then 0 else 10 * DigitsValue(s[..|s| - 1]) + DigitValue(s[|s| - 1])
  }

  lemma {:induction false} DecimalDenotes(n: nat)
    ensures DigitsValue(Decimal(n)) == n
  {
    if n >= 10 {
      DecimalDenotes(n / 10);
      var s := Decimal(n);
      assert s[..|s| - 1] == Decimal(n / 10);
    }
  }

  lemma DecimalInjective(m: nat, n: nat)
    requires Decimal(m) == Decimal(n)
    ensures m == n
  {
    DecimalDenotes(m);
    DecimalDenotes(n);
  }

  function DigitPrefix(s: Str): (p: Str)
    ensures AllDigits(p) && p <= s
    ensures |p| < |s| ==> !IsDigit(s[|p|])
  {
    if s != [] && IsDigit(s[0]) then [s[0]] + DigitPrefix(s[1..]) else []
  }

  lemma {:induction false} DigitPrefixOfDigits(s: Str)
    requires AllDigits(s)
    ensures DigitPrefix(s) == s
  {
    if s != [] { DigitPrefixOfDigits(s[1..]); }
  }

  function SkipSpaces(s: Str): Str {
    if s != [] && IsSpace(s[0]) then SkipSpaces(s[1..]) else s
  }

  /** std::stoi: leading blanks, an optional sign, at least one digit; anything after the digits is ignored. */
  function Stoi(s: Str): (r: Result<int>)
    ensures r.Ok? ==> -INT_MAX - 1 <= r.value <= INT_MAX
  {
    var body := SkipSpaces(s);
    if body != [] && body[0] == MINUS then Bounded(DigitPrefix(body[1..]), -1)
    else if body != [] && body[0] == PLUS then Bounded(DigitPrefix(body[1..]), 1)
    else Bounded(DigitPrefix(body), 1)
  }

  function Bounded(digits: Str, sign: int): (r: Result<int>)
    requires AllDigits(digits)
    ensures r.Ok? ==> -INT_MAX - 1 <= r.value <= INT_MAX
  {
    if digits == [] then Err(InvalidArgument) else
      var value := sign * DigitsValue(digits);
      if -INT_MAX - 1 <= value <= INT_MAX then Ok(value) else Err(OutOfRange)
  }

  lemma StoiInvertsDecimal(n: nat)
    ensures Stoi(Decimal(n)) == if n <= INT_MAX then Ok(n) else Err(OutOfRange)
  {
    var s := Decimal(n);
    assert IsDigit(s[0]);
    assert SkipSpaces(s) == s;
    DigitPrefixOfDigits(s);
    DecimalDenotes(n);
  }

  lemma {:induction false} SpacesAreSkipped(w: Str, rest: Str)
    requires forall i :: 0 <= i < |w| ==> w[i] in {0x20, 0x09, 0x0A, 0x0B, 0x0C, 0x0D}
    requires rest != [] && !IsSpace(rest[0])
    ensures SkipSpaces(w + rest) == rest
  {
    if w == [] {
      assert w + rest == rest;
    } else {
      assert (w + rest)[0] == w[0] && (w + rest)[1..] == w[1..] + rest;
      SpacesAreSkipped(w[1..], rest);
    }
  }

  lemma {:induction false} DigitPrefixStops(digits: Str, rest: Str)
    requires AllDigits(digits) && (rest != [] ==> !IsDigit(rest[0]))
    ensures DigitPrefix(digits + rest) == digits
  {
    if digits == [] {
      assert digits + rest == rest;
    } else {
      assert (digits + rest)[1..] == digits[1..] + rest;
      DigitPrefixStops(digits[1..], rest);
    }
  }

  /** std::stoi skips blanks, takes a sign, and ignores what follows the digits. */
  lemma StoiOfPrefixed(w: Str, n: nat, rest: Str)
    requires forall i :: 0 <= i < |w| ==> w[i] in {0x20, 0x09, 0x0A, 0x0B, 0x0C, 0x0D}
    requires rest != [] ==> !IsDigit(rest[0])
    ensures Stoi(w + (Decimal(n) + rest)) == if n <= 0x7FFF_FFFF then Ok(n) else Err(OutOfRange)
    ensures Stoi(w + ([0x2B] + (Decimal(n) + rest))) == if n <= 0x7FFF_FFFF then Ok(n) else Err(OutOfRange)
    ensures Stoi(w + ([0x2D] + (Decimal(n) + rest))) == if n <= 0x8000_0000 then Ok(0 - n) else Err(OutOfRange)
  {
    hide Decimal, DigitsValue, DigitPrefix, SkipSpaces;
    var line := Decimal(n) + rest;
    DecimalDenotes(n);
    DigitPrefixStops(Decimal(n), rest);
    assert line[0] == Decimal(n)[0] && IsDigit(line[0]);
    SpacesAreSkipped(w, line);
    SpacesAreSkipped(w, [0x2B] + line);
    SpacesAreSkipped(w, [0x2D] + line);
    assert ([0x2B] + line)[1..] == line && ([0x2D] + line)[1..] == line;
  }

  /** A text that starts with anything else is no number. */
  lemma NoInteger(text: Str)
    requires text == [] || (!('0' <= text[0] as char <= '9') && !IsSpace(text[0]) && text[0] != 0x2B && text[0] != 0x2D)
    ensures Stoi(text) == Err(InvalidArgument)
  {
  }
}
