/** References spelled out: the five entities, and characters by their number in decimal or hexadecimal text. */
module XmlReferences {
  import opened Bytes
  import opened Decimals
  import opened Hexadecimals
  import opened XmlText
  import Utf8

  const ENTITIES: seq<(string, byte)> := [("&quot;", 0x22), ("&amp;", 0x26), ("&apos;", 0x27), ("&lt;", 0x3C), ("&gt;", 0x3E)]

  predicate IsSpelled(t: Str, text: string) {
    |t| == |text| && forall i :: 0 <= i < |text| ==> t[i] as int == text[i] as int
  }

  lemma EntitySpelled(i: nat)
    requires i < 5
    ensures IsSpelled(ReferenceTo(i), ENTITIES[i].0) && EntityTable(i).value == ENTITIES[i].1
  {
    var t := ReferenceTo(i);
    match i
    case 0 => assert t == [0x26, 0x71, 0x75, 0x6F, 0x74, 0x3B];
    case 1 => assert t == [0x26, 0x61, 0x6D, 0x70, 0x3B];
    case 2 => assert t == [0x26, 0x61, 0x70, 0x6F, 0x73, 0x3B];
    case 3 => assert t == [0x26, 0x6C, 0x74, 0x3B];
    case 4 => assert t == [0x26, 0x67, 0x74, 0x3B];
  }

  /** Each of the five entities is one byte, whatever follows it. */
  lemma EntityIsRead(i: nat, t: Str, rest: Str)
    requires i < 5 && IsSpelled(t, ENTITIES[i].0)
    ensures FirstPiece(t + rest, TEXT) == Piece(|t|, [ENTITIES[i].1])
  {
    hide EntityTable, FirstPiece;
    EntitySpelled(i);
    assert t == ReferenceTo(i);
    ReferenceDecodes(i, rest, TEXT);
  }

  // ---------- numbers ----------

  lemma {:induction false} StrChrFinds(t: Str, i: nat, digits: Str, c: byte)
    requires c != 0 && At(t, i, digits + [c]) && c !in digits && 0 !in digits
    ensures StrChr(t, i, c) == i + |digits|
    decreases |digits|
  {
    if digits == [] {
      assert digits + [c] == [c] + [];
      AtFirst(t, i, c, []);
    } else {
      assert digits + [c] == [digits[0]] + (digits[1..] + [c]);
      AtFirst(t, i, digits[0], digits[1..] + [c]);
      StrChrFinds(t, i + 1, digits[1..], c);
    }
  }

  lemma {:induction false} NoMarkBehind(s: Str, mark: byte)
    requires mark !in s
    ensures BehindLast(s, mark) == s
  {
    if s != [] { NoMarkBehind(s[..|s| - 1], mark); }
  }

  lemma {:induction false} HexTextNumber(s: Str, n: nat)
    requires HexTextOf(s, n)
    ensures XmlText.AllDigits(s, 16) && Number(s, 16) == n
    ensures SEMICOLON !in s && LOWER_X !in s && 0 !in s
  {
    hide DigitOf;
    var (c, front) := (s[|s| - 1], s[..|s| - 1]);
    DigitIsRead(c, n % 16);
    assert Digit(c, 16) == HexDigitValue(c);
    assert s == front + [c];
    if |s| > 1 { HexTextNumber(front, n / 16); }
    FrontAndLast(front, c, 16);
  }

  lemma FrontAndLast(front: Str, c: byte, base: nat)
    requires (base == 10 || base == 16) && XmlText.AllDigits(front, base) && Digit(c, base) >= 0
    ensures XmlText.AllDigits(front + [c], base) && Number(front + [c], base) == base * Number(front, base) + Digit(c, base)
  {
    assert (front + [c])[..|front|] == front;
  }

  lemma {:induction false} DecimalNumber(n: nat)
    ensures XmlText.AllDigits(Decimal(n), 10) && Number(Decimal(n), 10) == n
    ensures SEMICOLON !in Decimal(n) && HASH !in Decimal(n) && LOWER_X !in Decimal(n) && 0 !in Decimal(n)
  {
    if n >= 10 {
      DecimalNumber(n / 10);
      FrontAndLast(Decimal(n / 10), (48 + n % 10) as byte, 10);
    } else {
      FrontAndLast([], (48 + n) as byte, 10);
      assert [] + [(48 + n) as byte] == Decimal(n);
    }
  }

  /** What a reference to the character with number n becomes: its UTF-8, with the number taken modulo 2^32. */
  function CharacterOf(n: nat): Str {
    var m := n % 0x1_0000_0000;
    if m < 0x20_0000 then Utf8.Encode(m) else []
  }

  /** "&#x", the number in hexadecimal, and ";". */
  lemma HexReferenceIsRead(digits: Str, n: nat, rest: Str)
    requires HexTextOf(digits, n)
    ensures var t := [0x26, 0x23, 0x78] + (digits + [0x3B] + rest);
      FirstPiece(t, TEXT) == Piece(|digits| + 4, CharacterOf(n))
  {
    hide HexTextOf, Number, Digit, Utf8.Encode;
    var t := [0x26, 0x23, 0x78] + (digits + [0x3B] + rest);
    HexTextNumber(digits, n);
    NumericIsRead(t, 3, digits, LOWER_X, 16, rest);
    SomeDigits(digits, n);
  }

  lemma SomeDigits(digits: Str, n: nat)
    requires HexTextOf(digits, n)
    ensures digits != []
  {
  }

  /** "&#", the number in decimal, and ";". */
  lemma DecimalReferenceIsRead(n: nat, rest: Str)
    ensures var t := [0x26, 0x23] + (Decimal(n) + [0x3B] + rest);
      FirstPiece(t, TEXT) == Piece(|Decimal(n)| + 3, CharacterOf(n))
  {
    hide Decimal, Number, Digit, Utf8.Encode;
    var t := [0x26, 0x23] + (Decimal(n) + [0x3B] + rest);
    DecimalNumber(n);
    NumericIsRead(t, 2, Decimal(n), HASH, 10, rest);
    assert t[2] == Decimal(n)[0] && t[2] in Decimal(n);
  }

  /** Where the digits and the semicolon stand. */
  lemma DigitsDivided(t: Str, from: nat, digits: Str, rest: Str)
    requires from <= |t| && t[from..] == digits + [0x3B] + rest
    ensures var k := from + |digits|; k < |t| && At(t, from, digits + [0x3B]) && t[from..k] == digits
    ensures from < |t| && (t[from] == 0x3B || t[from] in digits)
  {
    var (k, u) := (from + |digits|, t[from..]);
    SliceSlice(t, from, |t|, 0, |digits|);
    SliceSlice(t, from, |t|, 0, |digits| + 1);
    assert u[..|digits|] == digits && u[..|digits| + 1] == digits + [0x3B];
    assert t[from] == u[0] == (digits + [0x3B])[0];
  }

  lemma NumericIsRead(t: Str, from: nat, digits: Str, mark: byte, base: nat, rest: Str)
    requires (base == 10 || base == 16) && 2 <= from <= |t| && t[from..] == digits + [0x3B] + rest
    requires XmlText.AllDigits(digits, base) && SEMICOLON !in digits && mark !in digits && 0 !in digits
    ensures NumericRef(t, from, mark, base) == Reference(from + |digits| + 1, CharacterOf(Number(digits, base)))
  {
    hide XmlText.AllDigits, Number, Utf8.Encode, At, StrChr, BehindLast;
    DigitsDivided(t, from, digits, rest);
    StrChrFinds(t, from, digits, SEMICOLON);
    NoMarkBehind(digits, mark);
  }

  // ---------- what is no number ----------

  predicate IsDecimal(c: char) { '0' <= c <= '9' }

  predicate IsHexadecimal(c: char) { IsDecimal(c) || 'a' <= c <= 'f' || 'A' <= c <= 'F' }

  lemma DigitsSpelled(c: byte)
    ensures Digit(c, 10) >= 0 <==> IsDecimal(c as char)
    ensures Digit(c, 16) >= 0 <==> IsHexadecimal(c as char)
  {
  }

  lemma NumericIsLeft(t: Str, from: nat, digits: Str, mark: byte, base: nat, rest: Str)
    requires (base == 10 || base == 16) && 2 <= from <= |t| && t[from..] == digits + [0x3B] + rest
    requires !XmlText.AllDigits(digits, base) && SEMICOLON !in digits && mark !in digits && 0 !in digits
    ensures NumericRef(t, from, mark, base) == Unread
  {
    hide XmlText.AllDigits, Number, Utf8.Encode, At, StrChr, BehindLast;
    DigitsDivided(t, from, digits, rest);
    StrChrFinds(t, from, digits, SEMICOLON);
    NoMarkBehind(digits, mark);
  }

  /** With any other byte among its digits, a reference stays as it is: the ampersand is text. */
  lemma NoNumberIsLeft(digits: Str, i: nat, rest: Str)
    requires i < |digits| && 0x3B !in digits && 0 !in digits
    ensures 0x78 !in digits && !IsHexadecimal(digits[i] as char) ==>
      FirstPiece([0x26, 0x23, 0x78] + (digits + [0x3B] + rest), TEXT) == Piece(1, [0x26])
    ensures 0x23 !in digits && digits[0] != 0x78 && !IsDecimal(digits[i] as char) ==>
      FirstPiece([0x26, 0x23] + (digits + [0x3B] + rest), TEXT) == Piece(1, [0x26])
  {
    hide Number, Digit, Utf8.Encode, NumericRef;
    DigitsSpelled(digits[i]);
    var tail := digits + [0x3B] + rest;
    assert tail[0] == digits[0] && digits[0] in digits;
    if 0x78 !in digits && !IsHexadecimal(digits[i] as char) {
      var t := [0x26, 0x23, 0x78] + tail;
      assert t[3..] == tail;
      NumericIsLeft(t, 3, digits, LOWER_X, 16, rest);
    }
    if 0x23 !in digits && digits[0] != 0x78 && !IsDecimal(digits[i] as char) {
      var t := [0x26, 0x23] + tail;
      assert t[2..] == tail && t[2] == digits[0];
      NumericIsLeft(t, 2, digits, HASH, 10, rest);
    }
  }
}
