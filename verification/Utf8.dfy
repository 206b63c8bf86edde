/** UTF-8: the encoding of code points and the grammar of RFC 3629, section 4. */
module Utf8 {
  import opened Bytes

  /** Unicode scalar values: everything but the surrogates. */
  predicate Scalar(cp: int) {
    0 <= cp < 0xD800 || 0xE000 <= cp < 0x11_0000
  }

  function Mark(cp: nat): byte { (0x80 + cp % 64) as byte }

  /** The layout of RFC 3629, section 3, which has room for 21 bits. */
  function Encode(cp: nat): (s: Str)
    requires cp < 0x20_0000
    ensures 1 <= |s| <= 4
  {
    if cp < 0x80 then [cp as byte]
    else if cp < 0x800 then [(0xC0 + cp / 64) as byte, Mark(cp)]
    else if cp < 0x1_0000 then [(0xE0 + cp / 64 / 64) as byte, Mark(cp / 64), Mark(cp)]
    else [(0xF0 + cp / 64 / 64 / 64) as byte, Mark(cp / 64 / 64), Mark(cp / 64), Mark(cp)]
  }

  predicate Tail(s: Str, i: nat) {
    i < |s| && 0x80 <= s[i] <= 0xBF
  }

  function Low(s: Str, i: nat): (n: nat)
    requires Tail(s, i)
    ensures n < 64
  {
    s[i] as int - 0x80
  }

  /** What the second byte may be: the grammar excludes overlong forms, surrogates and values past U+10FFFF. */
  predicate SecondOk(first: byte, second: byte) {
    match first
    case 0xE0 => 0xA0 <= second <= 0xBF
    case 0xED => 0x80 <= second <= 0x9F
    case 0xF0 => 0x90 <= second <= 0xBF
    case 0xF4 => 0x80 <= second <= 0x8F
    case _ => 0x80 <= second <= 0xBF
  }

  datatype Decoded = CodePoint(cp: nat, size: nat) | Malformed

  /** The character a text starts with. */
  function DecodeFirst(s: Str): (d: Decoded)
    requires s != []
    ensures d.CodePoint? ==> 1 <= d.size <= |s|
  {
    var b := s[0] as int;
    if b < 0x80 then CodePoint(b, 1)
    else if !(0xC2 <= b <= 0xF4) || !Tail(s, 1) || !SecondOk(s[0], s[1]) then Malformed
    else if b < 0xE0 then CodePoint((b - 0xC0) * 64 + Low(s, 1), 2)
    else if !Tail(s, 2) then Malformed
    else if b < 0xF0 then CodePoint(((b - 0xE0) * 64 + Low(s, 1)) * 64 + Low(s, 2), 3)
    else if !Tail(s, 3) then Malformed
    else CodePoint((((b - 0xF0) * 64 + Low(s, 1)) * 64 + Low(s, 2)) * 64 + Low(s, 3), 4)
  }

  predicate WellFormed(s: Str) {
    s == [] || (DecodeFirst(s).CodePoint? && WellFormed(s[DecodeFirst(s).size..]))
  }

  function CodePoints(s: Str): seq<nat>
    requires WellFormed(s)
  {
    if s == [] then [] else [DecodeFirst(s).cp] + CodePoints(s[DecodeFirst(s).size..])
  }

  lemma SixBits(high: nat, low: nat)
    requires low < 64
    ensures (high * 64 + low) / 64 == high && (high * 64 + low) % 64 == low
  {
  }

  /** Each scalar value has exactly the form the grammar gives it. */
  lemma EncodedDecodes(cp: nat)
    requires Scalar(cp)
    ensures DecodeFirst(Encode(cp)) == CodePoint(cp, |Encode(cp)|)
  {
    var (c1, c2) := (cp / 64, cp / 64 / 64);
    assert cp == 64 * c1 + cp % 64 && c1 == 64 * c2 + c1 % 64 && c2 == 64 * (c2 / 64) + c2 % 64;
  }

  /** The grammar accepts nothing else. */
  lemma EncodeInvertsDecode(s: Str)
    requires s != [] && DecodeFirst(s).CodePoint?
    ensures var d := DecodeFirst(s); Scalar(d.cp) && Encode(d.cp) == s[..d.size]
  {
    var d := DecodeFirst(s);
    var b := s[0] as int;
    if d.size == 2 {
      SixBits(b - 0xC0, Low(s, 1));
    } else if d.size == 3 {
      SixBits(b - 0xE0, Low(s, 1));
      SixBits((b - 0xE0) * 64 + Low(s, 1), Low(s, 2));
    } else if d.size == 4 {
      SixBits(b - 0xF0, Low(s, 1));
      SixBits((b - 0xF0) * 64 + Low(s, 1), Low(s, 2));
      SixBits(((b - 0xF0) * 64 + Low(s, 1)) * 64 + Low(s, 2), Low(s, 3));
    }
  }

  /** What follows a character does not matter. */
  lemma DecodeFirstExtends(s: Str, t: Str)
    requires s != [] && DecodeFirst(s).CodePoint?
    ensures DecodeFirst(s + t) == DecodeFirst(s)
  {
    assert forall i :: 0 <= i < |s| ==> (s + t)[i] == s[i];
  }

  lemma DecodeInvertsEncode(cp: nat, rest: Str)
    requires Scalar(cp)
    ensures DecodeFirst(Encode(cp) + rest) == CodePoint(cp, |Encode(cp)|)
  {
    EncodedDecodes(cp);
    DecodeFirstExtends(Encode(cp), rest);
  }

  lemma {:induction false} WellFormedAppend(s: Str, t: Str)
    requires WellFormed(s) && WellFormed(t)
    ensures WellFormed(s + t) && CodePoints(s + t) == CodePoints(s) + CodePoints(t)
    decreases |s|
  {
    hide DecodeFirst;
    if s == [] {
      assert s + t == t;
    } else {
      var d := DecodeFirst(s);
      DecodeFirstExtends(s, t);
      assert (s + t)[d.size..] == s[d.size..] + t;
      WellFormedAppend(s[d.size..], t);
    }
  }
}
