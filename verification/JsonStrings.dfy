/** JSON string literals: escape_string, the lexer's string states, and get_string. */
module JsonStrings {
  import opened Bytes
  import opened Decimals
  import opened Wrappers
  import Utf8

  const BACKSPACE: byte := 0x08
  const TAB: byte := 0x09
  const FORM_FEED: byte := 0x0C
  const LOWER_B: byte := 0x62
  const LOWER_F: byte := 0x66
  const LOWER_N: byte := 0x6E
  const LOWER_R: byte := 0x72
  const LOWER_T: byte := 0x74
  const LOWER_U: byte := 0x75

  // ---------- escaping ----------

  function HexDigit(n: nat): (c: byte)
    requires n < 16
  {
    if n < 10 then (48 + n) as byte else (87 + n) as byte
  }

  /** The second byte of a two-byte escape, or 0 where there is none. */
  function ShortEscape(c: byte): byte {
    if c == QUOTE || c == BACKSLASH then c
    else if c == BACKSPACE then LOWER_B
    else if c == FORM_FEED then LOWER_F
    else if c == LF then LOWER_N
    else if c == CR then LOWER_R
    else if c == TAB then LOWER_T
    else 0
  }

  function EscapedChar(c: byte): (s: Str)
    ensures s != []
  {
    if ShortEscape(c) != 0 then [BACKSLASH, ShortEscape(c)]
    else if c <= 0x1F then [BACKSLASH, LOWER_U, ZERO, ZERO, HexDigit(c as int / 16), HexDigit(c as int % 16)]
    else [c]
  }

  function Escape(s: Str): Str {
    if s == [] then [] else EscapedChar(s[0]) + Escape(s[1..])
  }

  /** extra_space, a fold over the characters. */
  function ExtraSpace(s: Str): nat {
    if s == [] then 0 else
      ExtraSpace(s[..|s| - 1]) +
      var c := s[|s| - 1];
      if ShortEscape(c) != 0 then 1 else if c <= 0x1F then 5 else 0
  }

  lemma {:induction false} EscapeAppends(s: Str, t: Str)
    ensures Escape(s + t) == Escape(s) + Escape(t)
  {
    if s == [] {
      assert s + t == t;
    } else {
      assert (s + t)[1..] == s[1..] + t;
      EscapeAppends(s[1..], t);
    }
  }

  lemma EscapeOne(c: byte)
    ensures Escape([c]) == EscapedChar(c)
  {
    assert [c][1..] == [] && EscapedChar(c) + [] == EscapedChar(c);
  }

  lemma EscapeNext(s: Str, i: nat)
    requires i < |s|
    ensures Escape(s[..i + 1]) == Escape(s[..i]) + EscapedChar(s[i])
  {
    assert s[..i + 1] == s[..i] + [s[i]];
    EscapeAppends(s[..i], [s[i]]);
    EscapeOne(s[i]);
  }

  /** The buffer escape_string allocates is exactly as long as what it writes. */
  lemma {:induction false} ExtraSpaceIsExact(s: Str)
    ensures |Escape(s)| == |s| + ExtraSpace(s)
    ensures ExtraSpace(s) == 0 ==> Escape(s) == s
  {
    if s != [] {
      var n := |s| - 1;
      ExtraSpaceIsExact(s[..n]);
      assert s[..n + 1] == s && s == s[..n] + [s[n]];
      EscapeNext(s, n);
    }
  }

  lemma EscapePrefix(s: Str, i: nat)
    requires i < |s|
    ensures |Escape(s[..i])| + |EscapedChar(s[i])| <= |Escape(s)|
  {
    assert s == s[..i + 1] + s[i + 1..];
    EscapeAppends(s[..i + 1], s[i + 1..]);
    EscapeNext(s, i);
  }

  /** Writes the escape of c at pos into a buffer filled with backslashes. */
  method PutEscaped(result: array<byte>, pos: nat, c: byte) returns (next: nat)
    requires pos + |EscapedChar(c)| <= result.Length
    requires forall k :: pos <= k < result.Length ==> result[k] == BACKSLASH
    modifies result
    ensures next == pos + |EscapedChar(c)| && result[pos..next] == EscapedChar(c)
    ensures forall k :: 0 <= k < result.Length && !(pos <= k < next) ==> result[k] == old(result[k])
  {
    if c == QUOTE || c == BACKSPACE || c == FORM_FEED || c == LF || c == CR || c == TAB {
      result[pos + 1] := ShortEscape(c);
      next := pos + 2;
    } else if c == BACKSLASH {
      next := pos + 2;
    } else if c <= 0x1F {
      result[pos + 1] := LOWER_U;
      result[pos + 2] := ZERO;
      result[pos + 3] := ZERO;
      result[pos + 4] := HexDigit(c as int / 16);
      result[pos + 5] := HexDigit(c as int % 16);
      next := pos + 6;
    } else {
      result[pos] := c;
      next := pos + 1;
    }
  }

  method EscapeString(s: Str) returns (r: Str)
    ensures r == Escape(s)
  {
    hide Escape, EscapedChar;
    var space := ExtraSpace(s);
    ExtraSpaceIsExact(s);
    if space == 0 { return s; }
    var result := new byte[|s| + space](_ => BACKSLASH);
    var pos := 0;
    EscapeNothing();
    assert s[..0] == [];
    for i := 0 to |s|
      invariant pos <= result.Length && result[..pos] == Escape(s[..i])
      invariant forall k :: pos <= k < result.Length ==> result[k] == BACKSLASH
    {
      EscapePrefix(s, i);
      EscapeNext(s, i);
      ghost var done := result[..pos];
      var next := PutEscaped(result, pos, s[i]);
      assert result[..next] == done + result[pos..next];
      pos := next;
    }
    assert s[..|s|] == s;
    r := result[..];
  }

  lemma EscapeNothing()
    ensures Escape([]) == []
  {
  }

  // ---------- the string states of the lexer ----------

  /** The states of the generated automaton inside a string; the numbers are those of its labels. */
  datatype StringState =
    | Inside   // 30
    | Escaped  // 35
    | Tail1    // 36
    | AfterE0  // 37
    | Tail2    // 38
    | AfterED  // 39
    | AfterF0  // 40
    | Tail3    // 41
    | AfterF4  // 42
    | Hex4     // 55
    | Hex3     // 65
    | Hex2     // 71
    | Hex1     // 74
    | Rejected // 32

  function FromInside(c: byte): StringState {
    if c <= 0x1F then Rejected
    else if c == BACKSLASH then Escaped
    else if c <= 0x7F then Inside
    else if c <= 0xC1 then Rejected
    else if c <= 0xDF then Tail1
    else if c == 0xE0 then AfterE0
    else if c == 0xED then AfterED
    else if c <= 0xEF then Tail2
    else if c == 0xF0 then AfterF0
    else if c <= 0xF3 then Tail3
    else if c == 0xF4 then AfterF4
    else Rejected
  }

  predicate IsEscapeLetter(c: byte) {
    c == QUOTE || c == SLASH || c == BACKSLASH || c == LOWER_B || c == LOWER_F || c == LOWER_N || c == LOWER_R || c == LOWER_T
  }

  function Step(st: StringState, c: byte): StringState {
    match st
    case Inside => FromInside(c)
    case Escaped => if IsEscapeLetter(c) then Inside else if c == LOWER_U then Hex4 else Rejected
    case Tail1 => if 0x80 <= c <= 0xBF then Inside else Rejected
    case AfterE0 => if 0xA0 <= c <= 0xBF then Tail1 else Rejected
    case Tail2 => if 0x80 <= c <= 0xBF then Tail1 else Rejected
    case AfterED => if 0x80 <= c <= 0x9F then Tail1 else Rejected
    case AfterF0 => if 0x90 <= c <= 0xBF then Tail2 else Rejected
    case Tail3 => if 0x80 <= c <= 0xBF then Tail2 else Rejected
    case AfterF4 => if 0x80 <= c <= 0x8F then Tail2 else Rejected
    case Hex4 => if IsHex(c) then Hex3 else Rejected
    case Hex3 => if IsHex(c) then Hex2 else Rejected
    case Hex2 => if IsHex(c) then Hex1 else Rejected
    case Hex1 => if IsHex(c) then Inside else Rejected
    case Rejected => Rejected
  }

  /** Where the string token ends, one behind its closing quote, when the automaton is in state st at p. */
  function StringEnd(s: Str, p: nat, st: StringState): (end: Option<nat>)
    ensures end.Some? ==> p < end.value <= |s| && s[end.value - 1] == QUOTE
    decreases |s| - p
  {
    if p >= |s| then None
    else if st == Inside && s[p] == QUOTE then Some(p + 1)
    else
      var next := Step(st, s[p]);
      if next == Rejected then None else StringEnd(s, p + 1, next)
  }

  // ---------- the grammar of RFC 7159, section 7 ----------

  predicate HexAt(t: Str, i: nat) {
    i + 4 <= |t| && IsHex(t[i]) && IsHex(t[i + 1]) && IsHex(t[i + 2]) && IsHex(t[i + 3])
  }

  /** The length of the `char` a text starts with: an escape, or an unescaped character in UTF-8. */
  function CharLength(t: Str): (n: Option<nat>)
    requires t != []
    ensures n.Some? ==> 1 <= n.value <= |t|
  {
    if t[0] == BACKSLASH then
      if |t| > 1 && IsEscapeLetter(t[1]) then Some(2)
      else if |t| > 1 && t[1] == LOWER_U && HexAt(t, 2) then Some(6)
      else None
    else if t[0] < 0x20 || t[0] == QUOTE then None
    else match Utf8.DecodeFirst(t)
      case CodePoint(_, size) => Some(size)
      case Malformed => None
  }

  /** A sequence of `char`s. */
  predicate Content(t: Str) {
    t == [] || (CharLength(t).Some? && Content(t[CharLength(t).value..]))
  }

  lemma HexRun(s: Str, q: nat)
    ensures StringEnd(s, q, Hex4) == if HexAt(s, q) then StringEnd(s, q + 4, Inside) else None
  {
    hide StringEnd;
    Advance(s, q, Hex4);
    Advance(s, q + 1, Hex3);
    Advance(s, q + 2, Hex2);
    Advance(s, q + 3, Hex1);
  }

  /** One step from a state in which a quote has no special meaning. */
  lemma Advance(s: Str, q: nat, st: StringState)
    requires st != Inside && st != Rejected
    ensures StringEnd(s, q, st) ==
      if q >= |s| || Step(st, s[q]) == Rejected then None else StringEnd(s, q + 1, Step(st, s[q]))
  {
  }

  lemma TailRun(s: Str, q: nat)
    ensures StringEnd(s, q, Tail1) == if Utf8.Tail(s, q) then StringEnd(s, q + 1, Inside) else None
    ensures StringEnd(s, q, Tail2) ==
      if Utf8.Tail(s, q) && Utf8.Tail(s, q + 1) then StringEnd(s, q + 2, Inside) else None
  {
    hide StringEnd;
    Advance(s, q, Tail1);
    Advance(s, q, Tail2);
    Advance(s, q + 1, Tail1);
  }

  lemma RunsOverEscape(s: Str, p: nat)
    requires p < |s| && s[p] == BACKSLASH
    ensures match CharLength(s[p..])
      case Some(n) => StringEnd(s, p, Inside) == StringEnd(s, p + n, Inside)
      case None => StringEnd(s, p, Inside) == None
  {
    hide StringEnd;
    var t := s[p..];
    StepInside(s, p);
    Advance(s, p + 1, Escaped);
    HexRun(s, p + 2);
    assert |t| > 1 ==> t[1] == s[p + 1];
    assert HexAt(t, 2) <==> HexAt(s, p + 2);
  }

  lemma StepInside(s: Str, p: nat)
    requires p < |s| && s[p] != QUOTE
    ensures StringEnd(s, p, Inside) == if FromInside(s[p]) == Rejected then None else StringEnd(s, p + 1, FromInside(s[p]))
  {
  }

  /** Which bytes of a multi-byte character are there. */
  lemma TailsOf(s: Str, p: nat)
    requires p < |s|
    ensures forall i :: 0 <= i ==> (Utf8.Tail(s[p..], i) <==> Utf8.Tail(s, p + i))
  {
    assert forall i :: 0 <= i < |s| - p ==> s[p..][i] == s[p + i];
  }

  lemma RunsOverCharacter(s: Str, p: nat)
    requires p < |s| && s[p] != QUOTE && s[p] != BACKSLASH
    ensures match CharLength(s[p..])
      case Some(n) => StringEnd(s, p, Inside) == StringEnd(s, p + n, Inside)
      case None => StringEnd(s, p, Inside) == None
  {
    hide StringEnd;
    var (t, b) := (s[p..], s[p]);
    TailsOf(s, p);
    StepInside(s, p);
    assert p + 1 < |s| ==> t[1] == s[p + 1];
    if b < 0x80 {
    } else if b <= 0xDF {
      TailRun(s, p + 1);
    } else if b <= 0xEF {
      ThreeBytes(s, p);
    } else if b <= 0xF4 {
      FourBytes(s, p);
    }
  }

  lemma ThreeBytes(s: Str, p: nat)
    requires p < |s| && 0xE0 <= s[p] <= 0xEF
    ensures StringEnd(s, p + 1, FromInside(s[p])) ==
      if Utf8.Tail(s, p + 1) && Utf8.SecondOk(s[p], s[p + 1]) && Utf8.Tail(s, p + 2)
      then StringEnd(s, p + 3, Inside) else None
  {
    hide StringEnd;
    var st := FromInside(s[p]);
    Advance(s, p + 1, st);
    TailRun(s, p + 1);
    TailRun(s, p + 2);
  }

  lemma FourBytes(s: Str, p: nat)
    requires p < |s| && 0xF0 <= s[p] <= 0xF4
    ensures StringEnd(s, p + 1, FromInside(s[p])) ==
      if Utf8.Tail(s, p + 1) && Utf8.SecondOk(s[p], s[p + 1]) && Utf8.Tail(s, p + 2) && Utf8.Tail(s, p + 3)
      then StringEnd(s, p + 4, Inside) else None
  {
    hide StringEnd;
    var st := FromInside(s[p]);
    Advance(s, p + 1, st);
    TailRun(s, p + 2);
  }

  /** The automaton passes over one `char` exactly when there is one. */
  lemma RunsOverChar(s: Str, p: nat)
    requires p < |s| && s[p] != QUOTE
    ensures match CharLength(s[p..])
      case Some(n) => StringEnd(s, p, Inside) == StringEnd(s, p + n, Inside)
      case None => StringEnd(s, p, Inside) == None
  {
    if s[p] == BACKSLASH {
      RunsOverEscape(s, p);
    } else {
      RunsOverCharacter(s, p);
    }
  }

  lemma {:induction false} ContentStep(t: Str)
    requires t != [] && CharLength(t).Some?
    ensures Content(t) <==> Content(t[CharLength(t).value..])
  {
  }

  /** The text of a token from p on: grammatical characters, then the closing quote at e - 1. */
  predicate Closes(s: Str, p: nat, e: int) {
    p < e <= |s| && s[e - 1] == QUOTE && Content(s[p..e - 1])
  }

  /** The automaton accepts exactly the strings of the grammar, and a string ends at its first unescaped quote. */
  lemma {:induction false} AcceptsExactly(s: Str, p: nat)
    requires p <= |s|
    ensures StringEnd(s, p, Inside).Some? ==> Closes(s, p, StringEnd(s, p, Inside).value)
    ensures forall e :: Closes(s, p, e) ==> StringEnd(s, p, Inside) == Some(e)
    decreases |s| - p
  {
    hide CharLength, Content;
    if p == |s| {
      assert StringEnd(s, p, Inside) == None;
    } else if s[p] == QUOTE {
      QuoteEnds(s, p);
      forall e | Closes(s, p, e) ensures e == p + 1 { NoQuoteFirst(s, p, e); }
    } else {
      RunsOverChar(s, p);
      if CharLength(s[p..]).Some? {
        var n := CharLength(s[p..]).value;
        AcceptsExactly(s, p + n);
        if StringEnd(s, p, Inside).Some? { ClosesBack(s, p, StringEnd(s, p, Inside).value); }
        forall e | Closes(s, p, e) ensures Closes(s, p + n, e) { ClosesOn(s, p, e); }
      } else {
        forall e | Closes(s, p, e) ensures false { ClosesOn(s, p, e); }
      }
    }
  }

  lemma QuoteEnds(s: Str, p: nat)
    requires p < |s| && s[p] == QUOTE
    ensures StringEnd(s, p, Inside) == Some(p + 1) && Closes(s, p, p + 1)
  {
    assert s[p..p] == [];
  }

  lemma NoQuoteFirst(s: Str, p: nat, e: int)
    requires p < |s| && s[p] == QUOTE && Closes(s, p, e)
    ensures e == p + 1
  {
    QuoteIsNoContent(s, p, e - 1);
  }

  lemma QuoteIsNoContent(s: Str, p: nat, q: nat)
    requires p < |s| && s[p] == QUOTE && p <= q <= |s|
    ensures p < q ==> !Content(s[p..q])
  {
    if p < q { assert s[p..q][0] == QUOTE; }
  }

  /** What follows a character does not change its length; its prefixes are no characters. */
  lemma CharInPrefix(s: Str, p: nat, q: nat)
    requires p < q <= |s| && CharLength(s[p..q]).Some?
    ensures CharLength(s[p..]) == CharLength(s[p..q])
  {
    var (t, u) := (s[p..q], s[p..]);
    assert u == t + s[q..];
    assert forall i :: 0 <= i < |t| ==> u[i] == t[i];
    if t[0] != BACKSLASH { Utf8.DecodeFirstExtends(t, s[q..]); }
  }

  lemma ClosesOn(s: Str, p: nat, e: int)
    requires p < |s| && s[p] != QUOTE && Closes(s, p, e)
    ensures CharLength(s[p..]).Some? && Closes(s, p + CharLength(s[p..]).value, e)
  {
    hide CharLength;
    var t := s[p..e - 1];
    if t != [] {
      CharInPrefix(s, p, e - 1);
      var n := CharLength(t).value;
      assert t[n..] == s[p + n..e - 1];
      ContentStep(t);
    }
  }

  lemma ClosesBack(s: Str, p: nat, e: nat)
    requires p < |s| && s[p] != QUOTE && CharLength(s[p..]).Some?
    requires Closes(s, p + CharLength(s[p..]).value, e)
    ensures Closes(s, p, e)
  {
    hide CharLength;
    var n := CharLength(s[p..]).value;
    var t := s[p..e - 1];
    CharFits(s, p, e - 1);
    assert t[n..] == s[p + n..e - 1];
    ContentStep(t);
  }

  /** A character depends on its own bytes only. */
  lemma CharFits(s: Str, p: nat, q: nat)
    requires p < q <= |s| && CharLength(s[p..]).Some? && p + CharLength(s[p..]).value <= q
    ensures CharLength(s[p..q]) == CharLength(s[p..])
  {
    var (t, u) := (s[p..q], s[p..]);
    assert forall i :: 0 <= i < |t| ==> u[i] == t[i];
  }

  // ---------- the value of a string token ----------

  /** strtoul of the four digits at i. */
  function HexNumber(t: Str, i: nat): (n: nat)
    requires HexAt(t, i)
    ensures n <= 0xFFFF
  {
    ((HexDigitValue(t[i]) * 16 + HexDigitValue(t[i + 1])) * 16 + HexDigitValue(t[i + 2])) * 16 + HexDigitValue(t[i + 3])
  }

  predicate IsHigh(cp: nat) { 0xD800 <= cp <= 0xDBFF }

  predicate IsLow(cp: nat) { 0xDC00 <= cp <= 0xDFFF }

  /** What an escape letter stands for. */
  function LetterValue(c: byte): byte
    requires IsEscapeLetter(c)
  {
    if c == LOWER_T then TAB else if c == LOWER_B then BACKSPACE else if c == LOWER_F then FORM_FEED
    else if c == LOWER_N then LF else if c == LOWER_R then CR else c
  }

  /** The code point a text starts with and the bytes it takes; half of a surrogate pair alone is none. */
  datatype Char = Char(cp: nat, n: nat) | Unpaired

  function FirstChar(t: Str): (c: Char)
    requires t != [] && Content(t)
    ensures c.Char? ==> 1 <= c.n <= |t| && Utf8.Scalar(c.cp) && Content(t[c.n..])
  {
    if t[0] != BACKSLASH then
      var d := Utf8.DecodeFirst(t);
      Utf8.EncodeInvertsDecode(t);
      Char(d.cp, d.size)
    else if t[1] != LOWER_U then Char(LetterValue(t[1]) as int, 2)
    else
      var cp := HexNumber(t, 2);
      if IsLow(cp) then Unpaired
      else if !IsHigh(cp) then Char(cp, 6)
      else if |t| < 8 || t[6] != BACKSLASH || t[7] != LOWER_U then Unpaired
      else
        SecondEscape(t);
        var low := HexNumber(t, 8);
        if IsLow(low) then Char(0x1_0000 + (cp - 0xD800) * 1024 + (low - 0xDC00), 12) else Unpaired
  }

  lemma SecondEscape(t: Str)
    requires |t| >= 8 && Content(t) && t[0] == BACKSLASH && t[1] == LOWER_U && t[6] == BACKSLASH && t[7] == LOWER_U
    ensures HexAt(t, 8) && Content(t[12..])
  {
    var u := t[6..];
    assert u[0] == t[6] && u[1] == t[7];
    assert CharLength(t) == Some(6);
    assert CharLength(u) == Some(6);
    assert HexAt(u, 2) && u[6..] == t[12..];
    assert u[2] == t[8] && u[3] == t[9] && u[4] == t[10] && u[5] == t[11];
  }

  /** The code points a string token denotes (RFC 7159, section 7). */
  function Denoted(t: Str): (cps: Option<seq<nat>>)
    requires Content(t)
    ensures cps.Some? ==> forall i :: 0 <= i < |cps.value| ==> Utf8.Scalar(cps.value[i])
    decreases |t|
  {
    if t == [] then Some([]) else
      match FirstChar(t)
      case Unpaired => None
      case Char(cp, n) =>
        match Denoted(t[n..])
        case None => None
        case Some(rest) => Some([cp] + rest)
  }

  function EncodeAll(cps: seq<nat>): Str
    requires forall i :: 0 <= i < |cps| ==> Utf8.Scalar(cps[i])
  {
    if cps == [] then [] else
      assert Utf8.Scalar(cps[0]);
      Utf8.Encode(cps[0]) + EncodeAll(cps[1..])
  }

  lemma {:induction false} EncodeAllDenotes(cps: seq<nat>)
    requires forall i :: 0 <= i < |cps| ==> Utf8.Scalar(cps[i])
    ensures Utf8.WellFormed(EncodeAll(cps)) && Utf8.CodePoints(EncodeAll(cps)) == cps
  {
    hide Utf8.DecodeFirst, Utf8.Encode;
    if cps != [] {
      assert Utf8.Scalar(cps[0]);
      var (first, rest) := (Utf8.Encode(cps[0]), EncodeAll(cps[1..]));
      EncodeAllDenotes(cps[1..]);
      Utf8.DecodeInvertsEncode(cps[0], rest);
      assert (first + rest)[|first|..] == rest;
    }
  }

  /** The value of a token: UTF-8 for the code points it denotes, or an exception at half a surrogate pair. */
  function StringValue(t: Str): Result<Str>
    requires Content(t)
  {
    match Denoted(t)
    case Some(cps) => Ok(EncodeAll(cps))
    case None => Err(InvalidArgument)
  }

  /** What get_string returns is well-formed UTF-8 for exactly the escaped code points. */
  lemma {:induction false} StringValueIsUtf8(t: Str)
    requires Content(t)
    ensures StringValue(t).Ok? <==> Denoted(t).Some?
    ensures StringValue(t).Ok? ==>
      Utf8.WellFormed(StringValue(t).value) && Utf8.CodePoints(StringValue(t).value) == Denoted(t).value
  {
    if Denoted(t).Some? { EncodeAllDenotes(Denoted(t).value); }
  }

  // ---------- get_string ----------

  /** to_unicode; `codepoint2` is 0 where the source leaves the argument out. */
  function ToUnicode(codepoint1: nat, codepoint2: nat): Result<Str> {
    if IsHigh(codepoint1) && !IsLow(codepoint2) then Err(InvalidArgument)
    else
      var codepoint := if IsHigh(codepoint1) then codepoint1 * 1024 + codepoint2 - 0x35FDC00 else codepoint1;
      if codepoint > 0x10_FFFF then Err(OutOfRange) else Ok(Utf8.Encode(codepoint))
  }

  function Prepend(head: Str, tail: Result<Str>): Result<Str> {
    if tail.Ok? then Ok(head + tail.value) else tail
  }

  lemma PrependTwice(a: Str, b: Str, r: Result<Str>)
    ensures Prepend(a, Prepend(b, r)) == Prepend(a + b, r)
  {
    if r.Ok? { Reassociate(a, b, r.value); }
  }

  lemma PrependNothing(r: Result<Str>)
    ensures Prepend([], r) == r
  {
    if r.Ok? { assert [] + r.value == r.value; }
  }

  lemma StringValueStep(t: Str)
    requires t != [] && Content(t)
    ensures FirstChar(t).Unpaired? ==> StringValue(t) == Err(InvalidArgument)
    ensures FirstChar(t).Char? ==>
      StringValue(t) == Prepend(Utf8.Encode(FirstChar(t).cp), StringValue(t[FirstChar(t).n..]))
  {
    hide FirstChar, Utf8.Encode;
    var c := FirstChar(t);
    if c.Char? && Denoted(t[c.n..]).Some? {
      assert ([c.cp] + Denoted(t[c.n..]).value)[1..] == Denoted(t[c.n..]).value;
    }
  }

  predicate NoBackslash(s: Str) { BACKSLASH !in s }

  /** The characters up to the next backslash are copied as they are. */
  lemma {:induction false} RawRun(t: Str, k: nat)
    requires Content(t) && k <= |t| && NoBackslash(t[..k]) && (k < |t| ==> t[k] == BACKSLASH)
    ensures Content(t[k..]) && StringValue(t) == Prepend(t[..k], StringValue(t[k..]))
    decreases |t|
  {
    hide StringValue, Content, Utf8.DecodeFirst;
    if k == 0 {
      PrependNothing(StringValue(t));
      assert t[0..] == t;
    } else {
      assert t[..k][0] == t[0];
      RawChar(t);
      var n := Utf8.DecodeFirst(t).size;
      StringValueStep(t);
      CharBeforeBackslash(t, n, k);
      assert t[n..][..k - n] == t[n..k] && NoBackslash(t[n..k]) by { Sub(t, n, k); }
      RawRun(t[n..], k - n);
      assert t[n..][k - n..] == t[k..] && t[..n] + t[n..k] == t[..k];
      PrependTwice(t[..n], t[n..k], StringValue(t[k..]));
    }
  }

  lemma Sub(t: Str, n: nat, k: nat)
    requires n <= k <= |t| && NoBackslash(t[..k])
    ensures NoBackslash(t[n..k])
  {
    assert forall i :: n <= i < k ==> t[n..k][i - n] == t[..k][i];
  }

  lemma RawChar(t: Str)
    requires t != [] && Content(t) && t[0] != BACKSLASH
    ensures Utf8.DecodeFirst(t).CodePoint? && FirstChar(t) == Char(Utf8.DecodeFirst(t).cp, Utf8.DecodeFirst(t).size)
    ensures Content(t[Utf8.DecodeFirst(t).size..])
    ensures Utf8.DecodeFirst(t).cp < 0x20_0000 && Utf8.Encode(Utf8.DecodeFirst(t).cp) == t[..Utf8.DecodeFirst(t).size]
  {
    hide Utf8.DecodeFirst, Utf8.Encode;
    Utf8.EncodeInvertsDecode(t);
  }

  lemma CharBeforeBackslash(t: Str, n: nat, k: nat)
    requires t != [] && Utf8.DecodeFirst(t).CodePoint? && Utf8.DecodeFirst(t).size == n && t[0] != BACKSLASH
    requires k <= |t| && k > 0 && (k < |t| ==> t[k] == BACKSLASH)
    ensures n <= k
  {
    assert forall i :: 1 <= i < n ==> Utf8.Tail(t, i);
  }

  /** std::find for a backslash in [from, to). */
  method FindBackslash(s: Str, from: nat, to: nat) returns (e: nat)
    requires from <= to <= |s|
    ensures from <= e <= to && NoBackslash(s[from..e]) && (e < to ==> s[e] == BACKSLASH)
  {
    e := from;
    while e < to && s[e] != BACKSLASH
      invariant from <= e <= to && forall k :: from <= k < e ==> s[k] != BACKSLASH
    {
      e := e + 1;
    }
  }

  /** The escape that starts at i, in a token whose content ends at `end`: what it stands for and where it stops. */
  method ReadEscape(s: Str, i: nat, end: nat) returns (r: Result<Str>, next: nat)
    requires i < end < |s| && s[end] == QUOTE && s[i] == BACKSLASH && Content(s[i..end])
    ensures match FirstChar(s[i..end])
      case Unpaired => r == Err(InvalidArgument)
      case Char(cp, n) => r == Ok(Utf8.Encode(cp)) && next == i + n
  {
    ghost var t := s[i..end];
    assert forall k :: 0 <= k < |t| ==> t[k] == s[i + k];
    assert |t| > 1;
    if s[i + 1] != LOWER_U { return Ok([LetterValue(s[i + 1])]), i + 2; }
    assert HexAt(t, 2) && HexAt(s, i + 2);
    var codepoint := HexNumber(s, i + 2);
    if IsHigh(codepoint) {
      if i + 7 >= |s| || s[i + 6] != BACKSLASH || s[i + 7] != LOWER_U { return Err(InvalidArgument), i; }
      assert s[end] == QUOTE && |t| >= 8 by { PairInside(s, i, end); }
      SecondEscape(t);
      var codepoint2 := HexNumber(s, i + 8);
      return ToUnicode(codepoint, codepoint2), i + 12;
    } else if IsLow(codepoint) {
      return Err(InvalidArgument), i;
    } else {
      return ToUnicode(codepoint, 0), i + 6;
    }
  }

  /** The backslash behind an escape is part of the same token: the token ends at a quote. */
  lemma PairInside(s: Str, i: nat, end: nat)
    requires i + 6 <= end < |s| && s[end] == QUOTE && i + 7 < |s| && s[i + 6] == BACKSLASH
    requires Content(s[i..end]) && s[i] == BACKSLASH && s[i + 1] == LOWER_U && HexAt(s[i..end], 2)
    ensures i + 8 <= end
  {
    var t := s[i..end];
    assert t[0] == s[i] && t[1] == s[i + 1] && CharLength(t) == Some(6);
    var u := t[6..];
    assert u != [] ==> u[0] == s[i + 6];
    assert Content(u);
  }

  /** get_string on the token s[start..end + 1], whose quotes are at `start` and `end`. */
  method GetString(s: Str, start: nat, end: nat) returns (r: Result<Str>)
    requires start < end < |s| && s[end] == QUOTE && Content(s[start + 1..end])
    ensures r == StringValue(s[start + 1..end])
  {
    hide Content, StringValue, FirstChar, CharLength, Utf8.Encode;
    ghost var whole := StringValue(s[start + 1..end]);
    var result: Str := [];
    var i := start + 1;
    PrependNothing(whole);
    while i < end
      invariant start < i <= end && Content(s[i..end]) && whole == Prepend(result, StringValue(s[i..end]))
    {
      ghost var t := s[i..end];
      var e := FindBackslash(s, i, end);
      if e != i {
        assert t[..e - i] == s[i..e] && t[e - i..] == s[e..end] && (e < end ==> t[e - i] == s[e]);
        RawRun(t, e - i);
        PrependTwice(result, s[i..e], StringValue(s[e..end]));
        result := result + s[i..e];
        i := e;
      } else {
        var c, next := ReadEscape(s, i, end);
        StringValueStep(t);
        if c.Err? { return c; }
        assert t[next - i..] == s[next..end];
        PrependTwice(result, c.value, StringValue(s[next..end]));
        result := result + c.value;
        i := next;
      }
    }
    EmptyValue(s[end..end]);
    assert result + [] == result;
    return Ok(result);
  }

  lemma EmptyValue(t: Str)
    requires t == []
    ensures Content(t) && StringValue(t) == Ok([])
  {
  }
}
