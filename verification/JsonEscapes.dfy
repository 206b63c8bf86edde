/** What the escapes of a JSON string stand for, from literal tables and numbers (RFC 7159, section 7). */
module JsonEscapes {
  import opened Bytes
  import opened Decimals
  import opened Hexadecimals
  import opened JsonStrings
  import opened Wrappers
  import Utf8

  /** Letter behind the backslash, and the byte it stands for. */
  const LETTERS: seq<(byte, byte)> :=
    [(0x22, 0x22), (0x5C, 0x5C), (0x2F, 0x2F), (0x62, 0x08), (0x66, 0x0C), (0x6E, 0x0A), (0x72, 0x0D), (0x74, 0x09)]

  /** The six bytes of an escape with four hexadecimal digits. */
  predicate IsUnicode(u: Str, n: nat) {
    |u| == 6 && u[0] == 0x5C && u[1] == 0x75 && HexTextOf(u[2..], n)
  }

  lemma LetterIsRead(i: nat, rest: Str)
    requires i < 8 && Content(rest)
    ensures var t := [0x5C, LETTERS[i].0] + rest;
      Content(t) && StringValue(t) == Prepend([LETTERS[i].1], StringValue(rest))
  {
    hide StringValue, Content, Utf8.DecodeFirst;
    var t := [0x5C, LETTERS[i].0] + rest;
    assert t[2..] == rest && CharLength(t) == Some(2);
    ContentStep(t);
    StringValueStep(t);
    assert Utf8.Encode(LETTERS[i].1 as int) == [LETTERS[i].1];
  }

  /** No other letter may follow a backslash, but for the 'u' of four hexadecimal digits. */
  lemma NoOtherLetter(c: byte, rest: Str)
    requires c != 0x75 && forall i :: 0 <= i < 8 ==> LETTERS[i].0 != c
    ensures !Content([0x5C, c] + rest)
  {
    assert LETTERS[0].0 != c && LETTERS[1].0 != c && LETTERS[2].0 != c && LETTERS[3].0 != c;
    assert LETTERS[4].0 != c && LETTERS[5].0 != c && LETTERS[6].0 != c && LETTERS[7].0 != c;
    assert CharLength([0x5C, c] + rest) == None;
  }

  /** Four digits are read as the number they were written for. */
  lemma FourDigits(t: Str, i: nat, n: nat)
    requires i + 4 <= |t| && HexTextOf(t[i..i + 4], n)
    ensures HexAt(t, i) && HexNumber(t, i) == n
  {
    hide DigitOf;
    var s := t[i..i + 4];
    var (a, b, c) := (n / 16, n / 16 / 16, n / 16 / 16 / 16);
    assert s[..3][..2] == s[..2] && s[..2][..1] == s[..1];
    assert HexTextOf(s[..3], a) && HexTextOf(s[..2], b) && HexTextOf(s[..1], c);
    DigitIsRead(s[3], n % 16);
    DigitIsRead(s[2], a % 16);
    DigitIsRead(s[1], b % 16);
    DigitIsRead(s[0], c % 16);
    assert t[i] == s[0] && t[i + 1] == s[1] && t[i + 2] == s[2] && t[i + 3] == s[3];
  }

  lemma UnicodeStarts(u: Str, n: nat, rest: Str)
    requires IsUnicode(u, n) && Content(rest)
    ensures var t := u + rest;
      Content(t) && |t| >= 6 && t[0] == BACKSLASH && t[1] == LOWER_U && t[6..] == rest && HexAt(t, 2) && HexNumber(t, 2) == n
  {
    hide HexNumber, HexTextOf;
    var t := u + rest;
    assert t[2..6] == u[2..] && t[6..] == rest;
    FourDigits(t, 2, n);
    assert CharLength(t) == Some(6);
    ContentStep(t);
  }

  /** An escape outside the surrogates is that code point. */
  lemma UnicodeIsRead(u: Str, n: nat, rest: Str)
    requires IsUnicode(u, n) && Content(rest) && !(0xD800 <= n <= 0xDFFF)
    ensures n < 0x1_0000 && Content(u + rest)
    ensures StringValue(u + rest) == Prepend(Utf8.Encode(n), StringValue(rest))
  {
    hide HexNumber, HexAt, StringValue, Content, HexTextOf, Utf8.Encode;
    UnicodeStarts(u, n, rest);
    StringValueStep(u + rest);
  }

  /** A high and a low surrogate together are one code point. */
  lemma PairIsRead(u: Str, high: nat, w: Str, low: nat, rest: Str)
    requires IsUnicode(u, high) && 0xD800 <= high <= 0xDBFF && IsUnicode(w, low) && 0xDC00 <= low <= 0xDFFF && Content(rest)
    ensures Content(u + (w + rest))
    ensures StringValue(u + (w + rest))
      == Prepend(Utf8.Encode(0x1_0000 + (high - 0xD800) * 0x400 + (low - 0xDC00)), StringValue(rest))
  {
    hide HexNumber, HexAt, StringValue, Content, HexTextOf, Utf8.Encode;
    var t := u + (w + rest);
    UnicodeStarts(w, low, rest);
    UnicodeStarts(u, high, w + rest);
    PairBehind(t, w + rest, low);
    assert t[12..] == rest;
    SecondEscape(t);
    StringValueStep(t);
  }

  lemma PairBehind(t: Str, tail: Str, low: nat)
    requires |t| >= 12 && t[6..] == tail && tail[0] == BACKSLASH && tail[1] == LOWER_U
    requires HexAt(tail, 2) && HexNumber(tail, 2) == low
    ensures t[6] == BACKSLASH && t[7] == LOWER_U && HexAt(t, 8) && HexNumber(t, 8) == low
  {
    assert t[8] == tail[2] && t[9] == tail[3] && t[10] == tail[4] && t[11] == tail[5];
  }

  /** What follows is the escape of a low surrogate. */
  ghost predicate LowFollows(rest: Str) {
    exists low :: 0xDC00 <= low <= 0xDFFF && |rest| >= 6 && IsUnicode(rest[..6], low)
  }

  /** Half of a pair is refused: a low surrogate, or a high one without a low one behind it. */
  lemma HalfIsRefused(u: Str, n: nat, rest: Str)
    requires IsUnicode(u, n) && 0xD800 <= n <= 0xDFFF && Content(rest)
    requires n <= 0xDBFF ==> !LowFollows(rest)
    ensures Content(u + rest) && StringValue(u + rest) == Err(InvalidArgument)
  {
    hide StringValue, Content, HexTextOf, Utf8.Encode, LowFollows, HexAt, HexNumber;
    var t := u + rest;
    UnicodeStarts(u, n, rest);
    StringValueStep(t);
    if |t| >= 8 && t[6] == BACKSLASH && t[7] == LOWER_U {
      SecondEscape(t);
      if IsLow(HexNumber(t, 8)) { LowIsThere(t, rest); }
    }
  }

  lemma LowIsThere(t: Str, rest: Str)
    requires |t| >= 12 && t[6..] == rest && t[6] == BACKSLASH && t[7] == LOWER_U && HexAt(t, 8) && IsLow(HexNumber(t, 8))
    ensures LowFollows(rest)
  {
    hide HexTextOf, HexNumber;
    assert rest[2] == t[8] && rest[3] == t[9] && rest[4] == t[10] && rest[5] == t[11];
    var low := HexNumber(t, 8);
    WrittenBack(t, 8);
    var w := rest[..6];
    assert w[2..] == t[8..12] && w[0] == t[6] && w[1] == t[7];
    assert IsUnicode(w, low);
  }

  /** Four hexadecimal digits are the text of what they are read as. */
  lemma WrittenBack(t: Str, i: nat)
    requires HexAt(t, i)
    ensures HexTextOf(t[i..i + 4], HexNumber(t, i))
  {
    hide HexTextOf, DigitOf, HexDigitValue;
    DigitWrittenBack(t[i]);
    DigitWrittenBack(t[i + 1]);
    DigitWrittenBack(t[i + 2]);
    DigitWrittenBack(t[i + 3]);
    var (a, b, c, d) := (HexDigitValue(t[i]), HexDigitValue(t[i + 1]), HexDigitValue(t[i + 2]), HexDigitValue(t[i + 3]));
    OneDigit(t[i], a);
    OneMore([t[i]], a, t[i + 1], b);
    OneMore([t[i]] + [t[i + 1]], a * 16 + b, t[i + 2], c);
    OneMore([t[i]] + [t[i + 1]] + [t[i + 2]], (a * 16 + b) * 16 + c, t[i + 3], d);
    assert t[i..i + 4] == [t[i]] + [t[i + 1]] + [t[i + 2]] + [t[i + 3]];
  }

  lemma OneDigit(c: byte, d: nat)
    requires d < 16 && DigitOf(c, d)
    ensures HexTextOf([c], d)
  {
  }

  lemma OneMore(s: Str, n: nat, c: byte, d: nat)
    requires HexTextOf(s, n) && d < 16 && DigitOf(c, d)
    ensures HexTextOf(s + [c], n * 16 + d)
  {
    hide DigitOf;
    assert (s + [c])[..|s|] == s;
    assert (n * 16 + d) / 16 == n && (n * 16 + d) % 16 == d;
  }

  lemma DigitWrittenBack(c: byte)
    requires IsHex(c)
    ensures DigitOf(c, HexDigitValue(c))
  {
    var d := HexDigitValue(c);
    assert LOWER_DIGITS[d] as int == if d < 10 then 48 + d else 87 + d;
    assert UPPER_DIGITS[d] as int == if d < 10 then 48 + d else 55 + d;
  }

  // ---------- writing ----------

  /** escape_string replaces quotes, backslashes and control characters, five of these by letters, and nothing else. */
  lemma EscapedSpelled(c: byte)
    ensures Escape([c]) ==
      if c == 0x22 || c == 0x5C then [0x5C, c]
      else if c == 0x08 then Ascii("\\b") else if c == 0x0C then Ascii("\\f") else if c == 0x0A then Ascii("\\n")
      else if c == 0x0D then Ascii("\\r") else if c == 0x09 then Ascii("\\t")
      else if c < 0x20 then Ascii("\\u00") + [LOWER_DIGITS[c / 16] as byte, LOWER_DIGITS[c % 16] as byte]
      else [c]
  {
    var (high, low) := ((c / 16) as int, (c % 16) as int);
    assert LOWER_DIGITS[high] as int == if high < 10 then 48 + high else 87 + high;
    assert LOWER_DIGITS[low] as int == if low < 10 then 48 + low else 87 + low;
    assert [c][1..] == [] && Escape([]) == [] && EscapedChar(c) + [] == EscapedChar(c);
  }
}
