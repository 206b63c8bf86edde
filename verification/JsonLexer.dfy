/** The lexer of the JSON parser, as its generated automaton behaves on an input that a NUL ends. */
module JsonLexer {
  import opened Bytes
  import opened Decimals
  import opened Doubles
  import opened JsonStrings
  import opened Jsons
  import opened Wrappers

  datatype TokenKind =
    | LiteralTrue | LiteralFalse | LiteralNull | ValueString | ValueUnsigned | ValueInteger | ValueFloat
    | BeginArray | BeginObject | EndArray | EndObject | NameSeparator | ValueSeparator | ParseError | EndOfInput

  datatype Token = Token(kind: TokenKind, start: nat, end: nat)

  const DOT: byte := 0x2E
  const UPPER_E: byte := 0x45
  const LEFT_BRACKET: byte := 0x5B
  const RIGHT_BRACKET: byte := 0x5D
  const LOWER_E: byte := 0x65
  const LEFT_BRACE: byte := 0x7B
  const RIGHT_BRACE: byte := 0x7D

  const TRUE: Str := [LOWER_T, LOWER_R, LOWER_U, LOWER_E]
  const FALSE: Str := [LOWER_F, 0x61, 0x6C, 0x73, LOWER_E]
  const NULL: Str := [LOWER_N, LOWER_U, 0x6C, 0x6C]

  predicate IsBlank(c: byte) { c == SPACE || c == TAB || c == LF || c == CR }

  function SkipBlanks(s: Str, p: nat): (q: nat)
    ensures p <= q && !IsBlank(CharAt(s, q)) && (p <= |s| ==> q <= |s|)
    ensures forall i :: p <= i < q ==> IsBlank(CharAt(s, i))
    decreases |s| - p
  {
    if IsBlank(CharAt(s, p)) then SkipBlanks(s, p + 1) else p
  }

  // ---------- numbers ----------

  function DigitsEnd(s: Str, i: nat): (e: nat)
    ensures i <= e && !IsDigit(CharAt(s, e)) && (i <= |s| ==> e <= |s|)
    ensures forall k :: i <= k < e ==> IsDigit(CharAt(s, k))
    decreases |s| - i
  {
    if IsDigit(CharAt(s, i)) then DigitsEnd(s, i + 1) else i
  }

  /** The end of an exponent whose 'e' is at i, if it is one. */
  function ExponentEnd(s: Str, i: nat): (e: Option<nat>)
    ensures e.Some? ==> i < e.value && (i < |s| ==> e.value <= |s|)
  {
    var sign := CharAt(s, i + 1);
    var d := if sign == PLUS || sign == MINUS then i + 2 else i + 1;
    if IsDigit(CharAt(s, d)) then Some(DigitsEnd(s, d)) else None
  }

  predicate IsE(c: byte) { c == UPPER_E || c == LOWER_E }

  /** What the token that starts at `start` is when its integer part ends at e. */
  function NumberToken(s: Str, start: nat, e: nat, kind: TokenKind): (t: Token)
    requires start < e <= |s|
    ensures t.start == start && start < t.end <= |s|
    ensures t.kind == kind || t.kind == ValueFloat
    ensures t.kind != ValueFloat ==> t.end == e
  {
    if CharAt(s, e) == DOT && IsDigit(CharAt(s, e + 1)) then
      var f := DigitsEnd(s, e + 1);
      if IsE(CharAt(s, f)) && ExponentEnd(s, f).Some? then Token(ValueFloat, start, ExponentEnd(s, f).value)
      else Token(ValueFloat, start, f)
    else if IsE(CharAt(s, e)) && ExponentEnd(s, e).Some? then Token(ValueFloat, start, ExponentEnd(s, e).value)
    else Token(kind, start, e)
  }

  lemma DigitsSlice(s: Str, d: nat, e: nat)
    requires d < e && forall k :: d <= k < e ==> IsDigit(CharAt(s, k))
    ensures e <= |s| && AllDigits(s[d..e])
  {
    assert IsDigit(CharAt(s, e - 1));
    forall i | 0 <= i < e - d ensures IsDigit(s[d..e][i]) { assert IsDigit(CharAt(s, d + i)); }
  }

  ghost predicate AreDigits(s: Str, from: nat, to: nat) {
    from < to <= |s| && AllDigits(s[from..to])
  }

  /** A number whose first digit is at d. A leading zero must not be followed by a digit. */
  function ScanNumber(s: Str, start: nat, d: nat, kind: TokenKind): (t: Token)
    requires start <= d && IsDigit(CharAt(s, d))
    ensures t.start == start && start < t.end <= |s|
    ensures t.kind == kind || t.kind == ValueFloat || t.kind == ParseError
    ensures t.kind != ValueFloat && t.kind != ParseError ==> AreDigits(s, d, t.end)
  {
    if CharAt(s, d) == ZERO then
      if IsDigit(CharAt(s, d + 1)) then Token(ParseError, start, DigitsEnd(s, d + 1))
      else NumberToken(s, start, d + 1, kind)
    else
      DigitsSlice(s, d, DigitsEnd(s, d + 1));
      NumberToken(s, start, DigitsEnd(s, d + 1), kind)
  }

  // ---------- tokens ----------

  function ScanLiteral(s: Str, q: nat, text: Str, kind: TokenKind): (t: Token)
    requires text != [] && q < |s|
    ensures t.start == q && q < t.end <= |s| && (t.kind == kind || t.kind == ParseError)
  {
    if At(s, q, text) then Token(kind, q, q + |text|) else Token(ParseError, q, q + 1)
  }

  /** What an integer token looks like. */
  ghost predicate IsIntegerText(text: Str) {
    if text != [] && text[0] == MINUS then AllDigits(text[1..]) else AllDigits(text)
  }

  ghost predicate IsIntegerToken(s: Str, t: Token) {
    t.start < t.end <= |s| && IsIntegerText(s[t.start..t.end])
  }

  lemma SignedText(s: Str, q: nat, e: nat)
    requires q + 1 <= e <= |s| && s[q] == MINUS && AllDigits(s[q + 1..e])
    ensures IsIntegerText(s[q..e])
  {
    assert s[q..e][1..] == s[q + 1..e];
  }

  lemma UnsignedText(s: Str, q: nat, e: nat)
    requires q < e <= |s| && AllDigits(s[q..e])
    ensures IsIntegerText(s[q..e])
  {
    assert IsDigit(s[q..e][0]);
  }

  /** The text between the quotes of a string token is grammatical. */
  predicate IsStringToken(s: Str, t: Token) {
    t.start + 1 < t.end <= |s| && s[t.end - 1] == QUOTE && Content(s[t.start + 1..t.end - 1])
  }

  function ScanString(s: Str, q: nat): (t: Token)
    requires q < |s|
    ensures t.start == q && q < t.end <= |s| && (t.kind == ValueString || t.kind == ParseError)
    ensures t.kind == ValueString ==> IsStringToken(s, t)
  {
    match StringEnd(s, q + 1, Inside)
    case Some(e) => AcceptsExactly(s, q + 1); Token(ValueString, q, e)
    case None => Token(ParseError, q, q + 1)
  }

  /** The token that starts at q. */
  function TokenAt(s: Str, q: nat): (t: Token)
    ensures t.start == q && q < t.end
    ensures t.kind == ValueString ==> IsStringToken(s, t)
    ensures t.kind != EndOfInput ==> t.end <= |s|
    ensures t.kind == ValueUnsigned || t.kind == ValueInteger ==> IsIntegerToken(s, t)
  {
    var c := CharAt(s, q);
    if c == 0 then Token(EndOfInput, q, q + 1)
    else if c == QUOTE then ScanString(s, q)
    else if c == COMMA then Token(ValueSeparator, q, q + 1)
    else if c == COLON then Token(NameSeparator, q, q + 1)
    else if c == LEFT_BRACKET then Token(BeginArray, q, q + 1)
    else if c == RIGHT_BRACKET then Token(EndArray, q, q + 1)
    else if c == LEFT_BRACE then Token(BeginObject, q, q + 1)
    else if c == RIGHT_BRACE then Token(EndObject, q, q + 1)
    else if c == LOWER_T then ScanLiteral(s, q, TRUE, LiteralTrue)
    else if c == LOWER_F then ScanLiteral(s, q, FALSE, LiteralFalse)
    else if c == LOWER_N then ScanLiteral(s, q, NULL, LiteralNull)
    else if c == MINUS then
      if IsDigit(CharAt(s, q + 1)) then
        var t := ScanNumber(s, q, q + 1, ValueInteger);
        assert t.kind == ValueInteger ==> IsIntegerText(s[q..t.end]) by { if t.kind == ValueInteger { SignedText(s, q, t.end); } }
        t
      else Token(ParseError, q, q + 1)
    else if IsDigit(c) then
      var t := ScanNumber(s, q, q, ValueUnsigned);
      assert t.kind == ValueUnsigned ==> IsIntegerText(s[q..t.end]) by { if t.kind == ValueUnsigned { UnsignedText(s, q, t.end); } }
      t
    else Token(ParseError, q, q + 1)
  }

  /** scan(): the next token at or behind p. */
  function Scan(s: Str, p: nat): (t: Token)
    ensures p <= t.start < t.end
    ensures t.kind == ValueString ==> IsStringToken(s, t)
    ensures t.kind != EndOfInput ==> t.end <= |s|
    ensures t.kind == ValueUnsigned || t.kind == ValueInteger ==> IsIntegerToken(s, t)
  {
    TokenAt(s, SkipBlanks(s, p))
  }

  // ---------- the code ----------

  class Lexer {
    const content: Str
    var start: nat
    var cursor: nat

    constructor (content: Str)
      ensures this.content == content && cursor == 0
    {
      this.content := content;
      start, cursor := 0, 0;
    }

    function Current(): byte
      reads this`cursor
    {
      CharAt(content, cursor)
    }

    method SkipDigits()
      modifies this`cursor
      ensures cursor == DigitsEnd(content, old(cursor))
    {
      while IsDigit(Current())
        invariant cursor >= old(cursor) && DigitsEnd(content, cursor) == DigitsEnd(content, old(cursor))
        decreases |content| - cursor
      {
        cursor := cursor + 1;
      }
    }

    /** Behind an 'e': either the exponent is read, or the cursor goes back to the marker. */
    method SkipExponent(marker: nat) returns (ok: bool)
      modifies this`cursor
      ensures ok == ExponentEnd(content, old(cursor)).Some?
      ensures cursor == if ok then ExponentEnd(content, old(cursor)).value else marker
    {
      cursor := cursor + 1;
      if Current() == PLUS || Current() == MINUS { cursor := cursor + 1; }
      ok := IsDigit(Current());
      if ok { SkipDigits(); } else { cursor := marker; }
    }

    method ScanNumberAt(kind: TokenKind) returns (k: TokenKind)
      requires start <= cursor && IsDigit(Current())
      modifies this`cursor
      ensures Token(k, start, cursor) == ScanNumber(content, start, old(cursor), kind)
    {
      hide DigitsEnd, ExponentEnd;
      if Current() == ZERO {
        cursor := cursor + 1;
        if IsDigit(Current()) { SkipDigits(); return ParseError; }
      } else {
        cursor := cursor + 1;
        SkipDigits();
      }
      k := ScanFraction(kind);
    }

    method ScanFraction(kind: TokenKind) returns (k: TokenKind)
      requires start < cursor <= |content|
      modifies this`cursor
      ensures Token(k, start, cursor) == NumberToken(content, start, old(cursor), kind)
    {
      hide DigitsEnd, ExponentEnd;
      var marker := cursor;
      k := kind;
      if Current() == DOT {
        cursor := cursor + 1;
        if !IsDigit(Current()) { cursor := marker; return; }
        SkipDigits();
        marker, k := cursor, ValueFloat;
      }
      if IsE(Current()) {
        var ok := SkipExponent(marker);
        if ok { k := ValueFloat; }
      }
    }

    method ScanStringAt() returns (k: TokenKind)
      requires start == cursor && Current() == QUOTE
      modifies this`cursor
      ensures Token(k, start, cursor) == ScanString(content, start)
    {
      hide Step;
      cursor := cursor + 1;
      var marker := cursor;
      var st := Inside;
      while cursor < |content| && !(st == Inside && content[cursor] == QUOTE) && Step(st, content[cursor]) != Rejected
        invariant marker <= cursor && st != Rejected
        invariant StringEnd(content, marker, Inside) == StringEnd(content, cursor, st)
        decreases |content| - cursor
      {
        st := Step(st, content[cursor]);
        cursor := cursor + 1;
      }
      if cursor < |content| && st == Inside && content[cursor] == QUOTE {
        cursor := cursor + 1;
        return ValueString;
      }
      cursor := marker;
      return ParseError;
    }

    method ScanWord(text: Str, kind: TokenKind) returns (k: TokenKind)
      requires start == cursor < |content| && text != []
      modifies this`cursor
      ensures Token(k, start, cursor) == ScanLiteral(content, start, text, kind)
    {
      var i := 0;
      while i < |text| && start + i < |content| && content[start + i] == text[i]
        invariant 0 <= i <= |text| && (i > 0 ==> start + i <= |content|)
        invariant forall k :: 0 <= k < i ==> content[start + k] == text[k]
      {
        i := i + 1;
      }
      if i == |text| {
        assert content[start..start + i] == text;
        cursor := start + i;
        return kind;
      }
      assert start + |text| <= |content| ==> content[start..start + |text|][i] == content[start + i];
      cursor := start + 1;
      return ParseError;
    }

    method GetToken() returns (k: TokenKind)
      modifies this
      ensures Token(k, start, cursor) == Scan(content, old(cursor))
    {
      hide ScanNumber, ScanString, ScanLiteral;
      while IsBlank(Current())
        invariant cursor >= old(cursor) && SkipBlanks(content, cursor) == SkipBlanks(content, old(cursor))
        decreases |content| - cursor
      {
        cursor := cursor + 1;
      }
      start := cursor;
      var c := Current();
      if c == QUOTE { k := ScanStringAt(); }
      else if c == LOWER_T { k := ScanWord(TRUE, LiteralTrue); }
      else if c == LOWER_F { k := ScanWord(FALSE, LiteralFalse); }
      else if c == LOWER_N { k := ScanWord(NULL, LiteralNull); }
      else if IsDigit(c) { k := ScanNumberAt(ValueUnsigned); }
      else {
        cursor := cursor + 1;
        k := if c == 0 then EndOfInput
          else if c == COMMA then ValueSeparator
          else if c == COLON then NameSeparator
          else if c == LEFT_BRACKET then BeginArray
          else if c == RIGHT_BRACKET then EndArray
          else if c == LEFT_BRACE then BeginObject
          else if c == RIGHT_BRACE then EndObject
          else ParseError;
        if c == MINUS && IsDigit(Current()) { k := ScanNumberAt(ValueInteger); }
      }
    }
  }
}
