/** Parsing what dump wrote, compact or indented. */
module JsonTextRoundTrip {
  import opened Binary
  import opened Bytes
  import opened Decimals
  import opened JsonDump
  import opened JsonLexer
  import opened JsonParser
  import opened JsonStringRoundTrip
  import opened JsonStrings
  import opened Jsons
  import opened Wrappers
  import Utf8

  /** All keys and strings are well-formed UTF-8. */
  predicate TextsWellFormed(j: Json) {
    match j
    case Text(t) => Utf8.WellFormed(t)
    case Array(a) => forall i :: 0 <= i < |a| ==> TextsWellFormed(a[i])
    case Object(m) => forall k :: k in m ==> Utf8.WellFormed(k) && TextsWellFormed(m[k])
    case _ => true
  }

  /** The printing of floating-point numbers is not part of the round trip. */
  predicate NoFloats(j: Json) {
    match j
    case Float(_) => false
    case Array(a) => forall i :: 0 <= i < |a| ==> NoFloats(a[i])
    case Object(m) => forall k :: k in m ==> NoFloats(m[k])
    case _ => true
  }

  // ---------- tokens ----------

  predicate AllBlank(s: Str) { forall i :: 0 <= i < |s| ==> IsBlank(s[i]) }

  lemma {:induction false} SkipTo(s: Str, p: nat, lead: Str)
    requires At(s, p, lead) && AllBlank(lead) && !IsBlank(CharAt(s, p + |lead|))
    ensures SkipBlanks(s, p) == p + |lead|
    decreases |lead|
  {
    if lead != [] {
      assert lead == [lead[0]] + lead[1..];
      AtFirst(s, p, lead[0], lead[1..]);
      SkipTo(s, p + 1, lead[1..]);
    }
  }

  /** The byte behind a number must not continue it. */
  predicate Delimited(s: Str, e: nat) {
    var c := CharAt(s, e);
    !IsDigit(c) && c != DOT && !IsE(c)
  }

  lemma {:induction false} DigitsEndAt(s: Str, d: nat, digits: Str)
    requires At(s, d, digits) && AllDigits(digits) && !IsDigit(CharAt(s, d + |digits|))
    ensures DigitsEnd(s, d) == d + |digits|
    decreases |digits|
  {
    if digits != [] {
      assert digits == [digits[0]] + digits[1..];
      AtFirst(s, d, digits[0], digits[1..]);
      DigitsEndAt(s, d + 1, digits[1..]);
    }
  }

  lemma DecimalScanned(s: Str, start: nat, d: nat, n: nat, kind: TokenKind)
    requires start <= d && At(s, d, Decimal(n)) && Delimited(s, d + |Decimal(n)|)
    ensures d < |s| && IsDigit(s[d]) && ScanNumber(s, start, d, kind) == Token(kind, start, d + |Decimal(n)|)
  {
    hide Decimal, DigitsEnd;
    var t := Decimal(n);
    assert t == [t[0]] + t[1..];
    AtFirst(s, d, t[0], t[1..]);
    if n != 0 { DigitsEndAt(s, d + 1, t[1..]); }
  }

  lemma UnsignedParses(s: Str, q: nat, n: nat, f: ToDouble)
    requires n <= 0xFFFF_FFFF_FFFF_FFFF && At(s, q, Decimal(n)) && Delimited(s, q + |Decimal(n)|)
    ensures CharAt(s, q) != 0 && IsDigit(CharAt(s, q))
    ensures TokenAt(s, q) == Token(ValueUnsigned, q, q + |Decimal(n)|)
    ensures NumberValue(s[q..q + |Decimal(n)|], ValueUnsigned, f) == Unsigned(n)
  {
    hide Decimal, ScanNumber, DigitsValue;
    DecimalScanned(s, q, q, n, ValueUnsigned);
    DecimalDenotes(n);
    UnsignedText(s, q, q + |Decimal(n)|);
    assert Decimal(n)[0] != MINUS;
  }

  lemma NegativeParses(s: Str, q: nat, n: nat, f: ToDouble)
    requires 0 < n <= 0x8000_0000_0000_0000 && At(s, q, [MINUS] + Decimal(n)) && Delimited(s, q + 1 + |Decimal(n)|)
    ensures CharAt(s, q) == MINUS
    ensures TokenAt(s, q) == Token(ValueInteger, q, q + 1 + |Decimal(n)|)
    ensures NumberValue(s[q..q + 1 + |Decimal(n)|], ValueInteger, f) == Integer(0 - n)
  {
    hide Decimal, ScanNumber, DigitsValue;
    AtFirst(s, q, MINUS, Decimal(n));
    DecimalScanned(s, q, q + 1, n, ValueInteger);
    DecimalDenotes(n);
    SignedText(s, q, q + 1 + |Decimal(n)|);
    assert s[q..q + 1 + |Decimal(n)|][1..] == Decimal(n);
  }

  /** A string token: found exactly when the string is well formed, and then with the same value. */
  lemma StringScanned(s: Str, q: nat, v: Str)
    requires At(s, q, [QUOTE] + Escape(v) + [QUOTE])
    ensures var e := q + |Escape(v)| + 2;
      && e <= |s| && s[q] == QUOTE
      && (Utf8.WellFormed(v) ==> TokenAt(s, q) == Token(ValueString, q, e))
      && (Utf8.WellFormed(v) ==> Content(s[q + 1..e - 1]) && StringValue(s[q + 1..e - 1]) == Ok(v))
      && (!Utf8.WellFormed(v) ==> TokenAt(s, q).kind == ParseError)
  {
    hide Escape, StringEnd, StringValue, Content;
    Reassociate([QUOTE], Escape(v), [QUOTE]);
    AtFirst(s, q, QUOTE, Escape(v) + [QUOTE]);
    AtSplit(s, q + 1, Escape(v), [QUOTE]);
    var x := s[q + 1 + |Escape(v) + [QUOTE]|..];
    assert s[q + 1..] == Closed(v, x);
    EscapedRun(s, q + 1, v, x);
    if Utf8.WellFormed(v) { EscapedValue(v); }
  }

  lemma WordScanned(s: Str, q: nat, text: Str, kind: TokenKind)
    requires At(s, q, text) && q < |s|
    requires (text == TRUE && kind == LiteralTrue) || (text == FALSE && kind == LiteralFalse) || (text == NULL && kind == LiteralNull)
    ensures s[q] == text[0] && TokenAt(s, q) == Token(kind, q, q + |text|)
  {
    assert text == [text[0]] + text[1..];
    AtFirst(s, q, text[0], text[1..]);
  }

  // ---------- values that are one token ----------

  /** What parsing the text of j at q gives, when the text ends at e. */
  function Expected(j: Json, e: nat): Result<(Json, nat)> {
    if TextsWellFormed(j) then Ok((Canonical(j), e)) else Err(InvalidArgument)
  }

  function Single(r: Result<Json>, e: nat): Result<(Json, nat)> {
    if r.Ok? then Ok((r.value, e)) else Err(r.error)
  }

  lemma ScalarStep(s: Str, p: nat, q: nat, f: ToDouble)
    requires SkipBlanks(s, p) == q
    ensures Scan(s, p) == TokenAt(s, q) && Scan(s, q) == TokenAt(s, q)
    ensures TokenAt(s, q).kind != BeginArray && TokenAt(s, q).kind != BeginObject ==>
      ParseValue(s, p, f) == Single(Scalar(s, TokenAt(s, q), f), TokenAt(s, q).end)
  {
  }

  /** What the text of a value starts with: nothing that is blank, a separator or a closing bracket. */
  predicate StartsValue(c: byte) {
    !IsBlank(c) && c != 0 && c != COMMA && c != RIGHT_BRACKET && c != RIGHT_BRACE
  }

  lemma DumpStarts(j: Json, y: Layout, indent: nat)
    requires NoFloats(j)
    ensures Dump(j, y, indent) != [] && StartsValue(Dump(j, y, indent)[0])
    ensures j.Array? ==> Dump(j, y, indent)[0] == LEFT_BRACKET
    ensures j.Object? ==> Dump(j, y, indent)[0] == LEFT_BRACE
  {
    hide Decimal, DumpElems, DumpMembers, Escape, Spaces;
  }

  lemma WordParses(s: Str, p: nat, q: nat, j: Json, y: Layout, indent: nat, f: ToDouble)
    requires (j.Null? || j.Boolean?) && SkipBlanks(s, p) == q && At(s, q, Dump(j, y, indent)) && q < |s|
    ensures ParseValue(s, p, f) == Expected(j, q + |Dump(j, y, indent)|)
  {
    hide TokenAt, Scan, ParseValue;
    ScalarStep(s, p, q, f);
    var (text, kind) := if j.Null? then (NULL, LiteralNull) else if j.b then (TRUE, LiteralTrue) else (FALSE, LiteralFalse);
    WordScanned(s, q, text, kind);
  }

  lemma NumberParses(s: Str, p: nat, q: nat, j: Json, y: Layout, indent: nat, f: ToDouble)
    requires (j.Integer? || j.Unsigned?) && SkipBlanks(s, p) == q && At(s, q, Dump(j, y, indent))
    requires Delimited(s, q + |Dump(j, y, indent)|)
    ensures ParseValue(s, p, f) == Expected(j, q + |Dump(j, y, indent)|)
  {
    hide TokenAt, Scan, ParseValue, NumberValue, Decimal;
    ScalarStep(s, p, q, f);
    var x: int := if j.Integer? then j.i else j.u;
    if x < 0 { NegativeParses(s, q, -x, f); } else { UnsignedParses(s, q, x, f); }
  }

  lemma StringParses(s: Str, p: nat, q: nat, j: Json, y: Layout, indent: nat, f: ToDouble)
    requires j.Text? && SkipBlanks(s, p) == q && At(s, q, Dump(j, y, indent))
    ensures ParseValue(s, p, f) == Expected(j, q + |Dump(j, y, indent)|)
  {
    hide TokenAt, Scan, ParseValue, StringValue, Escape, At, Utf8.WellFormed;
    ScalarStep(s, p, q, f);
    StringScanned(s, q, j.text);
  }

  // ---------- brackets ----------

  /** A one-byte token in front of which blanks may stand. */
  lemma MarkScanned(s: Str, p: nat, lead: Str, c: byte)
    requires At(s, p, lead + [c]) && AllBlank(lead)
    requires c == COMMA || c == COLON || c == LEFT_BRACKET || c == RIGHT_BRACKET || c == LEFT_BRACE || c == RIGHT_BRACE
    ensures var kind := if c == COMMA then ValueSeparator else if c == COLON then NameSeparator
        else if c == LEFT_BRACKET then BeginArray else if c == RIGHT_BRACKET then EndArray
        else if c == LEFT_BRACE then BeginObject else EndObject;
      Scan(s, p) == Token(kind, p + |lead|, p + |lead| + 1)
  {
    AtSplit(s, p, lead, [c]);
    assert s[p + |lead|..p + |lead| + 1][0] == c;
    SkipTo(s, p, lead);
  }

  /** The token that starts a value is no separator and no closing bracket. */
  lemma FirstToken(s: Str, p: nat, q: nat)
    requires SkipBlanks(s, p) == q && StartsValue(CharAt(s, q))
    ensures Scan(s, p).kind != EndArray && Scan(s, p).kind != EndObject && Scan(s, p).kind != ValueSeparator
    ensures CharAt(s, q) == LEFT_BRACKET ==> Scan(s, p) == Token(BeginArray, q, q + 1)
    ensures CharAt(s, q) == LEFT_BRACE ==> Scan(s, p) == Token(BeginObject, q, q + 1)
  {
    hide ScanNumber, ScanString, ScanLiteral;
  }

  lemma BlankLead(y: Layout, n: nat)
    ensures AllBlank(NewLine(y)) && AllBlank(Spaces(n)) && AllBlank(NewLine(y) + Spaces(n))
  {
  }

  lemma EmptyParses(s: Str, p: nat, q: nat, j: Json, y: Layout, indent: nat, f: ToDouble)
    requires j == Array([]) || j == Object(map[])
    requires SkipBlanks(s, p) == q && At(s, q, Dump(j, y, indent))
    ensures ParseValue(s, p, f) == Expected(j, q + |Dump(j, y, indent)|)
  {
    hide TokenAt, ParseElems, ParseMembers;
    var (open, close) := if j.Array? then (LEFT_BRACKET, RIGHT_BRACKET) else (LEFT_BRACE, RIGHT_BRACE);
    assert Dump(j, y, indent) == [open] + [close] && [] + [open] == [open] && [] + [close] == [close];
    AtSplit(s, q, [open], [close]);
    MarkScanned(s, q, [], open);
    MarkScanned(s, q + 1, [], close);
    assert Scan(s, p) == Scan(s, q) by { ScalarStep(s, p, q, f); }
    assert CanonicalAll([]) == [];
  }

  // ---------- arrays ----------

  lemma ElemsStep(s: Str, p: nat, elems: seq<Json>, f: ToDouble)
    ensures ParseValue(s, p, f).Err? ==> ParseElems(s, p, elems, f).Err?
    ensures ParseValue(s, p, f).Err? ==> ParseElems(s, p, elems, f) == Err(ParseValue(s, p, f).error)
    ensures ParseValue(s, p, f).Ok? ==>
      var (value, q) := ParseValue(s, p, f).value;
      var next := Scan(s, q);
      && (next.kind == ValueSeparator ==> ParseElems(s, p, elems, f) == ParseElems(s, next.end, elems + [value], f))
      && (next.kind == EndArray ==> ParseElems(s, p, elems, f) == Ok((Array(elems + [value]), next.end)))
  {
  }

  /** What follows an item: a comma and the next item, or the closing bracket on its own line. */
  function ItemLead(y: Layout, indent: nat): Str { NewLine(y) + Spaces(indent) }

  lemma ElemsText(j: Json, i: nat, y: Layout, indent: nat)
    requires j.Array? && i <= |j.elems|
    ensures i == |j.elems| ==> DumpElems(j, i, y, indent) == []
    ensures 0 < i < |j.elems| ==>
      DumpElems(j, i, y, indent) == [COMMA] + (ItemLead(y, indent) + (Dump(j.elems[i], y, indent) + DumpElems(j, i + 1, y, indent)))
    ensures 0 == i < |j.elems| ==>
      DumpElems(j, i, y, indent) == Spaces(indent) + (Dump(j.elems[i], y, indent) + DumpElems(j, i + 1, y, indent))
  {
    hide Dump, Spaces;
    if i < |j.elems| {
      ItemText(y, indent, Dump(j.elems[i], y, indent), DumpElems(j, i + 1, y, indent));
    }
  }

  lemma ItemText(y: Layout, indent: nat, item: Str, rest: Str)
    ensures Separator(y) + Spaces(indent) + item + rest == [COMMA] + (ItemLead(y, indent) + (item + rest))
    ensures [] + Spaces(indent) + item + rest == Spaces(indent) + (item + rest)
  {
    hide Spaces;
    var spaces := Spaces(indent);
    assert Separator(y) == [COMMA] + NewLine(y);
    Reassociate([COMMA], NewLine(y), spaces);
    Reassociate([COMMA] + ItemLead(y, indent), item, rest);
    Reassociate([COMMA], ItemLead(y, indent), item + rest);
    assert [] + spaces == spaces;
    Reassociate(spaces, item, rest);
  }

  /** After an item: the byte there ends a number, and the token is a comma or the closing bracket. */
  lemma ItemEnds(s: Str, e: nat, rest: Str, y: Layout, indent: nat, bracket: byte, more: Str)
    requires bracket == RIGHT_BRACKET || bracket == RIGHT_BRACE
    requires At(s, e, rest + Closing(y, indent, bracket)) && (rest == [] || rest == [COMMA] + more)
    ensures Delimited(s, e)
    ensures rest != [] ==> Scan(s, e) == Token(ValueSeparator, e, e + 1) && At(s, e + 1, more + Closing(y, indent, bracket))
    ensures rest == [] ==> Scan(s, e).end == e + |Closing(y, indent, bracket)|
    ensures rest == [] ==> Scan(s, e).kind == if bracket == RIGHT_BRACKET then EndArray else EndObject
  {
    hide Scan;
    if rest == [] {
      assert rest + Closing(y, indent, bracket) == NewLine(y) + Spaces(indent) + [bracket];
      BlankLead(y, indent);
      MarkScanned(s, e, NewLine(y) + Spaces(indent), bracket);
      ClosingDelimits(s, e, y, indent, bracket);
    } else {
      Reassociate([COMMA], more, Closing(y, indent, bracket));
      AtFirst(s, e, COMMA, more + Closing(y, indent, bracket));
      assert [] + [COMMA] == [COMMA] && s[e..e + 1] == [COMMA];
      MarkScanned(s, e, [], COMMA);
    }
  }

  lemma ClosingDelimits(s: Str, e: nat, y: Layout, indent: nat, bracket: byte)
    requires bracket == RIGHT_BRACKET || bracket == RIGHT_BRACE
    requires At(s, e, NewLine(y) + Spaces(indent) + [bracket])
    ensures Delimited(s, e)
  {
    var text := NewLine(y) + Spaces(indent) + [bracket];
    assert s[e..e + |text|][0] == s[e];
  }

  predicate ElemsWellFormed(j: Json, i: nat)
    requires j.Array?
  {
    forall k :: i <= k < |j.elems| ==> TextsWellFormed(j.elems[k])
  }

  lemma ElemsWellFormedStep(j: Json, i: nat)
    requires j.Array? && i < |j.elems|
    ensures ElemsWellFormed(j, i) <==> TextsWellFormed(j.elems[i]) && (i + 1 < |j.elems| ==> ElemsWellFormed(j, i + 1))
  {
    hide TextsWellFormed;
  }

  lemma ElemNoFloats(j: Json, i: nat)
    requires j.Array? && i < |j.elems| && NoFloats(j)
    ensures NoFloats(j.elems[i])
  {
  }

  lemma {:induction false} ElemsParse(s: Str, p: nat, lead: Str, j: Json, i: nat, y: Layout, indent: nat, inner: nat, f: ToDouble)
    requires j.Array? && i < |j.elems| && NoFloats(j) && AllBlank(lead)
    requires At(s, p, lead + (Dump(j.elems[i], y, inner) + (DumpElems(j, i + 1, y, inner) + Closing(y, indent, RIGHT_BRACKET))))
    ensures ParseElems(s, p, CanonicalAll(j.elems)[..i], f) ==
      if !ElemsWellFormed(j, i) then Err(InvalidArgument) else
        Ok((Array(CanonicalAll(j.elems)), p + |lead| + |Dump(j.elems[i], y, inner)|
          + |DumpElems(j, i + 1, y, inner)| + |Closing(y, indent, RIGHT_BRACKET)|))
    decreases j, 0, |j.elems| - i
  {
    hide Dump, DumpElems, ParseValue, ParseElems, Scan, Closing, Spaces, Delimited, Canonical, ElemsWellFormed,
         TextsWellFormed, NoFloats, NewLine, AllBlank, At;
    ElemsWellFormedStep(j, i);
    ElemNoFloats(j, i);
    var (item, rest, close) := (Dump(j.elems[i], y, inner), DumpElems(j, i + 1, y, inner), Closing(y, indent, RIGHT_BRACKET));
    var (q, e) := (p + |lead|, p + |lead| + |item|);
    var all := CanonicalAll(j.elems);
    AtSplit(s, p, lead, item + (rest + close));
    AtSplit(s, q, item, rest + close);
    ElemsText(j, i + 1, y, inner);
    var more := if i + 1 < |j.elems|
      then ItemLead(y, inner) + (Dump(j.elems[i + 1], y, inner) + DumpElems(j, i + 2, y, inner)) else [];
    ItemEnds(s, e, rest, y, indent, RIGHT_BRACKET, more);
    ItemParses(s, p, lead, q, j.elems[i], y, inner, f);
    ElemsStep(s, p, all[..i], f);
    if TextsWellFormed(j.elems[i]) {
      assert all[..i] + [all[i]] == all[..i + 1];
      if i + 1 < |j.elems| {
        BlankLead(y, inner);
        NextText(ItemLead(y, inner), Dump(j.elems[i + 1], y, inner), DumpElems(j, i + 2, y, inner), close);
        ElemsParse(s, e + 1, ItemLead(y, inner), j, i + 1, y, indent, inner, f);
      } else {
        assert all[..i + 1] == all;
      }
    }
  }

  lemma NextText(lead: Str, item: Str, rest: Str, close: Str)
    ensures lead + (item + rest) + close == lead + (item + (rest + close))
  {
    Reassociate(lead, item + rest, close);
    Reassociate(item, rest, close);
  }

  /** A value behind blanks. */
  lemma ItemParses(s: Str, p: nat, lead: Str, q: nat, j: Json, y: Layout, indent: nat, f: ToDouble)
    requires At(s, p, lead) && AllBlank(lead) && q == p + |lead| && At(s, q, Dump(j, y, indent))
    requires Delimited(s, q + |Dump(j, y, indent)|) && NoFloats(j)
    ensures ParseValue(s, p, f) == Expected(j, q + |Dump(j, y, indent)|)
    decreases j, 3
  {
    hide Dump, ParseValue, Delimited;
    DumpStarts(j, y, indent);
    assert s[q..q + |Dump(j, y, indent)|][0] == s[q];
    SkipTo(s, p, lead);
    ValueParses(s, p, q, j, y, indent, f);
  }

  lemma ArrayParses(s: Str, p: nat, q: nat, j: Json, y: Layout, indent: nat, f: ToDouble)
    requires j.Array? && j.elems != [] && NoFloats(j) && SkipBlanks(s, p) == q && At(s, q, Dump(j, y, indent))
    ensures ParseValue(s, p, f) == Expected(j, q + |Dump(j, y, indent)|)
    decreases j, 1
  {
    hide Dump, DumpElems, ParseValue, ParseElems, Scan, Closing, Spaces, NoFloats, Canonical, TextsWellFormed, ElemsWellFormed;
    var inner := Deeper(y, indent);
    var (item, rest, close) := (Dump(j.elems[0], y, inner), DumpElems(j, 1, y, inner), Closing(y, indent, RIGHT_BRACKET));
    DumpOfArray(j, y, indent);
    ElemsText(j, 0, y, inner);
    BracketText(LEFT_BRACKET, y, inner, item, rest, close);
    AtFirst(s, q, LEFT_BRACKET, ItemLead(y, inner) + (item + (rest + close)));
    BlankLead(y, inner);
    ElemsParse(s, q + 1, ItemLead(y, inner), j, 0, y, indent, inner, f);
    ArrayOpens(s, p, q, j, y, inner, rest + close, f);
    AllElems(j);
  }

  lemma DumpOfArray(j: Json, y: Layout, indent: nat)
    requires j.Array? && j.elems != []
    ensures Dump(j, y, indent)
      == [LEFT_BRACKET] + NewLine(y) + DumpElems(j, 0, y, Deeper(y, indent)) + Closing(y, indent, RIGHT_BRACKET)
  {
    hide DumpElems, Closing;
  }

  lemma AllElems(j: Json)
    requires j.Array?
    ensures Canonical(j) == Array(CanonicalAll(j.elems)) && CanonicalAll(j.elems)[..0] == []
    ensures TextsWellFormed(j) <==> ElemsWellFormed(j, 0)
  {
  }

  lemma BracketText(open: byte, y: Layout, inner: nat, item: Str, rest: Str, close: Str)
    ensures [open] + NewLine(y) + (Spaces(inner) + (item + rest)) + close
      == [open] + (ItemLead(y, inner) + (item + (rest + close)))
  {
    hide Spaces;
    var body := item + rest;
    Reassociate([open] + NewLine(y), Spaces(inner), body);
    Reassociate([open], NewLine(y), Spaces(inner));
    Reassociate([open] + ItemLead(y, inner), body, close);
    Reassociate([open], ItemLead(y, inner), body + close);
    Reassociate(item, rest, close);
  }

  /** Behind an opening bracket, a value or a key comes first. */
  lemma LeadScanned(s: Str, p: nat, lead: Str, item: Str, rest: Str)
    requires At(s, p, lead + (item + rest)) && AllBlank(lead) && item != [] && StartsValue(item[0])
    ensures Scan(s, p).kind != EndArray && Scan(s, p).kind != EndObject && Scan(s, p).kind != ValueSeparator
  {
    hide Scan;
    var q := p + |lead|;
    AtSplit(s, p, lead, item + rest);
    AtSplit(s, q, item, rest);
    assert s[q..q + |item|][0] == s[q];
    SkipTo(s, p, lead);
    FirstToken(s, p, q);
  }

  lemma ArrayOpens(s: Str, p: nat, q: nat, j: Json, y: Layout, inner: nat, rest: Str, f: ToDouble)
    requires j.Array? && j.elems != [] && NoFloats(j) && SkipBlanks(s, p) == q && q < |s| && s[q] == LEFT_BRACKET
    requires At(s, q + 1, ItemLead(y, inner) + (Dump(j.elems[0], y, inner) + rest))
    ensures ParseValue(s, p, f) == ParseElems(s, q + 1, [], f)
  {
    hide Dump, ParseElems, Scan, Spaces;
    FirstToken(s, p, q);
    DumpStarts(j.elems[0], y, inner);
    BlankLead(y, inner);
    LeadScanned(s, q + 1, ItemLead(y, inner), Dump(j.elems[0], y, inner), rest);
  }

  // ---------- objects ----------

  ghost predicate IsKeyList(j: Json, keys: seq<Str>)
    requires j.Object?
  {
    && (forall k :: k in keys <==> k in j.members)
    && forall p, q :: 0 <= p < q < |keys| ==> keys[p] != keys[q]
  }

  ghost predicate MembersWellFormed(j: Json, keys: seq<Str>, i: nat)
    requires j.Object? && (forall k :: k in keys ==> k in j.members)
  {
    forall n :: i <= n < |keys| ==> Utf8.WellFormed(keys[n]) && TextsWellFormed(j.members[keys[n]])
  }

  lemma MembersText(j: Json, keys: seq<Str>, i: nat, y: Layout, indent: nat)
    requires j.Object? && i <= |keys| && (forall k :: k in keys ==> k in j.members)
    ensures i == |keys| ==> DumpMembers(j, keys, i, y, indent) == []
    ensures 0 < i < |keys| ==>
      DumpMembers(j, keys, i, y, indent) == [COMMA] + (ItemLead(y, indent) + (DumpMember(j, keys[i], y, indent) + DumpMembers(j, keys, i + 1, y, indent)))
    ensures 0 == i < |keys| ==>
      DumpMembers(j, keys, i, y, indent) == Spaces(indent) + (DumpMember(j, keys[i], y, indent) + DumpMembers(j, keys, i + 1, y, indent))
  {
    hide DumpMember, Spaces;
    if i < |keys| {
      ItemText(y, indent, DumpMember(j, keys[i], y, indent), DumpMembers(j, keys, i + 1, y, indent));
    }
  }

  /** A key: its string token, and the colon behind it; or no string token. */
  lemma KeyScanned(s: Str, p: nat, lead: Str, key: Str, y: Layout, rest: Str)
    requires At(s, p, lead + (KeyText(key, y) + rest)) && AllBlank(lead)
    ensures var q := p + |lead|;
      var e := q + |Escape(key)| + 2;
      && (!Utf8.WellFormed(key) ==> Scan(s, p).kind != ValueString)
      && (Utf8.WellFormed(key) ==> Scan(s, p) == Token(ValueString, q, e) && StringTokenIs(s, q, e, key))
      && Scan(s, e) == Token(NameSeparator, e, e + 1)
      && At(s, e + 1, (if y.pretty then [SPACE] else []) + rest) && e + 1 + (if y.pretty then 1 else 0) == q + |KeyText(key, y)|
  {
    hide Escape, Scan, ParseValue, KeyText, StringTokenIs, Utf8.WellFormed;
    var quoted := [QUOTE] + Escape(key) + [QUOTE];
    var blank: Str := if y.pretty then [SPACE] else [];
    var (q, e) := (p + |lead|, p + |lead| + |quoted|);
    KeyParts(key, y, rest);
    AtSplit(s, p, lead, quoted + ([COLON] + (blank + rest)));
    AtSplit(s, q, quoted, [COLON] + (blank + rest));
    QuotedScanned(s, p, lead, key);
    AtSplit(s, e, [COLON], blank + rest);
    assert [] + [COLON] == [COLON];
    MarkScanned(s, e, [], COLON);
  }

  lemma QuotedScanned(s: Str, p: nat, lead: Str, v: Str)
    requires At(s, p, lead) && At(s, p + |lead|, [QUOTE] + Escape(v) + [QUOTE]) && AllBlank(lead)
    ensures var q := p + |lead|;
      var e := q + |Escape(v)| + 2;
      && (!Utf8.WellFormed(v) ==> Scan(s, p).kind != ValueString)
      && (Utf8.WellFormed(v) ==> Scan(s, p) == Token(ValueString, q, e) && StringTokenIs(s, q, e, v))
  {
    hide Escape, TokenAt, Content, StringValue, Utf8.WellFormed;
    StringScanned(s, p + |lead|, v);
    SkipTo(s, p, lead);
  }

  predicate StringTokenIs(s: Str, q: nat, e: nat, v: Str) {
    q + 1 < e <= |s| && Content(s[q + 1..e - 1]) && StringValue(s[q + 1..e - 1]) == Ok(v)
  }

  lemma KeyParts(key: Str, y: Layout, rest: Str)
    ensures |KeyText(key, y)| == |Escape(key)| + 3 + if y.pretty then 1 else 0
    ensures KeyText(key, y) + rest
      == [QUOTE] + Escape(key) + [QUOTE] + ([COLON] + ((if y.pretty then [SPACE] else []) + rest))
  {
    hide Escape;
    var head := [QUOTE] + Escape(key);
    var blank: Str := if y.pretty then [SPACE] else [];
    assert KeyText(key, y) == head + ([QUOTE] + ([COLON] + blank));
    Reassociate(head, [QUOTE] + ([COLON] + blank), rest);
    Reassociate([QUOTE], [COLON] + blank, rest);
    Reassociate([COLON], blank, rest);
    Reassociate(head, [QUOTE], [COLON] + (blank + rest));
  }

  lemma MembersStep(s: Str, p: nat, members: map<Str, Json>, q: nat, e: nat, key: Str, f: ToDouble)
    requires Scan(s, p) == Token(ValueString, q, e) && StringTokenIs(s, q, e, key)
    requires Scan(s, e) == Token(NameSeparator, e, e + 1)
    ensures ParseValue(s, e + 1, f).Err? ==> ParseMembers(s, p, members, f) == Err(ParseValue(s, e + 1, f).error)
    ensures ParseValue(s, e + 1, f).Ok? ==>
      var (value, r) := ParseValue(s, e + 1, f).value;
      var next := Scan(s, r);
      && (next.kind == ValueSeparator ==> ParseMembers(s, p, members, f) == ParseMembers(s, next.end, members[key := value], f))
      && (next.kind == EndObject ==> ParseMembers(s, p, members, f) == Ok((Object(members[key := value]), next.end)))
  {
    hide Scan, StringValue, Content, ParseValue;
  }

  lemma NoKey(s: Str, p: nat, members: map<Str, Json>, f: ToDouble)
    requires Scan(s, p).kind != ValueString
    ensures ParseMembers(s, p, members, f) == Err(InvalidArgument)
  {
  }

  lemma MembersWellFormedStep(j: Json, keys: seq<Str>, i: nat)
    requires j.Object? && i < |keys| && (forall k :: k in keys ==> k in j.members)
    ensures MembersWellFormed(j, keys, i) <==>
      Utf8.WellFormed(keys[i]) && TextsWellFormed(j.members[keys[i]]) && (i + 1 < |keys| ==> MembersWellFormed(j, keys, i + 1))
  {
    hide Utf8.WellFormed, TextsWellFormed;
  }

  lemma {:induction false} MembersParse(s: Str, p: nat, lead: Str, j: Json, keys: seq<Str>, i: nat, y: Layout, indent: nat, inner: nat, f: ToDouble)
    requires j.Object? && IsKeyList(j, keys) && i < |keys| && NoFloats(j) && AllBlank(lead)
    requires At(s, p, lead + (DumpMember(j, keys[i], y, inner) + (DumpMembers(j, keys, i + 1, y, inner) + Closing(y, indent, RIGHT_BRACE))))
    ensures ParseMembers(s, p, CanonicalFirst(j, keys, i), f) ==
      if !MembersWellFormed(j, keys, i) then Err(InvalidArgument) else
        Ok((Object(CanonicalFirst(j, keys, |keys|)), p + |lead| + |DumpMember(j, keys[i], y, inner)|
          + |DumpMembers(j, keys, i + 1, y, inner)| + |Closing(y, indent, RIGHT_BRACE)|))
    decreases j, 0, |keys| - i
  {
    hide Dump, DumpMembers, ParseValue, ParseMembers, Scan, Closing, Spaces, Delimited, Canonical, KeyText, StringTokenIs, CanonicalFirst, NoFloats, TextsWellFormed,
         Utf8.WellFormed, MembersWellFormed, DumpMember;
    MembersWellFormedStep(j, keys, i);
    var key := keys[i];
    var (rest, close) := (DumpMembers(j, keys, i + 1, y, inner), Closing(y, indent, RIGHT_BRACE));
    var q := p + |lead|;
    var e := q + |DumpMember(j, key, y, inner)|;
    MembersText(j, keys, i + 1, y, inner);
    var more := if i + 1 < |keys|
      then ItemLead(y, inner) + (DumpMember(j, keys[i + 1], y, inner) + DumpMembers(j, keys, i + 2, y, inner)) else [];
    AtSplit(s, p, lead, DumpMember(j, key, y, inner) + (rest + close));
    AtSplit(s, q, DumpMember(j, key, y, inner), rest + close);
    ItemEnds(s, e, rest, y, indent, RIGHT_BRACE, more);
    MemberParses(s, p, lead, j, key, CanonicalFirst(j, keys, i), y, inner, rest + close, f);
    CanonicalNext(j, keys, i);
    if Utf8.WellFormed(key) && TextsWellFormed(j.members[key]) && i + 1 < |keys| {
      BlankLead(y, inner);
      NextText(ItemLead(y, inner), DumpMember(j, keys[i + 1], y, inner), DumpMembers(j, keys, i + 2, y, inner), close);
      MembersParse(s, e + 1, ItemLead(y, inner), j, keys, i + 1, y, indent, inner, f);
    }
  }

  /** One member, up to the token behind its value. */
  lemma MemberParses(s: Str, p: nat, lead: Str, j: Json, key: Str, members: map<Str, Json>, y: Layout, inner: nat, rest: Str, f: ToDouble)
    requires j.Object? && key in j.members && NoFloats(j) && AllBlank(lead)
    requires At(s, p, lead + (DumpMember(j, key, y, inner) + rest))
    requires Delimited(s, p + |lead| + |DumpMember(j, key, y, inner)|)
    ensures !(Utf8.WellFormed(key) && TextsWellFormed(j.members[key])) ==> ParseMembers(s, p, members, f) == Err(InvalidArgument)
    ensures Utf8.WellFormed(key) && TextsWellFormed(j.members[key]) ==>
      var next := Scan(s, p + |lead| + |DumpMember(j, key, y, inner)|);
      var longer := members[key := Canonical(j.members[key])];
      && (next.kind == ValueSeparator ==> ParseMembers(s, p, members, f) == ParseMembers(s, next.end, longer, f))
      && (next.kind == EndObject ==> ParseMembers(s, p, members, f) == Ok((Object(longer), next.end)))
    decreases j, 0, 0
  {
    hide Dump, ParseValue, ParseMembers, Scan, Delimited, Canonical, KeyText, StringTokenIs, Utf8.WellFormed, NoFloats,
         TextsWellFormed, Escape, At;
    var value := Dump(j.members[key], y, inner);
    Reassociate(KeyText(key, y), value, rest);
    KeyScanned(s, p, lead, key, y, value + rest);
    if !Utf8.WellFormed(key) {
      NoKey(s, p, members, f);
    } else {
      var (q, e) := (p + |lead|, p + |lead| + |Escape(key)| + 2);
      MemberNoFloats(j, key);
      MemberValueParses(s, e + 1, if y.pretty then [SPACE] else [], j.members[key], y, inner, rest, f);
      MembersStep(s, p, members, q, e, key, f);
    }
  }

  lemma MemberNoFloats(j: Json, key: Str)
    requires j.Object? && key in j.members && NoFloats(j)
    ensures NoFloats(j.members[key])
  {
  }

  lemma MemberValueParses(s: Str, p: nat, blank: Str, j: Json, y: Layout, inner: nat, rest: Str, f: ToDouble)
    requires At(s, p, blank + (Dump(j, y, inner) + rest)) && AllBlank(blank) && NoFloats(j)
    requires Delimited(s, p + |blank| + |Dump(j, y, inner)|)
    ensures ParseValue(s, p, f) == Expected(j, p + |blank| + |Dump(j, y, inner)|)
    decreases j, 4
  {
    hide Dump, ParseValue, Delimited, NoFloats, Expected;
    AtSplit(s, p, blank, Dump(j, y, inner) + rest);
    AtSplit(s, p + |blank|, Dump(j, y, inner), rest);
    ItemParses(s, p, blank, p + |blank|, j, y, inner, f);
  }

  lemma ObjectParses(s: Str, p: nat, q: nat, j: Json, keys: seq<Str>, y: Layout, indent: nat, f: ToDouble)
    requires j.Object? && IsKeyList(j, keys) && keys != [] && NoFloats(j) && SkipBlanks(s, p) == q
    requires At(s, q, OPEN_OBJECT + NewLine(y) + DumpMembers(j, keys, 0, y, Deeper(y, indent)) + Closing(y, indent, RIGHT_BRACE))
    ensures ParseValue(s, p, f) == Expected(j,
      q + |OPEN_OBJECT + NewLine(y) + DumpMembers(j, keys, 0, y, Deeper(y, indent)) + Closing(y, indent, RIGHT_BRACE)|)
    decreases j, 1, 0
  {
    hide DumpMember, DumpMembers, ParseMembers, ParseValue, Scan, Closing, Spaces, CanonicalFirst, NoFloats, Canonical,
         TextsWellFormed, MembersWellFormed;
    var inner := Deeper(y, indent);
    var (item, rest, close) := (DumpMember(j, keys[0], y, inner), DumpMembers(j, keys, 1, y, inner), Closing(y, indent, RIGHT_BRACE));
    MembersText(j, keys, 0, y, inner);
    BracketText(LEFT_BRACE, y, inner, item, rest, close);
    AtFirst(s, q, LEFT_BRACE, ItemLead(y, inner) + (item + (rest + close)));
    BlankLead(y, inner);
    CanonicalNone(j, keys);
    MembersParse(s, q + 1, ItemLead(y, inner), j, keys, 0, y, indent, inner, f);
    ObjectOpens(s, p, q, j, keys[0], y, inner, rest + close, f);
    AllMembers(j, keys);
  }

  lemma AllMembers(j: Json, keys: seq<Str>)
    requires j.Object? && IsKeyList(j, keys)
    ensures Object(CanonicalFirst(j, keys, |keys|)) == Canonical(j)
    ensures MembersWellFormed(j, keys, 0) <==> TextsWellFormed(j)
  {
    hide Utf8.WellFormed, Canonical, CanonicalFirst;
    CanonicalWhole(j, keys);
    forall k | k in j.members && MembersWellFormed(j, keys, 0) ensures Utf8.WellFormed(k) && TextsWellFormed(j.members[k]) {
      var n :| 0 <= n < |keys| && keys[n] == k;
    }
  }

  lemma ObjectOpens(s: Str, p: nat, q: nat, j: Json, key: Str, y: Layout, inner: nat, rest: Str, f: ToDouble)
    requires j.Object? && key in j.members && SkipBlanks(s, p) == q && q < |s| && s[q] == LEFT_BRACE
    requires At(s, q + 1, ItemLead(y, inner) + (DumpMember(j, key, y, inner) + rest))
    ensures ParseValue(s, p, f) == ParseMembers(s, q + 1, map[], f)
  {
    hide Dump, ParseMembers, Scan, Spaces, Escape;
    FirstToken(s, p, q);
    BlankLead(y, inner);
    assert DumpMember(j, key, y, inner)[0] == QUOTE;
    LeadScanned(s, q + 1, ItemLead(y, inner), DumpMember(j, key, y, inner), rest);
  }

  // ---------- all values ----------

  lemma ValueParses(s: Str, p: nat, q: nat, j: Json, y: Layout, indent: nat, f: ToDouble)
    requires SkipBlanks(s, p) == q && At(s, q, Dump(j, y, indent)) && Delimited(s, q + |Dump(j, y, indent)|) && NoFloats(j)
    ensures ParseValue(s, p, f) == Expected(j, q + |Dump(j, y, indent)|)
    decreases j, 2
  {
    hide DumpElems, DumpMembers, ParseValue, Closing, Expected, Delimited;
    match j
    case Null => DumpStarts(j, y, indent); WordParses(s, p, q, j, y, indent, f);
    case Boolean(_) => DumpStarts(j, y, indent); WordParses(s, p, q, j, y, indent, f);
    case Integer(_) => NumberParses(s, p, q, j, y, indent, f);
    case Unsigned(_) => NumberParses(s, p, q, j, y, indent, f);
    case Text(_) => StringParses(s, p, q, j, y, indent, f);
    case Array(a) =>
      if a == [] { EmptyParses(s, p, q, j, y, indent, f); } else { ArrayParses(s, p, q, j, y, indent, f); }
    case Object(m) =>
      if m == map[] { EmptyParses(s, p, q, j, y, indent, f); } else { MembersOfObject(s, p, q, j, y, indent, f); }
  }

  lemma MembersOfObject(s: Str, p: nat, q: nat, j: Json, y: Layout, indent: nat, f: ToDouble)
    requires j.Object? && j.members != map[] && NoFloats(j) && SkipBlanks(s, p) == q && At(s, q, Dump(j, y, indent))
    ensures ParseValue(s, p, f) == Expected(j, q + |Dump(j, y, indent)|)
    decreases j, 1, 1
  {
    hide Dump, DumpMembers, ParseValue, Closing, Expected, NoFloats, IsKeyList, SortedKeys;
    var keys := SortedKeys(j.members.Keys);
    ObjectKeys(j);
    DumpOfObject(j, keys, y, indent);
    ObjectParses(s, p, q, j, keys, y, indent, f);
  }

  lemma ObjectKeys(j: Json)
    requires j.Object? && j.members != map[]
    ensures IsKeyList(j, SortedKeys(j.members.Keys)) && SortedKeys(j.members.Keys) != []
  {
    hide SortedKeys;
    SortedKeysDistinct(j.members.Keys);
    assert |SortedKeys(j.members.Keys)| == |j.members.Keys|;
    assert j.members.Keys != {};
  }

  lemma DumpOfObject(j: Json, keys: seq<Str>, y: Layout, indent: nat)
    requires j.Object? && j.members != map[] && keys == SortedKeys(j.members.Keys)
    ensures Dump(j, y, indent)
      == OPEN_OBJECT + NewLine(y) + DumpMembers(j, keys, 0, y, Deeper(y, indent)) + Closing(y, indent, RIGHT_BRACE)
  {
    hide DumpMembers, Closing, SortedKeys;
  }

  /**
    parse(dump(j)): for every layout, a value without floating-point numbers is read back, with non-negative integers
    unsigned, exactly when its keys and strings are well-formed UTF-8; otherwise the parser throws. By operator== the
    result equals j.
  */
  lemma ParseInvertsDump(j: Json, y: Layout, f: ToDouble)
    requires NoFloats(j)
    ensures Parse(Dump(j, y, 0), f) == if TextsWellFormed(j) then Ok(Canonical(j)) else Err(InvalidArgument)
    ensures Equal(Canonical(j), j)
  {
    hide Dump, ParseValue, NoFloats;
    var s := Dump(j, y, 0);
    DumpStarts(j, y, 0);
    assert s[0..|s|] == s;
    ValueParses(s, 0, 0, j, y, 0, f);
    NoFloatsNoNan(j);
    CanonicalEqual(j);
  }

  /** The same for the code of both directions. */
  method DumpAndParse(j: Json, y: Layout, f: ToDouble) returns (r: Result<Json>)
    requires NoFloats(j)
    ensures r == if TextsWellFormed(j) then Ok(Canonical(j)) else Err(InvalidArgument)
  {
    hide Dump, Parse, NoFloats;
    var o := new ByteVector();
    DumpTo(j, o, y, 0);
    assert [] + Dump(j, y, 0) == Dump(j, y, 0);
    ParseInvertsDump(j, y, f);
    r := ParseText(o.data, f);
  }

  lemma {:induction false} NoFloatsNoNan(j: Json)
    requires NoFloats(j)
    ensures NanFree(j)
  {
    match j
    case Array(a) => forall i | 0 <= i < |a| ensures NanFree(a[i]) { NoFloatsNoNan(a[i]); }
    case Object(m) => forall k | k in m ensures NanFree(m[k]) { NoFloatsNoNan(m[k]); }
    case _ =>
  }
}
