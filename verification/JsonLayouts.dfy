/** What does not matter in a JSON text: blanks between tokens, and members that a later one replaces. */
module JsonLayouts {
  import opened Bytes
  import opened Decimals
  import opened Insertions
  import opened JsonLexer
  import opened JsonParser
  import opened JsonStrings
  import opened Jsons
  import opened Wrappers

  // ---------- blanks ----------

  /** Space, tab, line feed and carriage return. */
  predicate Blanks(w: Str) {
    forall i :: 0 <= i < |w| ==> w[i] in {0x20, 0x09, 0x0A, 0x0D}
  }

  /** In front of a token exactly these four bytes are skipped. */
  lemma BlankBytes(c: byte)
    ensures Scan([c] + Ascii("1"), 0) == Token(ValueUnsigned, 1, 2) <==> c in {0x20, 0x09, 0x0A, 0x0D}
  {
    hide ScanNumber, ScanString, ScanLiteral;
    var s := [c] + Ascii("1");
    assert s == [c, 0x31];
    assert IsBlank(c) <==> c in {0x20, 0x09, 0x0A, 0x0D};
    assert !IsBlank(0x31) && SkipBlanks(s, 1) == 1;
    if IsBlank(c) {
      assert SkipBlanks(s, 0) == 1;
      OneDigit(s);
    } else {
      assert SkipBlanks(s, 0) == 0 && Scan(s, 0).start == 0;
    }
  }

  lemma OneDigit(s: Str)
    requires |s| == 2 && s[1] == 0x31
    ensures TokenAt(s, 1) == Token(ValueUnsigned, 1, 2)
  {
  }

  lemma {:induction false} BlanksChangeNoToken(s: Str, p: nat, w: Str)
    requires At(s, p, w) && Blanks(w)
    ensures Scan(s, p) == Scan(s, p + |w|)
    decreases |w|
  {
    hide TokenAt;
    if w != [] {
      assert w == [w[0]] + w[1..];
      AtFirst(s, p, w[0], w[1..]);
      BlanksChangeNoToken(s, p + 1, w[1..]);
      assert IsBlank(CharAt(s, p)) && SkipBlanks(s, p) == SkipBlanks(s, p + 1);
    }
  }

  /** The tokens from p on, with their texts, up to the end or to something that is no token. */
  function Tokens(s: Str, p: nat): (r: seq<(TokenKind, Str)>)
    ensures r != []
    decreases |s| - p
  {
    var t := Scan(s, p);
    if t.kind == EndOfInput || t.kind == ParseError then [(t.kind, [])]
    else [(t.kind, s[t.start..t.end])] + Tokens(s, t.end)
  }

  /** Blanks in front of a token, or at the end, are no part of the sequence. */
  lemma BlanksAreNoTokens(s: Str, p: nat, w: Str)
    requires At(s, p, w) && Blanks(w)
    ensures Tokens(s, p) == Tokens(s, p + |w|)
  {
    BlanksChangeNoToken(s, p, w);
  }

  // ---------- the parser sees tokens only ----------

  /** The same value or the same error, and the same tokens behind it. */
  ghost predicate Alike(s: Str, a: Result<(Json, nat)>, t: Str, b: Result<(Json, nat)>) {
    match (a, b)
    case (Ok((j, p)), Ok((k, q))) => j == k && Tokens(s, p) == Tokens(t, q)
    case (Err(e), Err(f)) => e == f
    case _ => false
  }

  /** Equal sequences start with tokens of the same kind and text, and go on alike. */
  lemma FirstAlike(s: Str, p: nat, t: Str, q: nat)
    requires Tokens(s, p) == Tokens(t, q)
    ensures var (x, y) := (Scan(s, p), Scan(t, q));
      && x.kind == y.kind
      && (x.kind != EndOfInput && x.kind != ParseError ==>
            s[x.start..x.end] == t[y.start..y.end] && Tokens(s, x.end) == Tokens(t, y.end))
  {
    hide Scan;
    var (x, y) := (Scan(s, p), Scan(t, q));
    assert Tokens(s, p)[0].0 == x.kind && Tokens(t, q)[0].0 == y.kind;
    if x.kind != EndOfInput && x.kind != ParseError {
      assert Tokens(s, p)[0].1 == s[x.start..x.end] && Tokens(s, p)[1..] == Tokens(s, x.end);
      assert Tokens(t, q)[0].1 == t[y.start..y.end] && Tokens(t, q)[1..] == Tokens(t, y.end);
    }
  }

  /** What stands between the quotes of a token is a function of its text. */
  lemma Inner(s: Str, a: nat, b: nat)
    requires a + 2 <= b <= |s|
    ensures s[a + 1..b - 1] == s[a..b][1..b - a - 1]
  {
    SliceSlice(s, a, b, 1, b - a - 1);
  }

  lemma ScalarAlike(s: Str, x: Token, t: Str, y: Token, f: ToDouble)
    requires x == Scan(s, x.start) && y == Scan(t, y.start) && x.kind == y.kind
    requires x.kind != EndOfInput && x.kind != ParseError ==> s[x.start..x.end] == t[y.start..y.end]
    ensures Scalar(s, x, f) == Scalar(t, y, f)
  {
    hide Scan, StringValue, NumberValue;
    if x.kind == ValueString {
      Inner(s, x.start, x.end);
      Inner(t, y.start, y.end);
    }
  }

  lemma TokenIsItself(s: Str, p: nat)
    ensures Scan(s, Scan(s, p).start) == Scan(s, p)
  {
    hide TokenAt;
    var q := SkipBlanks(s, p);
    assert SkipBlanks(s, q) == q;
  }

  lemma {:induction false} ValuesAlike(s: Str, p: nat, t: Str, q: nat, f: ToDouble)
    requires Tokens(s, p) == Tokens(t, q)
    ensures Alike(s, ParseValue(s, p, f), t, ParseValue(t, q, f))
    decreases |s| - p, 2
  {
    hide Scan, Tokens, ParseElems, ParseMembers, Scalar;
    var (x, y) := (Scan(s, p), Scan(t, q));
    FirstAlike(s, p, t, q);
    if x.kind == BeginArray {
      FirstAlike(s, x.end, t, y.end);
      ElemsAlike(s, x.end, t, y.end, [], f);
    } else if x.kind == BeginObject {
      FirstAlike(s, x.end, t, y.end);
      MembersAlike(s, x.end, t, y.end, map[], f);
    } else {
      TokenIsItself(s, p);
      TokenIsItself(t, q);
      ScalarAlike(s, x, t, y, f);
      if x.kind == EndOfInput || x.kind == ParseError { NoScalar(s, x, f); }
    }
  }

  lemma NoScalar(s: Str, x: Token, f: ToDouble)
    requires x == Scan(s, x.start) && (x.kind == EndOfInput || x.kind == ParseError)
    ensures Scalar(s, x, f).Err?
  {
    hide Scan;
  }

  lemma {:induction false} ElemsAlike(s: Str, p: nat, t: Str, q: nat, elems: seq<Json>, f: ToDouble)
    requires Tokens(s, p) == Tokens(t, q)
    ensures Alike(s, ParseElems(s, p, elems, f), t, ParseElems(t, q, elems, f))
    decreases |s| - p, 3
  {
    hide Scan, Tokens, ParseValue;
    ValuesAlike(s, p, t, q, f);
    var (a, b) := (ParseValue(s, p, f), ParseValue(t, q, f));
    if a.Ok? {
      var (p1, q1) := (a.value.1, b.value.1);
      FirstAlike(s, p1, t, q1);
      if Scan(s, p1).kind == ValueSeparator { ElemsAlike(s, Scan(s, p1).end, t, Scan(t, q1).end, elems + [a.value.0], f); }
    }
  }

  lemma KeysAlike(s: Str, p: nat, t: Str, q: nat)
    requires Tokens(s, p) == Tokens(t, q)
    ensures var (a, b) := (ParseKey(s, p), ParseKey(t, q));
      && (a.Err? <==> b.Err?) && (a.Err? ==> a == b)
      && (a.Ok? ==> a.value.0 == b.value.0 && Tokens(s, a.value.1) == Tokens(t, b.value.1))
  {
    hide Scan, Tokens, StringValue;
    FirstAlike(s, p, t, q);
    var (x, y) := (Scan(s, p), Scan(t, q));
    if x.kind == ValueString {
      Inner(s, x.start, x.end);
      Inner(t, y.start, y.end);
      FirstAlike(s, x.end, t, y.end);
    }
  }

  lemma {:induction false} MembersAlike(s: Str, p: nat, t: Str, q: nat, members: map<Str, Json>, f: ToDouble)
    requires Tokens(s, p) == Tokens(t, q)
    ensures Alike(s, ParseMembers(s, p, members, f), t, ParseMembers(t, q, members, f))
    decreases |s| - p, 3
  {
    hide Scan, Tokens, ParseValue, ParseKey;
    KeysAlike(s, p, t, q);
    var (k, l) := (ParseKey(s, p), ParseKey(t, q));
    if k.Ok? {
      ValuesAlike(s, k.value.1, t, l.value.1, f);
      var (a, b) := (ParseValue(s, k.value.1, f), ParseValue(t, l.value.1, f));
      if a.Ok? {
        var (p1, q1) := (a.value.1, b.value.1);
        FirstAlike(s, p1, t, q1);
        if Scan(s, p1).kind == ValueSeparator {
          MembersAlike(s, Scan(s, p1).end, t, Scan(t, q1).end, members[k.value.0 := a.value.0], f);
        }
      }
    }
  }

  /** Texts with the same tokens parse to the same value or the same error, whatever blanks stand between them. */
  lemma LayoutIsIrrelevant(s: Str, t: Str, f: ToDouble)
    requires Tokens(s, 0) == Tokens(t, 0)
    ensures Parse(s, f) == Parse(t, f)
  {
    hide Scan, Tokens, ParseValue;
    ValuesAlike(s, 0, t, 0, f);
    var (a, b) := (ParseValue(s, 0, f), ParseValue(t, 0, f));
    if a.Ok? { FirstAlike(s, a.value.1, t, b.value.1); }
  }

  // ---------- members ----------

  /** The members from p on, in the order of the text. */
  function PairsOf(s: Str, p: nat, f: ToDouble): Result<(seq<(Str, Json)>, nat)>
    decreases |s| - p
  {
    var (key, v) :- ParseKey(s, p);
    var (value, q) :- ParseValue(s, v, f);
    var next := Scan(s, q);
    if next.kind == ValueSeparator then
      var (rest, end) :- PairsOf(s, next.end, f);
      Ok(([(key, value)] + rest, end))
    else if next.kind == EndObject then Ok(([(key, value)], next.end))
    else Err(InvalidArgument)
  }

  /** An object has the members of its text; of equal keys, the later one counts. */
  lemma {:induction false} MembersInOrder(s: Str, p: nat, members: map<Str, Json>, f: ToDouble)
    ensures ParseMembers(s, p, members, f) ==
      (var (pairs, end) :- PairsOf(s, p, f); Ok((Object(Inserted(members, pairs)), end)))
    decreases |s| - p
  {
    hide Scan, ParseKey, ParseValue;
    var k := ParseKey(s, p);
    if k.Ok? {
      var v := ParseValue(s, k.value.1, f);
      if v.Ok? {
        var (next, longer) := (Scan(s, v.value.1), members[k.value.0 := v.value.0]);
        if next.kind == ValueSeparator {
          MembersInOrder(s, next.end, longer, f);
          var rest := PairsOf(s, next.end, f);
          if rest.Ok? { InsertedFirst(members, (k.value.0, v.value.0), rest.value.0); }
        } else {
          InsertedFirst(members, (k.value.0, v.value.0), []);
        }
      }
    }
  }

  lemma InsertedFirst(members: map<Str, Json>, pair: (Str, Json), rest: seq<(Str, Json)>)
    ensures Inserted(members, [pair] + rest) == Inserted(members[pair.0 := pair.1], rest)
    ensures Inserted(members, [pair]) == members[pair.0 := pair.1]
  {
    assert ([pair] + rest)[1..] == rest;
    assert [pair][1..] == [];
  }

  // ---------- bytes spelled out ----------

  lemma TokensSpelled()
    ensures TRUE == Ascii("true") && FALSE == Ascii("false") && NULL == Ascii("null")
    ensures [LEFT_BRACKET, RIGHT_BRACKET, LEFT_BRACE, RIGHT_BRACE, COMMA, COLON, QUOTE, MINUS, DOT, LOWER_E, UPPER_E]
      == Ascii("[]{},:\"-.eE")
  {
  }
}
