/** Blanks may be inserted in front of a JSON text and behind any of its tokens. */
module JsonBlanks {
  import opened Bytes
  import opened Decimals
  import opened JsonLayouts
  import opened JsonLexer
  import opened JsonParser
  import opened JsonStrings
  import opened Jsons
  import opened Wrappers

  // ---------- a token depends only on what stands behind its start ----------

  /** From p on, s is what t is from q on. */
  ghost predicate Same(s: Str, p: nat, t: Str, q: nat) {
    |s| - p == |t| - q && forall i :: p <= i ==> CharAt(s, i) == CharAt(t, i - p + q)
  }

  lemma SameBehind(s: Str, p: nat, t: Str, q: nat, n: nat)
    requires Same(s, p, t, q)
    ensures Same(s, p + n, t, q + n) && CharAt(s, p + n) == CharAt(t, q + n)
  {
  }

  ghost predicate Moved(a: Token, p: nat, b: Token, q: nat) {
    a.kind == b.kind && a.start - p == b.start - q && a.end - p == b.end - q
  }

  lemma {:induction false} BlanksMove(s: Str, p: nat, t: Str, q: nat)
    requires Same(s, p, t, q)
    ensures SkipBlanks(s, p) - p == SkipBlanks(t, q) - q
    decreases |s| - p
  {
    SameBehind(s, p, t, q, 0);
    if IsBlank(CharAt(s, p)) {
      SameBehind(s, p, t, q, 1);
      BlanksMove(s, p + 1, t, q + 1);
    }
  }

  lemma {:induction false} DigitsMove(s: Str, p: nat, t: Str, q: nat)
    requires Same(s, p, t, q)
    ensures DigitsEnd(s, p) - p == DigitsEnd(t, q) - q
    decreases |s| - p
  {
    SameBehind(s, p, t, q, 0);
    if IsDigit(CharAt(s, p)) {
      SameBehind(s, p, t, q, 1);
      DigitsMove(s, p + 1, t, q + 1);
    }
  }

  lemma ExponentMoves(s: Str, p: nat, t: Str, q: nat)
    requires Same(s, p, t, q)
    ensures match (ExponentEnd(s, p), ExponentEnd(t, q))
      case (Some(e), Some(f)) => e - p == f - q
      case (None, None) => true
      case _ => false
  {
    SameBehind(s, p, t, q, 1);
    SameBehind(s, p, t, q, 2);
    DigitsMove(s, p + 1, t, q + 1);
    DigitsMove(s, p + 2, t, q + 2);
  }

  lemma NumberMoves(s: Str, p: nat, t: Str, q: nat, n: nat, kind: TokenKind)
    requires Same(s, p, t, q) && 0 < n && p + n <= |s|
    ensures q + n <= |t| && Moved(NumberToken(s, p, p + n, kind), p, NumberToken(t, q, q + n, kind), q)
  {
    hide DigitsEnd, ExponentEnd;
    SameBehind(s, p, t, q, n);
    SameBehind(s, p, t, q, n + 1);
    DigitsMove(s, p + n + 1, t, q + n + 1);
    ExponentMoves(s, p + n, t, q + n);
    var (f, g) := (DigitsEnd(s, p + n + 1), DigitsEnd(t, q + n + 1));
    SameBehind(s, p, t, q, f - p);
    ExponentMoves(s, f, t, g);
  }

  lemma ScanNumberMoves(s: Str, p: nat, t: Str, q: nat, n: nat, kind: TokenKind)
    requires Same(s, p, t, q) && IsDigit(CharAt(s, p + n))
    ensures IsDigit(CharAt(t, q + n)) && Moved(ScanNumber(s, p, p + n, kind), p, ScanNumber(t, q, q + n, kind), q)
  {
    hide DigitsEnd, NumberToken;
    SameBehind(s, p, t, q, n);
    SameBehind(s, p, t, q, n + 1);
    DigitsMove(s, p + n + 1, t, q + n + 1);
    var e := DigitsEnd(s, p + n + 1);
    DigitsSlice(s, p + n, e);
    NumberMoves(s, p, t, q, n + 1, kind);
    NumberMoves(s, p, t, q, e - p, kind);
  }

  lemma {:induction false} StringMoves(s: Str, p: nat, t: Str, q: nat, st: StringState)
    requires Same(s, p, t, q)
    ensures match (StringEnd(s, p, st), StringEnd(t, q, st))
      case (Some(e), Some(f)) => e - p == f - q
      case (None, None) => true
      case _ => false
    decreases |s| - p
  {
    hide Step;
    SameBehind(s, p, t, q, 0);
    if p < |s| {
      SameBehind(s, p, t, q, 1);
      StringMoves(s, p + 1, t, q + 1, Step(st, s[p]));
    }
  }

  lemma TextMoves(s: Str, p: nat, t: Str, q: nat, text: Str)
    requires Same(s, p, t, q) && At(s, p, text)
    ensures At(t, q, text)
  {
    forall k | 0 <= k < |text| ensures t[q..q + |text|][k] == text[k] {
      SameBehind(s, p, t, q, k);
      assert s[p..p + |text|][k] == s[p + k];
    }
  }

  lemma LiteralMoves(s: Str, p: nat, t: Str, q: nat, text: Str, kind: TokenKind)
    requires Same(s, p, t, q) && Same(t, q, s, p) && p < |s| && q < |t| && text != []
    ensures Moved(ScanLiteral(s, p, text, kind), p, ScanLiteral(t, q, text, kind), q)
  {
    hide At;
    if At(s, p, text) { TextMoves(s, p, t, q, text); }
    if At(t, q, text) { TextMoves(t, q, s, p, text); }
  }

  lemma SameSymmetric(s: Str, p: nat, t: Str, q: nat)
    requires Same(s, p, t, q)
    ensures Same(t, q, s, p)
  {
    forall i | q <= i ensures CharAt(t, i) == CharAt(s, i - q + p) { SameBehind(s, p, t, q, i - q); }
  }

  lemma TokenMoves(s: Str, p: nat, t: Str, q: nat)
    requires Same(s, p, t, q)
    ensures Moved(TokenAt(s, p), p, TokenAt(t, q), q)
  {
    hide ScanNumber, ScanLiteral, StringEnd, IsIntegerText, IsStringToken;
    SameSymmetric(s, p, t, q);
    SameBehind(s, p, t, q, 0);
    SameBehind(s, p, t, q, 1);
    var c := CharAt(s, p);
    if c == QUOTE {
      StringMoves(s, p + 1, t, q + 1, Inside);
    } else if c == LOWER_T {
      LiteralMoves(s, p, t, q, TRUE, LiteralTrue);
    } else if c == LOWER_F {
      LiteralMoves(s, p, t, q, FALSE, LiteralFalse);
    } else if c == LOWER_N {
      LiteralMoves(s, p, t, q, NULL, LiteralNull);
    } else if c == MINUS && IsDigit(CharAt(s, p + 1)) {
      ScanNumberMoves(s, p, t, q, 1, ValueInteger);
    } else if IsDigit(c) {
      ScanNumberMoves(s, p, t, q, 0, ValueUnsigned);
    }
  }

  lemma ScanMoves(s: Str, p: nat, t: Str, q: nat)
    requires Same(s, p, t, q)
    ensures Moved(Scan(s, p), p, Scan(t, q), q)
  {
    hide TokenAt, SkipBlanks;
    BlanksMove(s, p, t, q);
    var n := SkipBlanks(s, p) - p;
    SameBehind(s, p, t, q, n);
    TokenMoves(s, p + n, t, q + n);
  }

  lemma SliceMoves(s: Str, p: nat, t: Str, q: nat, a: nat, b: nat)
    requires Same(s, p, t, q) && p + a <= p + b <= |s|
    ensures q + b <= |t| && s[p + a..p + b] == t[q + a..q + b]
  {
    var (x, y) := (s[p + a..p + b], t[q + a..q + b]);
    forall k | 0 <= k < b - a ensures x[k] == y[k] { SameBehind(s, p, t, q, a + k); }
  }

  lemma {:induction false} TokensMove(s: Str, p: nat, t: Str, q: nat)
    requires Same(s, p, t, q)
    ensures Tokens(s, p) == Tokens(t, q)
    decreases |s| - p
  {
    hide Scan;
    ScanMoves(s, p, t, q);
    var x := Scan(s, p);
    if x.kind != EndOfInput && x.kind != ParseError {
      SliceMoves(s, p, t, q, x.start - p, x.end - p);
      SameBehind(s, p, t, q, x.end - p);
      TokensMove(s, x.end, t, Scan(t, q).end);
    }
  }

  // ---------- a token depends only on its text, and a number on the byte behind it ----------

  ghost predicate Agree(s: Str, t: Str, n: nat) {
    n <= |s| && n <= |t| && forall i :: 0 <= i < n ==> CharAt(s, i) == CharAt(t, i)
  }

  /** No byte that could prolong a number. */
  predicate Stops(c: byte) { !IsDigit(c) && c != DOT && !IsE(c) }

  lemma {:induction false} BlanksKept(s: Str, t: Str, p: nat)
    requires Agree(s, t, SkipBlanks(s, p) + 1)
    ensures SkipBlanks(t, p) == SkipBlanks(s, p)
    decreases |s| - p
  {
    if IsBlank(CharAt(s, p)) { BlanksKept(s, t, p + 1); }
  }

  lemma {:induction false} DigitsKept(s: Str, t: Str, i: nat)
    requires Agree(s, t, DigitsEnd(s, i)) && !IsDigit(CharAt(t, DigitsEnd(s, i)))
    ensures DigitsEnd(t, i) == DigitsEnd(s, i)
    decreases |s| - i
  {
    if IsDigit(CharAt(s, i)) { DigitsKept(s, t, i + 1); }
  }

  lemma ExponentKept(s: Str, t: Str, i: nat)
    requires ExponentEnd(s, i).Some?
    requires var e := ExponentEnd(s, i).value; Agree(s, t, e) && !IsDigit(CharAt(t, e))
    ensures ExponentEnd(t, i) == ExponentEnd(s, i)
  {
    var sign := CharAt(s, i + 1);
    var d := if sign == PLUS || sign == MINUS then i + 2 else i + 1;
    assert DigitsEnd(s, d) > d;
    DigitsKept(s, t, d);
  }

  lemma NumberKept(s: Str, t: Str, start: nat, e: nat, kind: TokenKind)
    requires start < e <= |s|
    requires var x := NumberToken(s, start, e, kind); Agree(s, t, x.end) && Stops(CharAt(t, x.end))
    ensures e <= |t| && NumberToken(t, start, e, kind) == NumberToken(s, start, e, kind)
  {
    hide DigitsEnd, ExponentEnd;
    var x := NumberToken(s, start, e, kind);
    if CharAt(s, e) == DOT && IsDigit(CharAt(s, e + 1)) {
      var f := DigitsEnd(s, e + 1);
      DigitsMoveOn(s, e + 1);
      if IsE(CharAt(s, f)) && ExponentEnd(s, f).Some? { ExponentKept(s, t, f); }
      DigitsKept(s, t, e + 1);
    } else if IsE(CharAt(s, e)) && ExponentEnd(s, e).Some? {
      ExponentKept(s, t, e);
    }
  }

  lemma DigitsMoveOn(s: Str, i: nat)
    requires IsDigit(CharAt(s, i))
    ensures DigitsEnd(s, i) == DigitsEnd(s, i + 1) > i
  {
  }

  lemma ScanNumberKept(s: Str, t: Str, start: nat, d: nat, kind: TokenKind)
    requires start <= d && IsDigit(CharAt(s, d))
    requires var x := ScanNumber(s, start, d, kind);
      x.kind != ParseError && d < x.end && Agree(s, t, x.end) && Stops(CharAt(t, x.end))
    ensures IsDigit(CharAt(t, d)) && ScanNumber(t, start, d, kind) == ScanNumber(s, start, d, kind)
  {
    hide DigitsEnd, NumberToken;
    if CharAt(s, d) == ZERO {
      NumberKept(s, t, start, d + 1, kind);
      NextIsNoDigit(s, t, start, d + 1, kind);
    } else {
      var e := DigitsEnd(s, d + 1);
      DigitsSlice(s, d, e);
      NumberKept(s, t, start, e, kind);
      NextIsNoDigit(s, t, start, e, kind);
      DigitsKept(s, t, d + 1);
    }
  }

  /** What stands behind the integer part is kept as well, or stops it. */
  lemma NextIsNoDigit(s: Str, t: Str, start: nat, e: nat, kind: TokenKind)
    requires start < e <= |s| && !IsDigit(CharAt(s, e))
    requires var x := NumberToken(s, start, e, kind); Agree(s, t, x.end) && Stops(CharAt(t, x.end))
    ensures e <= NumberToken(s, start, e, kind).end && !IsDigit(CharAt(t, e))
  {
    hide DigitsEnd, ExponentEnd;
  }

  lemma {:induction false} StringKept(s: Str, t: Str, p: nat, st: StringState)
    requires StringEnd(s, p, st).Some? && Agree(s, t, StringEnd(s, p, st).value)
    ensures StringEnd(t, p, st) == StringEnd(s, p, st)
    decreases |s| - p
  {
    hide Step;
    assert CharAt(s, p) == CharAt(t, p);
    if !(st == Inside && s[p] == QUOTE) { StringKept(s, t, p + 1, Step(st, s[p])); }
  }

  lemma LiteralKept(s: Str, t: Str, q: nat, text: Str)
    requires At(s, q, text) && Agree(s, t, q + |text|)
    ensures At(t, q, text)
  {
    forall k | 0 <= k < |text| ensures t[q..q + |text|][k] == text[k] {
      assert s[q..q + |text|][k] == CharAt(s, q + k) == CharAt(t, q + k);
    }
  }

  lemma TokenKept(s: Str, t: Str, q: nat)
    requires var x := TokenAt(s, q);
      && x.kind != EndOfInput && x.kind != ParseError && Agree(s, t, x.end)
      && (IsNumber(x.kind) ==> Stops(CharAt(t, x.end)))
    ensures TokenAt(t, q) == TokenAt(s, q)
  {
    hide ScanNumber, StringEnd, At, IsIntegerText, IsStringToken, Stops;
    var c := CharAt(s, q);
    assert c == CharAt(t, q);
    if c == QUOTE {
      StringKept(s, t, q + 1, Inside);
    } else if c == LOWER_T {
      LiteralKept(s, t, q, TRUE);
    } else if c == LOWER_F {
      LiteralKept(s, t, q, FALSE);
    } else if c == LOWER_N {
      LiteralKept(s, t, q, NULL);
    } else if c == MINUS {
      NumberBehind(s, q, q + 1, ValueInteger);
      ScanNumberKept(s, t, q, q + 1, ValueInteger);
    } else if IsDigit(c) {
      NumberBehind(s, q, q, ValueUnsigned);
      ScanNumberKept(s, t, q, q, ValueUnsigned);
    }
  }

  /** A number contains its first digit, and no digit follows it. */
  lemma NumberBehind(s: Str, start: nat, d: nat, kind: TokenKind)
    requires start <= d && IsDigit(CharAt(s, d))
    ensures var x := ScanNumber(s, start, d, kind); d < x.end && !IsDigit(CharAt(s, x.end))
  {
    if CharAt(s, d) != ZERO { DigitsSlice(s, d, DigitsEnd(s, d + 1)); }
  }

  // ---------- blanks between tokens ----------

  /** n is p, or the end of one of the tokens from p on. */
  predicate Ends(s: Str, p: nat, n: nat)
    decreases |s| - p
  {
    p == n || (var x := Scan(s, p); x.kind != EndOfInput && x.kind != ParseError && x.end <= n && Ends(s, x.end, n))
  }

  lemma TokenStops(s: Str, p: nat)
    requires var x := Scan(s, p); x.kind != EndOfInput && x.kind != ParseError
    requires !IsDigit(CharAt(s, p))
    ensures Stops(CharAt(s, p))
  {
    hide ScanNumber, ScanString, ScanLiteral;
    if !IsBlank(CharAt(s, p)) { assert Scan(s, p) == TokenAt(s, p); }
  }

  lemma NoDigitBehind(s: Str, q: nat)
    requires IsNumber(TokenAt(s, q).kind)
    ensures !IsDigit(CharAt(s, TokenAt(s, q).end))
  {
    hide ScanNumber, ScanString, ScanLiteral;
    var c := CharAt(s, q);
    if c == MINUS { NumberBehind(s, q, q + 1, ValueInteger); }
    if IsDigit(c) { NumberBehind(s, q, q, ValueUnsigned); }
  }

  function Spread(s: Str, n: nat, w: Str): Str
    requires n <= |s|
  {
    s[..n] + w + s[n..]
  }

  lemma SpreadAgrees(s: Str, n: nat, w: Str)
    requires n <= |s|
    ensures var t := Spread(s, n, w); Agree(s, t, n) && At(t, n, w) && Same(s, n, t, n + |w|)
    ensures w != [] ==> CharAt(Spread(s, n, w), n) == w[0]
  {
    AtMiddle(s[..n], w, s[n..]);
    var t := Spread(s, n, w);
    forall i | n <= i ensures CharAt(s, i) == CharAt(t, i - n + (n + |w|)) {
      if i < |s| { assert t[i + |w|] == s[n..][i - n]; }
    }
  }

  lemma {:induction false} SpreadTokens(s: Str, p: nat, n: nat, w: Str)
    requires n <= |s| && Ends(s, p, n) && Blanks(w) && w != []
    ensures Tokens(Spread(s, n, w), p) == Tokens(s, p)
    decreases |s| - p
  {
    hide Scan, Spread, Same;
    var t := Spread(s, n, w);
    SpreadAgrees(s, n, w);
    if p == n {
      BlanksAreNoTokens(t, n, w);
      TokensMove(s, n, t, n + |w|);
    } else {
      var x := Scan(s, p);
      ScanSpread(s, p, n, w);
      SpreadTokens(s, x.end, n, w);
      AgreeSlice(s, t, n, x.start, x.end);
    }
  }

  lemma AgreeSlice(s: Str, t: Str, n: nat, a: nat, b: nat)
    requires Agree(s, t, n) && a <= b <= n
    ensures s[a..b] == t[a..b]
  {
    forall i | a <= i < b ensures s[i] == t[i] { assert CharAt(s, i) == CharAt(t, i); }
  }

  lemma ScanSpread(s: Str, p: nat, n: nat, w: Str)
    requires n <= |s| && p != n && Ends(s, p, n) && Blanks(w) && w != []
    ensures Scan(Spread(s, n, w), p) == Scan(s, p)
  {
    hide TokenAt, SkipBlanks, Spread, Same, Tokens;
    var (x, t) := (Scan(s, p), Spread(s, n, w));
    SpreadAgrees(s, n, w);
    BlanksKept(s, t, p);
    if IsNumber(x.kind) {
      NoDigitBehind(s, x.start);
      if x.end < n {
        TokenStops(s, x.end);
        assert CharAt(s, x.end) == CharAt(t, x.end);
      }
    }
    TokenKept(s, t, x.start);
  }

  /** Blanks behind any token of a text, or in front of it, change neither its value nor its error. */
  lemma BlanksAreFree(s: Str, n: nat, w: Str, f: ToDouble)
    requires n <= |s| && Ends(s, 0, n) && Blanks(w)
    ensures Parse(s[..n] + w + s[n..], f) == Parse(s, f)
  {
    hide Ends, Parse, Tokens;
    if w == [] {
      assert s[..n] + w + s[n..] == s;
    } else {
      SpreadTokens(s, 0, n, w);
      LayoutIsIrrelevant(Spread(s, n, w), s, f);
    }
  }
}
