/** Reading back what escape_string wrote: exactly the well-formed UTF-8 strings survive. */
module JsonStringRoundTrip {
  import opened Bytes
  import opened Decimals
  import opened JsonStrings
  import opened Wrappers
  import Utf8

  predicate IsRaw(c: byte) { EscapedChar(c) == [c] }

  /** An escaped string and its closing quote, in front of anything. */
  function Closed(v: Str, x: Str): Str { Escape(v) + [QUOTE] + x }

  lemma RawFirst(c: byte)
    ensures IsRaw(c) <==> c > 0x1F && c != QUOTE && c != BACKSLASH
    ensures !IsRaw(c) ==> c < 0x80 && EscapedChar(c)[0] == BACKSLASH
  {
  }

  lemma ClosedStep(v: Str, x: Str)
    requires v != []
    ensures Closed(v, x) == EscapedChar(v[0]) + Closed(v[1..], x)
  {
    hide EscapedChar;
    Reassociate(EscapedChar(v[0]), Escape(v[1..]), [QUOTE]);
    Reassociate(EscapedChar(v[0]), Escape(v[1..]) + [QUOTE], x);
  }

  lemma ClosedEmpty(x: Str)
    ensures Closed([], x) == [QUOTE] + x
  {
  }

  lemma TailHead(u: Str, x: Str)
    ensures Utf8.Tail(Closed(u, x), 0) <==> Utf8.Tail(u, 0)
    ensures Utf8.Tail(u, 0) ==> Closed(u, x) == [u[0]] + Closed(u[1..], x)
  {
    hide Closed, EscapedChar;
    if u == [] {
      ClosedEmpty(x);
    } else {
      RawFirst(u[0]);
      ClosedStep(u, x);
    }
  }

  lemma TailShift(w: Str, rest: Str, c: byte, i: nat)
    requires w == [c] + rest
    ensures Utf8.Tail(w, i + 1) <==> Utf8.Tail(rest, i)
    ensures i < |rest| ==> w[i + 1] == rest[i]
  {
  }

  /** Continuation bytes stand where they stood; nothing the escaping adds is one. */
  lemma TailsSame(v: Str, x: Str)
    requires v != [] && IsRaw(v[0])
    ensures var w := Closed(v, x);
      && w != [] && w[0] == v[0]
      && (Utf8.Tail(w, 1) <==> Utf8.Tail(v, 1))
      && (Utf8.Tail(v, 1) ==> w[1] == v[1] && (Utf8.Tail(w, 2) <==> Utf8.Tail(v, 2)))
      && (Utf8.Tail(v, 1) && Utf8.Tail(v, 2) ==> w[2] == v[2] && (Utf8.Tail(w, 3) <==> Utf8.Tail(v, 3)))
      && (Utf8.Tail(v, 1) && Utf8.Tail(v, 2) && Utf8.Tail(v, 3) ==> w[3] == v[3])
  {
    hide Closed, EscapedChar;
    var w := Closed(v, x);
    ClosedStep(v, x);
    var w1 := Closed(v[1..], x);
    TailHead(v[1..], x);
    TailShift(w, w1, v[0], 0);
    TailShift(w, w1, v[0], 1);
    TailShift(w, w1, v[0], 2);
    if Utf8.Tail(v, 1) {
      var w2 := Closed(v[2..], x);
      assert v[1..][1..] == v[2..] && w1 == [v[1]] + w2;
      TailHead(v[2..], x);
      TailShift(w1, w2, v[1], 0);
      TailShift(w1, w2, v[1], 1);
      if Utf8.Tail(v, 2) {
        var w3 := Closed(v[3..], x);
        assert v[2..][1..] == v[3..] && w2 == [v[2]] + w3;
        TailHead(v[3..], x);
        TailShift(w2, w3, v[2], 0);
      }
    }
  }

  /** Escaping does not change what the first character is, well formed or not. */
  lemma DecodeSame(v: Str, x: Str)
    requires v != [] && IsRaw(v[0])
    ensures Closed(v, x) != [] && Utf8.DecodeFirst(Closed(v, x)) == Utf8.DecodeFirst(v)
  {
    hide Closed, EscapedChar;
    TailsSame(v, x);
  }

  /** A raw character is copied whole. */
  lemma RawCopied(v: Str, x: Str)
    requires v != [] && IsRaw(v[0]) && Utf8.DecodeFirst(v).CodePoint?
    ensures var n := Utf8.DecodeFirst(v).size;
      Closed(v, x) == v[..n] + Closed(v[n..], x) && Escape(v) == v[..n] + Escape(v[n..])
  {
    hide Closed, EscapedChar, Escape;
    var n := Utf8.DecodeFirst(v).size;
    assert v == v[..n] + v[n..];
    EscapeAppends(v[..n], v[n..]);
    AllRaw(v, n);
    RawIsItself(v[..n]);
    ClosedSplit(v, v[..n], v[n..], x);
  }

  lemma ClosedSplit(v: Str, a: Str, b: Str, x: Str)
    requires Escape(v) == a + Escape(b)
    ensures Closed(v, x) == a + Closed(b, x)
  {
    Reassociate(a, Escape(b), [QUOTE]);
    Reassociate(a, Escape(b) + [QUOTE], x);
  }

  lemma AllRaw(v: Str, n: nat)
    requires v != [] && IsRaw(v[0]) && Utf8.DecodeFirst(v).CodePoint? && n == Utf8.DecodeFirst(v).size
    ensures forall i :: 0 <= i < n ==> IsRaw(v[i])
  {
    forall i | 0 <= i < n ensures IsRaw(v[i]) {
      RawFirst(v[i]);
      assert i > 0 ==> Utf8.Tail(v, i);
    }
  }

  lemma {:induction false} RawIsItself(s: Str)
    requires forall i :: 0 <= i < |s| ==> IsRaw(s[i])
    ensures Escape(s) == s
  {
    hide EscapedChar;
    if s != [] {
      assert EscapedChar(s[0]) == [s[0]] by { assert IsRaw(s[0]); }
      RawIsItself(s[1..]);
    }
  }

  // ---------- escapes ----------

  lemma HexDigitsOf(n: nat)
    requires n < 16
    ensures IsHex(HexDigit(n)) && HexDigitValue(HexDigit(n)) == n
  {
  }

  lemma EscapeRead(c: byte, rest: Str)
    requires !IsRaw(c)
    ensures CharLength(EscapedChar(c) + rest) == Some(|EscapedChar(c)|)
    ensures ShortEscape(c) == 0 ==> HexAt(EscapedChar(c) + rest, 2) && HexNumber(EscapedChar(c) + rest, 2) == c as int
  {
    var e := EscapedChar(c);
    assert forall i :: 0 <= i < |e| ==> (e + rest)[i] == e[i];
    if ShortEscape(c) == 0 {
      HexDigitsOf(c as int / 16);
      HexDigitsOf(c as int % 16);
    }
  }

  lemma EscapeValue(c: byte, rest: Str)
    requires !IsRaw(c) && Content(EscapedChar(c) + rest)
    ensures FirstChar(EscapedChar(c) + rest) == Char(c as int, |EscapedChar(c)|)
  {
    hide Content, HexNumber;
    var e := EscapedChar(c);
    EscapeRead(c, rest);
    assert (e + rest)[0] == e[0] && (e + rest)[1] == e[1];
  }

  lemma AsciiFirst(v: Str)
    requires v != [] && !IsRaw(v[0])
    ensures Utf8.WellFormed(v) <==> Utf8.WellFormed(v[1..])
  {
    RawFirst(v[0]);
  }

  /** The first n bytes of the string become the first `char` of the token, k bytes long; n is 0 if they are none. */
  lemma FirstUnit(v: Str, x: Str) returns (n: nat, k: nat)
    requires v != []
    ensures Closed(v, x) != [] && Closed(v, x)[0] != QUOTE && n <= |v|
    ensures n == 0 ==> CharLength(Closed(v, x)) == None && !Utf8.WellFormed(v)
    ensures n > 0 ==> CharLength(Closed(v, x)) == Some(k) && k <= |Closed(v, x)|
    ensures n > 0 ==> Closed(v, x)[k..] == Closed(v[n..], x) && |Escape(v)| == k + |Escape(v[n..])|
    ensures n > 0 ==> (Utf8.WellFormed(v) <==> Utf8.WellFormed(v[n..]))
  {
    hide Closed, EscapedChar, Utf8.DecodeFirst;
    RawFirst(v[0]);
    ClosedStep(v, x);
    if !IsRaw(v[0]) {
      n, k := 1, |EscapedChar(v[0])|;
      EscapeRead(v[0], Closed(v[1..], x));
      AsciiFirst(v);
      assert (EscapedChar(v[0]) + Closed(v[1..], x))[k..] == Closed(v[1..], x);
    } else {
      DecodeSame(v, x);
      n, k := 0, 0;
      if Utf8.DecodeFirst(v).CodePoint? {
        n, k := Utf8.DecodeFirst(v).size, Utf8.DecodeFirst(v).size;
        RawCopied(v, x);
        assert (v[..n] + Closed(v[n..], x))[n..] == Closed(v[n..], x);
      }
    }
  }

  lemma ClosedQuote(s: Str, p: nat, x: Str)
    requires p <= |s| && s[p..] == Closed([], x)
    ensures StringEnd(s, p, Inside) == Some(p + 1) && Utf8.WellFormed([]) && Escape([]) == []
  {
    ClosedEmpty(x);
    assert s[p..][0] == s[p];
    QuoteEnds(s, p);
  }

  /** The lexer finds the end of an escaped string exactly when the string is well-formed UTF-8. */
  lemma {:induction false} EscapedRun(s: Str, p: nat, v: Str, x: Str)
    requires p <= |s| && s[p..] == Closed(v, x)
    ensures StringEnd(s, p, Inside) == if Utf8.WellFormed(v) then Some(p + |Escape(v)| + 1) else None
    decreases |v|
  {
    hide Closed, CharLength, StringEnd, Utf8.WellFormed, Escape;
    if v == [] {
      ClosedQuote(s, p, x);
    } else {
      var n, k := FirstUnit(v, x);
      assert s[p..][0] == s[p];
      RunsOverChar(s, p);
      if n > 0 {
        DropDrop(s, p, k);
        EscapedRun(s, p + k, v[n..], x);
      }
    }
  }

  /** get_string undoes escape_string. */
  lemma {:induction false} EscapedValue(v: Str)
    requires Utf8.WellFormed(v)
    ensures Content(Escape(v)) && StringValue(Escape(v)) == Ok(v)
    decreases |v|
  {
    hide Content, StringValue, Escape, EscapedChar;
    if v == [] {
      EscapeNothing();
      EmptyValue(Escape(v));
    } else if !IsRaw(v[0]) {
      AsciiFirst(v);
      EscapedValue(v[1..]);
      EscapeThenRest(v);
    } else {
      EscapedValue(v[Utf8.DecodeFirst(v).size..]);
      RawThenRest(v, Utf8.DecodeFirst(v).size);
    }
  }

  lemma EscapeThenRest(v: Str)
    requires v != [] && !IsRaw(v[0]) && Content(Escape(v[1..])) && StringValue(Escape(v[1..])) == Ok(v[1..])
    ensures Content(Escape(v)) && StringValue(Escape(v)) == Ok(v)
  {
    hide FirstChar, StringValue, CharLength, EscapedChar, Utf8.Encode, Content;
    EscapeRead(v[0], Escape(v[1..]));
    UnitThenContent(EscapedChar(v[0]), Escape(v[1..]));
    EscapeValue(v[0], Escape(v[1..]));
    StringValueStep(Escape(v));
    AsciiEncoded(v[0]);
    assert v == [v[0]] + v[1..];
  }

  lemma RawThenRest(v: Str, n: nat)
    requires v != [] && IsRaw(v[0]) && Utf8.DecodeFirst(v).CodePoint? && n == Utf8.DecodeFirst(v).size
    requires Content(Escape(v[n..])) && StringValue(Escape(v[n..])) == Ok(v[n..])
    ensures Content(Escape(v)) && StringValue(Escape(v)) == Ok(v)
  {
    hide FirstChar, StringValue, CharLength, EscapedChar, Utf8.Encode, Content, Escape, Utf8.DecodeFirst;
    RawCopied(v, []);
    RawUnit(v, n);
    assert v == v[..n] + v[n..];
    assert Escape(v) != [];
    StringValueStep(Escape(v));
  }

  lemma AsciiEncoded(c: byte)
    requires !IsRaw(c)
    ensures Utf8.Encode(c as int) == [c]
  {
    RawFirst(c);
  }

  lemma UnitThenContent(a: Str, b: Str)
    requires a != [] && Content(b) && CharLength(a + b) == Some(|a|)
    ensures Content(a + b) && (a + b)[|a|..] == b
  {
  }

  lemma RawUnit(v: Str, n: nat)
    requires v != [] && IsRaw(v[0]) && Utf8.DecodeFirst(v).CodePoint? && n == Utf8.DecodeFirst(v).size
    requires Content(Escape(v[n..])) && Escape(v) == v[..n] + Escape(v[n..])
    ensures Content(Escape(v)) && FirstChar(Escape(v)) == Char(Utf8.DecodeFirst(v).cp, n)
    ensures Escape(v)[n..] == Escape(v[n..]) && Utf8.DecodeFirst(v).cp < 0x20_0000
    ensures Utf8.Encode(Utf8.DecodeFirst(v).cp) == v[..n]
  {
    hide Content, Utf8.DecodeFirst, Utf8.Encode, EscapedChar, Escape;
    RawFirst(v[0]);
    var rest := Escape(v[n..]);
    assert v == v[..n] + v[n..] && v[..n][0] == v[0];
    Utf8.EncodeInvertsDecode(v);
    Utf8.DecodeInvertsEncode(Utf8.DecodeFirst(v).cp, rest);
    assert CharLength(v[..n] + rest) == Some(n);
    UnitThenContent(v[..n], rest);
    RawChar(Escape(v));
  }
}
