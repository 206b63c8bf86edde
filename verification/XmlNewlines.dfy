/** Line ends of any convention are read as a single LF, in texts, attributes and all other markup. */
module XmlNewlines {
  import opened Bytes
  import opened XmlDocuments
  import opened XmlRoundTrip
  import opened XmlText

  predicate IsPair(a: byte, b: byte) { (a == 0x0D && b == 0x0A) || (a == 0x0A && b == 0x0D) }

  /** CR LF, LF CR and CR become LF. */
  function Normalized(s: Str): (r: Str)
    decreases |s|
  {
    if s == [] then []
    else if |s| >= 2 && IsPair(s[0], s[1]) then [0x0A] + Normalized(s[2..])
    else [if s[0] == 0x0D then 0x0A else s[0]] + Normalized(s[1..])
  }

  /** A text with another line end in place of LF. */
  function WithLineEnds(s: Str, end: Str): Str {
    if s == [] then [] else (if s[0] == 0x0A then end else [s[0]]) + WithLineEnds(s[1..], end)
  }

  lemma {:induction false} NoCrLeft(s: Str)
    ensures 0x0D !in Normalized(s) && (0 !in s ==> 0 !in Normalized(s))
    decreases |s|
  {
    if s != [] {
      NoCrLeft(s[1..]);
      if |s| >= 2 { NoCrLeft(s[2..]); }
    }
  }

  /** The conventions of three families of systems give the same text. */
  lemma {:induction false} LineEndsAreAlike(s: Str)
    requires 0x0D !in s
    ensures Normalized(s) == s && Normalized(WithLineEnds(s, [0x0D, 0x0A])) == s && Normalized(WithLineEnds(s, [0x0D])) == s
    decreases |s|
  {
    if s != [] {
      LineEndsAreAlike(s[1..]);
      assert s == [s[0]] + s[1..];
      var (dos, mac) := (WithLineEnds(s[1..], [0x0D, 0x0A]), WithLineEnds(s[1..], [0x0D]));
      assert ([0x0D, 0x0A] + dos)[2..] == dos && ([s[0]] + dos)[1..] == dos && ([s[0]] + mac)[1..] == mac && ([0x0D] + mac)[1..] == mac;
      NoLfFirst(s[1..]);
    }
  }

  lemma NoLfFirst(s: Str)
    requires 0x0D !in s
    ensures WithLineEnds(s, [0x0D]) != [] ==> WithLineEnds(s, [0x0D])[0] != 0x0A
    ensures s != [] ==> WithLineEnds(s, [0x0D, 0x0A]) != []
    ensures s != [] && s[0] != 0x0A ==> WithLineEnds(s, [0x0D, 0x0A])[0] == s[0]
  {
  }

  // ---------- what is read ----------

  /** Where no reference is decoded, reading in place is normalization. */
  lemma {:induction false} InPlaceNormalizes(t: Str, p: nat, q: nat, f: Flags)
    requires q <= p <= |t| && f.newlines && (f.entities ==> AMP !in t[p..])
    ensures InPlace(t, p, q, f) == Normalized(t[p..])
    decreases |t| - p
  {
    hide FirstPiece, Normalized;
    if p == |t| {
      NothingToNormalize();
    } else {
      var (u, piece) := (t[p..], FirstPiece(t[p..], f));
      PieceNormalizes(u, f);
      var out := piece.out;
      assert t[p + piece.n..] == u[piece.n..];
      InPlaceNormalizes(t, p + piece.n, q + |out|, f);
    }
  }

  lemma NothingToNormalize()
    ensures Normalized([]) == []
  {
  }

  lemma PieceNormalizes(u: Str, f: Flags)
    requires u != [] && f.newlines && (f.entities ==> AMP !in u)
    ensures var piece := FirstPiece(u, f); piece.Piece? && Normalized(u) == piece.out + Normalized(u[piece.n..])
  {
    assert f.entities ==> u[0] != AMP;
  }

  lemma ValueNormalizes(v: Str, f: Flags)
    requires 0 !in v && f.newlines && (f.entities ==> AMP !in v)
    ensures Value(v, f) == Normalized(v)
  {
    hide InPlace, Normalized;
    assert v[0..] == v;
    InPlaceNormalizes(v, 0, 0, f);
    NoCrLeft(v);
    CStringWhole(Normalized(v));
  }

  lemma MarkupNormalizes(s: Str, p: nat, head: Str, v: Str, tail: Str, error: XmlError)
    requires head != [] && At(s, p, head + v + tail) && 0 !in v && tail != [] && tail[0] != 0
    requires tail[|tail| - 1] !in tail[..|tail| - 1] && !Occurs(v, tail)
    ensures ParseMarkup(s, p, |head|, tail, error) == Good(Normalized(v), p + |head + v + tail|)
  {
    hide Value, FindTag, Normalized, Occurs, At;
    var from := p + |head|;
    Reassociate(head, v, tail);
    AtSplit(s, p, head, v + tail);
    AtSplit(s, from, v, tail);
    TailIsFirst(v, tail);
    FindTagFrom(s, from, v, tail, 0);
    SliceAt(s, from, v);
    ValueNormalizes(v, RAW);
  }

  lemma SliceAt(s: Str, p: nat, v: Str)
    requires At(s, p, v)
    ensures p + |v| <= |s| && s[p..p + |v|] == v
  {
  }

  // ---------- references stay, and line ends are normalized ----------

  /** The last byte of an end mark stands nowhere else in it. */
  ghost predicate EndsOnce(tail: Str) {
    tail != [] && tail[0] != 0 && tail[|tail| - 1] !in tail[..|tail| - 1]
  }

  lemma TailsEndOnce()
    ensures EndsOnce(COMMENT_TAIL) && EndsOnce(CDATA_TAIL) && EndsOnce(DECLARATION_TAIL) && EndsOnce(UNKNOWN_TAIL)
  {
  }

  /** The parsed content, and where it ends. */
  lemma Content(s: Str, p: nat, head: Str, v: Str, tail: Str, error: XmlError)
    requires EndsOnce(tail) && head != [] && At(s, p, head + v + tail) && 0 !in v && !Occurs(v, tail)
    ensures p + |head| <= |s|
    ensures ParseMarkup(s, p, |head|, tail, error) == Good(Normalized(v), p + |head| + |v| + |tail|)
  {
    hide ParseMarkup, Normalized, Occurs;
    MarkupNormalizes(s, p, head, v, tail, error);
  }

  lemma CommentNormalizes(s: Str, p: nat, v: Str)
    requires At(s, p, COMMENT_HEAD + v + COMMENT_TAIL) && 0 !in v && !Occurs(v, COMMENT_TAIL)
    ensures ReadComment(s, p) == Item(Comment(Normalized(v)), p + |v| + 7)
  {
    hide ParseMarkup, Normalized, Occurs, At, EndsOnce;
    TailsEndOnce();
    Content(s, p, COMMENT_HEAD, v, COMMENT_TAIL, ParsingComment);
  }

  lemma CDataNormalizes(s: Str, p: nat, v: Str)
    requires At(s, p, CDATA_HEAD + v + CDATA_TAIL) && 0 !in v && !Occurs(v, CDATA_TAIL)
    ensures ReadCData(s, p) == Item(Text(Normalized(v), true), p + |v| + 12)
  {
    hide ParseMarkup, Normalized, Occurs, At, EndsOnce;
    TailsEndOnce();
    Content(s, p, CDATA_HEAD, v, CDATA_TAIL, ParsingCData);
  }

  lemma DeclarationNormalizes(s: Str, p: nat, v: Str)
    requires At(s, p, DECLARATION_HEAD + v + DECLARATION_TAIL) && 0 !in v && !Occurs(v, DECLARATION_TAIL)
    ensures ReadDeclaration(s, p, true) == Item(Declaration(Normalized(v)), p + |v| + 4)
  {
    hide ParseMarkup, Normalized, Occurs, At, EndsOnce;
    TailsEndOnce();
    Content(s, p, DECLARATION_HEAD, v, DECLARATION_TAIL, ParsingDeclaration);
  }

  lemma UnknownNormalizes(s: Str, p: nat, v: Str)
    requires At(s, p, UNKNOWN_HEAD + v + UNKNOWN_TAIL) && 0 !in v && !Occurs(v, UNKNOWN_TAIL)
    ensures ReadUnknown(s, p) == Item(Unknown(Normalized(v)), p + |v| + 3)
  {
    hide ParseMarkup, Normalized, Occurs, At, EndsOnce;
    TailsEndOnce();
    Content(s, p, UNKNOWN_HEAD, v, UNKNOWN_TAIL, ParsingUnknown);
  }
}
