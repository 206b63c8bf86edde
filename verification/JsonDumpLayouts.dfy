/** What the layout of dump changes: line breaks as deep as the brackets around them, and the gap behind a colon. */
module JsonDumpLayouts {
  import opened Bytes
  import opened Decimals
  import opened Doubles
  import opened JsonDump
  import opened JsonLexer
  import opened JsonStrings
  import opened JsonTextRoundTrip
  import opened Jsons

  /** The text of a value before a layout is chosen. */
  datatype Piece = Word(text: Str) | Break(depth: nat) | Gap

  function PieceText(p: Piece, y: Layout): Str {
    match p
    case Word(text) => text
    case Break(depth) => if y.pretty then Ascii("\n") + seq(y.step * depth, _ => 0x20) else []
    case Gap => if y.pretty then Ascii(" ") else []
  }

  function Rendered(ps: seq<Piece>, y: Layout): Str {
    if ps == [] then [] else PieceText(ps[0], y) + Rendered(ps[1..], y)
  }

  function Quoted(s: Str): Piece { Word(Ascii("\"") + Escape(s) + Ascii("\"")) }

  /** Every item stands on a line of its own, one level deeper than its brackets; empty brackets stay together. */
  function Pieces(j: Json, depth: nat, f: uint64 -> Str): seq<Piece>
    decreases j, 1
  {
    match j
    case Null => [Word(Ascii("null"))]
    case Boolean(b) => [Word(if b then Ascii("true") else Ascii("false"))]
    case Integer(i) => [Word(IntText(i))]
    case Unsigned(u) => [Word(IntText(u))]
    case Float(bits) => [Word(f(bits))]
    case Text(t) => [Quoted(t)]
    case Array(a) =>
      if a == [] then [Word(Ascii("[]"))]
      else [Word(Ascii("["))] + (ElemPieces(j, 0, depth + 1, f) + [Break(depth), Word(Ascii("]"))])
    case Object(m) =>
      if m == map[] then [Word(Ascii("{}"))]
      else [Word(Ascii("{"))] + (MemberPieces(j, SortedKeys(m.Keys), 0, depth + 1, f) + [Break(depth), Word(Ascii("}"))])
  }

  function Comma(i: nat): seq<Piece> { if i > 0 then [Word(Ascii(","))] else [] }

  function ElemPieces(j: Json, i: nat, depth: nat, f: uint64 -> Str): seq<Piece>
    requires j.Array? && i <= |j.elems|
    decreases j, 0, |j.elems| - i
  {
    if i == |j.elems| then [] else
      Comma(i) + ([Break(depth)] + (Pieces(j.elems[i], depth, f) + ElemPieces(j, i + 1, depth, f)))
  }

  function MemberPieces(j: Json, keys: seq<Str>, i: nat, depth: nat, f: uint64 -> Str): seq<Piece>
    requires j.Object? && i <= |keys| && forall k :: k in keys ==> k in j.members
    decreases j, 0, |keys| - i
  {
    if i == |keys| then [] else
      Comma(i) + ([Break(depth)] + ([Quoted(keys[i]), Word(Ascii(":")), Gap] + (Pieces(j.members[keys[i]], depth, f)
        + MemberPieces(j, keys, i + 1, depth, f))))
  }

  // ---------- rendering ----------

  lemma {:induction false} RenderedAppend(a: seq<Piece>, b: seq<Piece>, y: Layout)
    ensures Rendered(a + b, y) == Rendered(a, y) + Rendered(b, y)
  {
    hide PieceText;
    if a == [] {
      assert a + b == b && [] + Rendered(b, y) == Rendered(b, y);
    } else {
      assert (a + b)[0] == a[0] && (a + b)[1..] == a[1..] + b;
      RenderedAppend(a[1..], b, y);
      Reassociate(PieceText(a[0], y), Rendered(a[1..], y), Rendered(b, y));
    }
  }

  lemma RenderedOne(p: Piece, y: Layout)
    ensures Rendered([p], y) == PieceText(p, y)
  {
    hide PieceText;
    assert [p][1..] == [] && Rendered([], y) == [] && PieceText(p, y) + [] == PieceText(p, y);
  }

  function Indent(y: Layout, depth: nat): nat { if y.pretty then y.step * depth else 0 }

  lemma DeeperIndent(y: Layout, depth: nat)
    ensures Deeper(y, Indent(y, depth)) == Indent(y, depth + 1)
  {
    assert y.step * (depth + 1) == y.step * depth + y.step;
  }

  lemma RenderedBreak(y: Layout, depth: nat)
    ensures Rendered([Break(depth)], y) == NewLine(y) + Spaces(Indent(y, depth))
  {
    RenderedOne(Break(depth), y);
    assert Ascii("\n") == [LF] && Spaces(0) == [];
    if y.pretty { assert Spaces(y.step * depth) == seq(y.step * depth, _ => 0x20); }
  }

  lemma RenderedWord(text: Str, y: Layout)
    ensures Rendered([Word(text)], y) == text
  {
    RenderedOne(Word(text), y);
  }

  /** [x] and what stands between it and the closing bracket. */
  lemma RenderedBrackets(open: Str, body: seq<Piece>, close: Str, depth: nat, y: Layout)
    ensures Rendered([Word(open)] + (body + [Break(depth), Word(close)]), y)
      == open + Rendered(body, y) + (NewLine(y) + Spaces(Indent(y, depth)) + close)
  {
    hide Rendered, Spaces;
    RenderedAppend([Word(open)], body + [Break(depth), Word(close)], y);
    RenderedAppend(body, [Break(depth), Word(close)], y);
    assert [Break(depth), Word(close)] == [Break(depth)] + [Word(close)];
    RenderedAppend([Break(depth)], [Word(close)], y);
    RenderedBreak(y, depth);
    RenderedWord(open, y);
    RenderedWord(close, y);
    Reassociate(open, Rendered(body, y), NewLine(y) + Spaces(Indent(y, depth)) + close);
  }

  lemma RenderedComma(i: nat, y: Layout)
    ensures Rendered(Comma(i), y) == if i > 0 then [COMMA] else []
  {
    assert Ascii(",") == [COMMA];
    RenderedWord(Ascii(","), y);
  }

  /** A comma, if it is not the first item, a line break, the item and the rest. */
  lemma RenderedItem(i: nat, depth: nat, item: seq<Piece>, rest: seq<Piece>, y: Layout)
    ensures Rendered(Comma(i) + ([Break(depth)] + (item + rest)), y)
      == (if i > 0 then [COMMA] else []) + (ItemLead(y, Indent(y, depth)) + (Rendered(item, y) + Rendered(rest, y)))
  {
    hide Rendered, Spaces, Comma;
    RenderedAppend(Comma(i), [Break(depth)] + (item + rest), y);
    RenderedAppend([Break(depth)], item + rest, y);
    RenderedAppend(item, rest, y);
    RenderedBreak(y, depth);
    RenderedComma(i, y);
  }

  lemma RenderedKey(key: Str, y: Layout)
    ensures Rendered([Quoted(key), Word(Ascii(":")), Gap], y) == KeyText(key, y)
  {
    hide Escape, Rendered;
    var (q, c, g) := (Quoted(key), Word(Ascii(":")), Gap);
    assert [q, c, g] == [q] + ([c] + [g]);
    RenderedAppend([q], [c] + [g], y);
    RenderedAppend([c], [g], y);
    RenderedOne(q, y);
    RenderedOne(c, y);
    RenderedOne(g, y);
    assert Ascii(":") == [COLON] && Ascii("\"") == [QUOTE] && Ascii(" ") == [SPACE];
    Reassociate([QUOTE] + Escape(key), [QUOTE], [COLON] + PieceText(g, y));
    Reassociate([QUOTE], [COLON], PieceText(g, y));
  }

  // ---------- dump ----------

  lemma {:induction false} ElemsRendered(j: Json, i: nat, y: Layout, depth: nat)
    requires j.Array? && i <= |j.elems|
    ensures var (text, pieces) := (DumpElems(j, i, y, Indent(y, depth)), Rendered(ElemPieces(j, i, depth, y.fromDouble), y));
      && (i > 0 ==> text == pieces) && (i == 0 < |j.elems| ==> NewLine(y) + text == pieces)
    decreases j, 0, |j.elems| - i
  {
    hide Dump, Spaces, Pieces, Rendered, DumpElems;
    ElemsText(j, i, y, Indent(y, depth));
    if i < |j.elems| {
      ElemsRendered(j, i + 1, y, depth);
      DumpIsRendered(j.elems[i], y, depth);
      var (item, rest) := (Pieces(j.elems[i], depth, y.fromDouble), ElemPieces(j, i + 1, depth, y.fromDouble));
      RenderedItem(i, depth, item, rest, y);
      FirstLead(y, Indent(y, depth), Rendered(item, y) + Rendered(rest, y));
    } else {
      NothingRendered(y);
    }
  }

  lemma NothingRendered(y: Layout)
    ensures Rendered([], y) == []
  {
  }

  lemma FirstLead(y: Layout, indent: nat, rest: Str)
    ensures NewLine(y) + (Spaces(indent) + rest) == [] + (ItemLead(y, indent) + rest)
  {
    hide Spaces;
    Reassociate(NewLine(y), Spaces(indent), rest);
    assert [] + (ItemLead(y, indent) + rest) == ItemLead(y, indent) + rest;
  }

  lemma {:induction false} MembersRendered(j: Json, keys: seq<Str>, i: nat, y: Layout, depth: nat)
    requires j.Object? && i <= |keys| && forall k :: k in keys ==> k in j.members
    ensures var (text, pieces) := (DumpMembers(j, keys, i, y, Indent(y, depth)),
                                   Rendered(MemberPieces(j, keys, i, depth, y.fromDouble), y));
      && (i > 0 ==> text == pieces) && (i == 0 < |keys| ==> NewLine(y) + text == pieces)
    decreases j, 0, |keys| - i
  {
    hide Dump, Spaces, Pieces, Rendered, DumpMembers, KeyText;
    MembersText(j, keys, i, y, Indent(y, depth));
    if i < |keys| {
      MembersRendered(j, keys, i + 1, y, depth);
      var value := j.members[keys[i]];
      DumpIsRendered(value, y, depth);
      var key := [Quoted(keys[i]), Word(Ascii(":")), Gap];
      var (item, rest) := (Pieces(value, depth, y.fromDouble), MemberPieces(j, keys, i + 1, depth, y.fromDouble));
      RenderedMember(key, item, rest, keys[i], y);
      RenderedItem(i, depth, key, item + rest, y);
      FirstLead(y, Indent(y, depth), Rendered(key, y) + Rendered(item + rest, y));
    } else {
      NothingRendered(y);
    }
  }

  lemma RenderedMember(key: seq<Piece>, item: seq<Piece>, rest: seq<Piece>, k: Str, y: Layout)
    requires key == [Quoted(k), Word(Ascii(":")), Gap]
    ensures Rendered(key, y) + Rendered(item + rest, y) == KeyText(k, y) + Rendered(item, y) + Rendered(rest, y)
  {
    hide Rendered, KeyText;
    RenderedKey(k, y);
    RenderedAppend(item, rest, y);
    Reassociate(KeyText(k, y), Rendered(item, y), Rendered(rest, y));
  }

  /** For every value and layout, dump writes the rendered pieces. */
  lemma {:induction false} DumpIsRendered(j: Json, y: Layout, depth: nat)
    ensures Dump(j, y, Indent(y, depth)) == Rendered(Pieces(j, depth, y.fromDouble), y)
    decreases j, 1
  {
    hide DumpElems, DumpMembers, ElemPieces, MemberPieces, Spaces, Escape, Rendered, Decimal, SortedKeys;
    WordsSpelled();
    match j
    case Array(a) => if a != [] { ArrayRendered(j, y, depth); } else { RenderedWord(Ascii("[]"), y); }
    case Object(m) => if m != map[] { ObjectRendered(j, y, depth); } else { RenderedWord(Ascii("{}"), y); }
    case _ => RenderedWord(Pieces(j, depth, y.fromDouble)[0].text, y);
  }

  lemma WordsSpelled()
    ensures NULL == Ascii("null") && TRUE == Ascii("true") && FALSE == Ascii("false") && [QUOTE] == Ascii("\"")
    ensures [LEFT_BRACKET, RIGHT_BRACKET] == Ascii("[]") && [LEFT_BRACE, RIGHT_BRACE] == Ascii("{}")
    ensures [LEFT_BRACKET] == Ascii("[") && [RIGHT_BRACKET] == Ascii("]")
    ensures [LEFT_BRACE] == Ascii("{") && [RIGHT_BRACE] == Ascii("}")
  {
  }

  lemma ArrayRendered(j: Json, y: Layout, depth: nat)
    requires j.Array? && j.elems != []
    ensures Dump(j, y, Indent(y, depth)) == Rendered(Pieces(j, depth, y.fromDouble), y)
    decreases j, 0, |j.elems| + 1
  {
    hide DumpElems, ElemPieces, Spaces, Rendered, Dump;
    var indent := Indent(y, depth);
    WordsSpelled();
    DumpOfArray(j, y, indent);
    DeeperIndent(y, depth);
    ElemsRendered(j, 0, y, depth + 1);
    RenderedBrackets(Ascii("["), ElemPieces(j, 0, depth + 1, y.fromDouble), Ascii("]"), depth, y);
    Reassociate([LEFT_BRACKET], NewLine(y), DumpElems(j, 0, y, Deeper(y, indent)));
  }

  lemma ObjectRendered(j: Json, y: Layout, depth: nat)
    requires j.Object? && j.members != map[]
    ensures Dump(j, y, Indent(y, depth)) == Rendered(Pieces(j, depth, y.fromDouble), y)
    decreases j, 0, |SortedKeys(j.members.Keys)| + 1
  {
    hide DumpMembers, MemberPieces, Spaces, Rendered, Dump, SortedKeys;
    var (indent, keys) := (Indent(y, depth), SortedKeys(j.members.Keys));
    WordsSpelled();
    ObjectKeys(j);
    DumpOfObject(j, keys, y, indent);
    DeeperIndent(y, depth);
    MembersRendered(j, keys, 0, y, depth + 1);
    RenderedBrackets(Ascii("{"), MemberPieces(j, keys, 0, depth + 1, y.fromDouble), Ascii("}"), depth, y);
    Reassociate([LEFT_BRACE], NewLine(y), DumpMembers(j, keys, 0, y, Deeper(y, indent)));
  }
}
