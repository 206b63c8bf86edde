/** Parsing what the compact printer wrote. */
module XmlRoundTrip {
  import opened Bytes
  import opened Decimals
  import opened XmlText
  import opened XmlDocuments

  // ---------- documents that can be printed ----------

  predicate ValidName(name: Str) {
    name != [] && IsNameStartChar(name[0]) && forall i :: 0 <= i < |name| ==> IsNameChar(name[i])
  }

  /** No CR, which would be normalised, and no NUL, which no string of the document can hold. */
  predicate Plain(v: Str) {
    CR !in v && 0 !in v
  }

  predicate Occurs(v: Str, tag: Str) {
    exists i :: 0 <= i <= |v| && At(v, i, tag)
  }

  predicate Blank(v: Str) {
    forall i :: 0 <= i < |v| ==> IsSpace(v[i])
  }

  predicate AttributesFit(attributes: seq<Attribute>) {
    && (forall i :: 0 <= i < |attributes| ==> ValidName(attributes[i].name) && Plain(attributes[i].value))
    && forall i, j :: 0 <= i < j < |attributes| ==> attributes[i].name != attributes[j].name
  }

  predicate PlainText(n: Node) { n.Text? && !n.cdata }

  predicate NoAdjacentTexts(nodes: seq<Node>) {
    forall i :: 0 <= i < |nodes| - 1 ==> !(PlainText(nodes[i]) && PlainText(nodes[i + 1]))
  }

  predicate Printable(n: Node) {
    match n
    case Element(name, attributes, children) =>
      && ValidName(name) && AttributesFit(attributes) && NoAdjacentTexts(children)
      && forall i :: 0 <= i < |children| ==> !children[i].Declaration? && Printable(children[i])
    case Text(v, cdata) => Plain(v) && if cdata then !Occurs(v, CDATA_TAIL) else !Blank(v)
    case Comment(v) => Plain(v) && !Occurs(v, COMMENT_TAIL)
    case Declaration(v) => Plain(v) && !Occurs(v, DECLARATION_TAIL)
    case Unknown(v) =>
      && Plain(v) && GT !in v
      && !At(UNKNOWN_HEAD + v, 0, COMMENT_HEAD) && !At(UNKNOWN_HEAD + v, 0, CDATA_HEAD)
  }

  /** The document level: no plain text, and declarations only before everything else. */
  predicate PrintableDocument(d: Document) {
    && d.nodes != []
    && (forall i :: 0 <= i < |d.nodes| ==> Printable(d.nodes[i]) && !PlainText(d.nodes[i]))
    && forall i, j :: 0 <= i < j < |d.nodes| && d.nodes[j].Declaration? ==> d.nodes[i].Declaration?
  }

  // ---------- the lexical level ----------

  lemma {:induction false} NameEndAt(s: Str, p: nat, name: Str)
    requires At(s, p, name) && !IsNameChar(CharAt(s, p + |name|))
    requires forall i :: 0 <= i < |name| ==> IsNameChar(name[i])
    ensures NameEnd(s, p) == p + |name|
    decreases |name|
  {
    hide IsNameChar;
    if name != [] {
      assert name == [name[0]] + name[1..];
      AtFirst(s, p, name[0], name[1..]);
      NameEndAt(s, p + 1, name[1..]);
    }
  }

  lemma {:induction false} FindTagFrom(s: Str, p: nat, v: Str, tag: Str, i: nat)
    requires At(s, p, v + tag) && 0 !in v && tag != [] && tag[0] != 0 && i <= |v|
    requires forall k :: 0 <= k < |v| ==> !At(v + tag, k, tag)
    ensures FindTag(s, p + i, tag) == p + |v|
    decreases |v| - i
  {
    var w := v + tag;
    assert s[p..p + |w|][i] == w[i];
    AtInside(s, p, w, i, tag);
    if i < |v| {
      FindTagFrom(s, p, v, tag, i + 1);
    } else {
      assert w[i..i + |tag|] == tag;
    }
  }

  lemma AtInside(s: Str, p: nat, w: Str, i: nat, t: Str)
    requires At(s, p, w) && i + |t| <= |w|
    ensures At(s, p + i, t) <==> At(w, i, t)
  {
    SliceSlice(s, p, p + |w|, i, i + |t|);
  }

  /** A tail whose last byte occurs in it only once cannot start inside the value and end outside. */
  lemma TailIsFirst(v: Str, tag: Str)
    requires tag != [] && tag[|tag| - 1] !in tag[..|tag| - 1] && !Occurs(v, tag)
    ensures forall k :: 0 <= k < |v| ==> !At(v + tag, k, tag)
  {
    forall k | 0 <= k < |v| ensures !At(v + tag, k, tag) {
      if At(v + tag, k, tag) { MatchIsInside(v, tag, k); }
    }
  }

  lemma MatchIsInside(v: Str, tag: Str, k: nat)
    requires tag != [] && tag[|tag| - 1] !in tag[..|tag| - 1] && k < |v| && At(v + tag, k, tag)
    ensures Occurs(v, tag)
  {
    var last := k + |tag| - 1;
    SliceSlice(v + tag, k, k + |tag|, |tag| - 1, |tag|);
    assert (v + tag)[last] == tag[|tag| - 1];
    LastIsInside(v, tag, last);
    assert v[k..k + |tag|] == (v + tag)[k..k + |tag|];
    assert At(v, k, tag);
  }

  lemma LastIsInside(v: Str, tag: Str, last: nat)
    requires tag != [] && tag[|tag| - 1] !in tag[..|tag| - 1]
    requires last < |v| + |tag| - 1 && (v + tag)[last] == tag[|tag| - 1]
    ensures last < |v|
  {
    FrontOf(tag);
  }

  lemma FrontOf(tag: Str)
    requires tag != []
    ensures forall i :: 0 <= i < |tag| - 1 ==> tag[i] in tag[..|tag| - 1]
  {
    assert forall i :: 0 <= i < |tag| - 1 ==> tag[..|tag| - 1][i] == tag[i];
  }

  lemma MarkupParses(s: Str, p: nat, head: Str, v: Str, tail: Str, error: XmlError)
    requires At(s, p, head + v + tail) && head != []
    requires Plain(v) && tail != [] && tail[0] != 0
    requires tail[|tail| - 1] !in tail[..|tail| - 1] && !Occurs(v, tail)
    ensures ParseMarkup(s, p, |head|, tail, error) == Good(v, p + |head + v + tail|)
  {
    hide FindTag, InPlace;
    Reassociate(head, v, tail);
    AtSplit(s, p, head, v + tail);
    TailIsFirst(v, tail);
    FindTagFrom(s, p + |head|, v, tail, 0);
    AtSplit(s, p + |head|, v, tail);
    RawValue(v);
  }

  lemma RawPiece(v: Str, p: nat)
    requires CR !in v && p < |v|
    ensures FirstPiece(v[p..], RAW) == Piece(1, [v[p]])
  {
    if p + 1 < |v| { assert v[p..][1] == v[p + 1]; }
  }

  lemma {:induction false} RawIsCopied(v: Str, p: nat, q: nat)
    requires CR !in v && p == q <= |v|
    ensures InPlace(v, p, q, RAW) == v[p..]
    decreases |v| - p
  {
    hide FirstPiece, InPlace;
    if p < |v| {
      RawPiece(v, p);
      InPlaceStep(v, p, q, RAW);
      RawIsCopied(v, p + 1, q + 1);
    } else {
      NothingLeft(v, q, RAW);
    }
  }

  lemma RawValue(v: Str)
    requires Plain(v)
    ensures Value(v, RAW) == v
  {
    hide InPlace;
    RawIsCopied(v, 0, 0);
    CStringWhole(v);
    assert v[0..] == v;
  }

  lemma PrintedValue(v: Str, restricted: bool)
    requires Plain(v)
    ensures Value(Printed(v, restricted), TEXT) == v
  {
    hide InPlace, Printed;
    DecodingInvertsEscaping(v, restricted);
    CStringWhole(v);
  }

  /** What printed text never contains. */
  lemma {:induction false} PrintedAvoids(v: Str, restricted: bool)
    ensures LT !in Printed(v, restricted)
    ensures !restricted ==> QUOTE !in Printed(v, restricted)
    ensures 0 !in v ==> 0 !in Printed(v, restricted)
  {
    if v != [] {
      PrintedAvoids(v[1..], restricted);
      PrintedCharAvoids(v[0], restricted);
    }
  }

  lemma PrintedCharAvoids(c: byte, restricted: bool)
    ensures LT !in PrintedChar(c, restricted)
    ensures !restricted ==> QUOTE !in PrintedChar(c, restricted)
    ensures c != 0 ==> 0 !in PrintedChar(c, restricted)
  {
  }

  lemma ByteIsFirst(v: Str, c: byte)
    requires c !in v
    ensures forall k :: 0 <= k < |v| ==> !At(v + [c], k, [c])
  {
    forall k | 0 <= k < |v| ensures !At(v + [c], k, [c]) {
      assert (v + [c])[k..k + 1][0] == v[k];
    }
  }

  // ---------- tags ----------

  lemma SkipNone(s: Str, p: nat)
    requires p <= |s| && !IsSpace(CharAt(s, p))
    ensures SkipWhiteSpace(s, p) == p
  {
  }

  /** One attribute as the printer writes it, without the blank before it. */
  lemma AttributeParses(s: Str, p: nat, a: Attribute)
    requires At(s, p, a.name + [EQUALS, QUOTE] + Printed(a.value, false) + [QUOTE])
    requires ValidName(a.name) && Plain(a.value)
    ensures p < |s| && IsNameStartChar(s[p])
    ensures ParseAttribute(s, p) == Good(a, p + |PrintAttribute(a)| - 1)
  {
    hide Printed, Value, FindTag, IsNameStartChar, IsNameChar;
    var (name, text) := (a.name, Printed(a.value, false));
    var n := p + |name|;
    AtSplit(s, p, name + [EQUALS, QUOTE] + text, [QUOTE]);
    AtSplit(s, p, name + [EQUALS, QUOTE], text);
    AtSplit(s, p, name, [EQUALS, QUOTE]);
    assert s[n..n + 2][0] == s[n] && s[n..n + 2][1] == s[n + 1] && s[p..n][0] == s[p];
    NotInNames();
    NameEndAt(s, p, name);
    SkipNone(s, n);
    SkipNone(s, n + 1);
    QuotedValue(s, n + 2, a.value);
  }

  lemma QuotedValue(s: Str, p: nat, value: Str)
    requires At(s, p, Printed(value, false)) && At(s, p + |Printed(value, false)|, [QUOTE]) && Plain(value)
    ensures var k := FindTag(s, p, [QUOTE]);
      k == p + |Printed(value, false)| && Value(s[p..k], TEXT) == value
  {
    hide Printed, InPlace, FindTag;
    var text := Printed(value, false);
    AtJoin(s, p, text, [QUOTE]);
    PrintedAvoids(value, false);
    ByteIsFirst(text, QUOTE);
    FindTagFrom(s, p, text, [QUOTE], 0);
    PrintedValue(value, false);
  }

  lemma NotInNames()
    ensures !IsNameChar(EQUALS) && !IsNameChar(SPACE) && !IsNameChar(GT) && !IsNameChar(SLASH)
    ensures !IsSpace(EQUALS) && !IsSpace(QUOTE)
    ensures forall c :: IsNameStartChar(c) ==> !IsSpace(c) && c != 0 && c != SLASH && c != GT
    ensures forall c :: IsNameStartChar(c) ==> IsNameChar(c)
  {
  }

  lemma AtJoin(s: Str, p: nat, a: Str, b: Str)
    requires At(s, p, a) && At(s, p + |a|, b)
    ensures At(s, p, a + b)
  {
    assert s[p..p + |a| + |b|] == s[p..p + |a|] + s[p + |a|..p + |a| + |b|];
  }

  /** The attribute list of a tag is read back, one attribute after the other. */
  lemma {:induction false} AttributesParse(s: Str, p: nat, tag: Tag, rest: seq<Attribute>)
    requires At(s, p, PrintAttributes(rest)) && AttributesFit(tag.attributes + rest)
    ensures p + |PrintAttributes(rest)| <= |s|
    ensures ParseAttributes(s, p, tag)
      == ParseAttributes(s, p + |PrintAttributes(rest)|, tag.(attributes := tag.attributes + rest))
    decreases |rest|
  {
    hide PrintAttribute, ParseAttribute, AttributesFit, ParseAttributes;
    if rest == [] {
      assert tag.attributes + rest == tag.attributes;
    } else {
      var a := rest[0];
      var all := tag.attributes + rest;
      assert all[|tag.attributes|] == a;
      assert tag.attributes + [a] + rest[1..] == all;
      AtSplit(s, p, PrintAttribute(a), PrintAttributes(rest[1..]));
      AttributeRead(s, p, tag, rest);
      AttributesParse(s, p + |PrintAttribute(a)|, tag.(attributes := tag.attributes + [a]), rest[1..]);
    }
  }

  lemma AttributeRead(s: Str, p: nat, tag: Tag, rest: seq<Attribute>)
    requires rest != [] && AttributesFit(tag.attributes + rest) && At(s, p, PrintAttribute(rest[0]))
    ensures p + |PrintAttribute(rest[0])| <= |s|
    ensures ParseAttributes(s, p, tag)
      == ParseAttributes(s, p + |PrintAttribute(rest[0])|, tag.(attributes := tag.attributes + [rest[0]]))
  {
    hide ParseAttribute, Printed;
    var a := rest[0];
    var body := a.name + [EQUALS, QUOTE] + Printed(a.value, false) + [QUOTE];
    AttributeBody(a);
    AtFirst(s, p, SPACE, body);
    FitsAt(tag.attributes, rest);
    AttributeParses(s, p + 1, a);
    NotInNames();
    SkipNone(s, p + 1);
    assert SkipWhiteSpace(s, p) == p + 1;
  }

  lemma AttributeBody(a: Attribute)
    ensures PrintAttribute(a) == [SPACE] + (a.name + [EQUALS, QUOTE] + Printed(a.value, false) + [QUOTE])
  {
    hide Printed;
    Reassociate([SPACE], a.name, [EQUALS, QUOTE]);
    Reassociate([SPACE], a.name + [EQUALS, QUOTE], Printed(a.value, false));
    Reassociate([SPACE], a.name + [EQUALS, QUOTE] + Printed(a.value, false), [QUOTE]);
  }

  lemma FitsAt(before: seq<Attribute>, rest: seq<Attribute>)
    requires rest != [] && AttributesFit(before + rest)
    ensures ValidName(rest[0].name) && Plain(rest[0].value) && !HasAttribute(before, rest[0].name)
  {
    hide ValidName, Plain;
    var all := before + rest;
    assert all[|before|] == rest[0];
    forall i | 0 <= i < |before| ensures before[i].name != rest[0].name {
      assert all[i] == before[i];
    }
  }

  lemma AttributesEnd(s: Str, p: nat, tag: Tag, tail: Str)
    requires At(s, p, tail) && (tail == [GT] || tail == EMPTY_TAIL)
    ensures ParseAttributes(s, p, tag)
      == Good(if tail == [GT] then tag else tag.(closing := Closed), p + |tail|)
  {
    assert s[p] == tail[0];
    if tail == EMPTY_TAIL { assert s[p..p + 2][1] == s[p + 1]; }
    SkipNone(s, p);
  }

  lemma AfterName(attributes: seq<Attribute>, tail: Str)
    requires tail == [GT] || tail == EMPTY_TAIL
    ensures !IsNameChar((PrintAttributes(attributes) + tail)[0])
  {
    NotInNames();
    if attributes != [] { AttributeBody(attributes[0]); }
  }

  /** A start tag, or the tag of an empty element. */
  lemma TagParses(s: Str, p: nat, n: Node, tail: Str)
    requires n.Element? && ValidName(n.name) && AttributesFit(n.attributes)
    requires At(s, p, n.name + (PrintAttributes(n.attributes) + tail)) && (tail == [GT] || tail == EMPTY_TAIL)
    ensures ParseTag(s, p) == Good(Tag(n.name, n.attributes, if tail == [GT] then Open else Closed),
      p + |n.name| + |PrintAttributes(n.attributes)| + |tail|)
  {
    hide PrintAttributes, AttributesFit, ParseAttributes, IsNameChar, IsNameStartChar;
    var (name, rest) := (n.name, PrintAttributes(n.attributes));
    var end := p + |name|;
    AtSplit(s, p, name, rest + tail);
    AtSplit(s, end, rest, tail);
    AfterName(n.attributes, tail);
    assert s[p..end][0] == s[p] && s[end..end + |rest + tail|][0] == s[end];
    NotInNames();
    SkipNone(s, p);
    NameFound(s, p, name);
    assert [] + n.attributes == n.attributes;
    AttributesParse(s, end, Tag(name, [], Open), n.attributes);
    AttributesEnd(s, end + |rest|, Tag(name, n.attributes, Open), tail);
  }

  lemma NameFound(s: Str, p: nat, name: Str)
    requires ValidName(name) && At(s, p, name) && !IsNameChar(CharAt(s, p + |name|))
    ensures IsNameStartChar(CharAt(s, p)) && NameEnd(s, p + 1) == p + |name| && s[p..p + |name|] == name
  {
    hide IsNameChar, IsNameStartChar;
    NotInNames();
    assert s[p..p + |name|][0] == s[p];
    NameEndAt(s, p, name);
  }

  /** An end tag, behind its "<". */
  lemma EndTagParses(s: Str, p: nat, name: Str)
    requires ValidName(name) && At(s, p, [SLASH] + (name + [GT]))
    ensures ParseTag(s, p) == Good(Tag(name, [], ClosingTag), p + |name| + 2)
  {
    hide AttributesFit, ParseAttributes, IsNameChar, IsNameStartChar;
    AtFirst(s, p, SLASH, name + [GT]);
    AtSplit(s, p + 1, name, [GT]);
    var end := p + 1 + |name|;
    assert s[end..end + 1][0] == s[end];
    NotInNames();
    SkipNone(s, p);
    NameFound(s, p + 1, name);
    AttributesEnd(s, end, Tag(name, [], ClosingTag), [GT]);
  }

  // ---------- nodes ----------

  /** Which kind of node starts at p, from the first bytes of the text there. */
  lemma Identify(s: Str, p: nat, top: bool, before: seq<Node>)
    requires p < |s| && s[p] == LT
    ensures At(s, p, DECLARATION_HEAD) ==>
      ParseNode(s, p, top, before) == ReadDeclaration(s, p, top && OnlyDeclarations(before))
    ensures At(s, p, COMMENT_HEAD) ==> ParseNode(s, p, top, before) == ReadComment(s, p)
    ensures At(s, p, CDATA_HEAD) ==> ParseNode(s, p, top, before) == ReadCData(s, p)
    ensures At(s, p, UNKNOWN_HEAD) && !At(s, p, COMMENT_HEAD) && !At(s, p, CDATA_HEAD) ==>
      ParseNode(s, p, top, before) == ReadUnknown(s, p)
    ensures CharAt(s, p + 1) != BANG && CharAt(s, p + 1) != QUESTION ==>
      ParseNode(s, p, top, before) == ReadElement(s, p)
  {
    hide ReadDeclaration, ReadComment, ReadCData, ReadUnknown, ReadElement, OnlyDeclarations;
    SkipNone(s, p);
    HeadsDiffer(s, p);
  }

  lemma HeadsDiffer(s: Str, p: nat)
    ensures At(s, p, DECLARATION_HEAD) ==> p + 1 < |s| && s[p + 1] == QUESTION
    ensures At(s, p, UNKNOWN_HEAD) ==> p + 1 < |s| && s[p + 1] == BANG
    ensures At(s, p, COMMENT_HEAD) ==> p + 2 < |s| && s[p + 1] == BANG && s[p + 2] == MINUS
    ensures At(s, p, CDATA_HEAD) ==> p + 2 < |s| && s[p + 1] == BANG && s[p + 2] == 0x5B
  {
    if At(s, p, DECLARATION_HEAD) { assert s[p..p + 2][1] == s[p + 1]; }
    if At(s, p, UNKNOWN_HEAD) { assert s[p..p + 2][1] == s[p + 1]; }
    if At(s, p, COMMENT_HEAD) { assert s[p..p + 4][1] == s[p + 1] && s[p..p + 4][2] == s[p + 2]; }
    if At(s, p, CDATA_HEAD) { assert s[p..p + 9][1] == s[p + 1] && s[p..p + 9][2] == s[p + 2]; }
  }

  /** A declaration, comment, CDATA section or unknown node. */
  lemma MarkedParses(s: Str, p: nat, n: Node, top: bool, before: seq<Node>)
    requires !n.Element? && !PlainText(n) && Printable(n) && At(s, p, Print(n))
    requires n.Declaration? ==> top && OnlyDeclarations(before)
    ensures ParseNode(s, p, top, before) == Item(n, p + |Print(n)|)
  {
    hide ReadDeclaration, ReadComment, ReadCData, ReadUnknown, OnlyDeclarations, ParseNode, Printable, Print;
    match n
    case Comment(v) => CommentParses(s, p, v); Identify(s, p, top, before);
    case Text(v, _) => CDataParses(s, p, v); Identify(s, p, top, before);
    case Declaration(v) => DeclarationParses(s, p, v); Identify(s, p, top, before);
    case Unknown(v) => UnknownParses(s, p, v); Identify(s, p, top, before);
  }

  lemma CommentParses(s: Str, p: nat, v: Str)
    requires Printable(Comment(v)) && At(s, p, Print(Comment(v)))
    ensures At(s, p, COMMENT_HEAD) && s[p] == LT && ReadComment(s, p) == Item(Comment(v), p + |Print(Comment(v))|)
  {
    hide ParseMarkup, Occurs, Plain;
    HeadRead(s, p, COMMENT_HEAD, v, COMMENT_TAIL);
    MarkupParses(s, p, COMMENT_HEAD, v, COMMENT_TAIL, ParsingComment);
  }

  lemma CDataParses(s: Str, p: nat, v: Str)
    requires Printable(Text(v, true)) && At(s, p, Print(Text(v, true)))
    ensures At(s, p, CDATA_HEAD) && s[p] == LT && ReadCData(s, p) == Item(Text(v, true), p + |Print(Text(v, true))|)
  {
    hide ParseMarkup, Occurs, Plain;
    HeadRead(s, p, CDATA_HEAD, v, CDATA_TAIL);
    MarkupParses(s, p, CDATA_HEAD, v, CDATA_TAIL, ParsingCData);
  }

  lemma DeclarationParses(s: Str, p: nat, v: Str)
    requires Printable(Declaration(v)) && At(s, p, Print(Declaration(v)))
    ensures At(s, p, DECLARATION_HEAD) && s[p] == LT
    ensures ReadDeclaration(s, p, true) == Item(Declaration(v), p + |Print(Declaration(v))|)
  {
    hide ParseMarkup, Occurs, Plain;
    HeadRead(s, p, DECLARATION_HEAD, v, DECLARATION_TAIL);
    MarkupParses(s, p, DECLARATION_HEAD, v, DECLARATION_TAIL, ParsingDeclaration);
  }

  lemma HeadRead(s: Str, p: nat, head: Str, v: Str, tail: Str)
    requires At(s, p, head + v + tail) && head != []
    ensures At(s, p, head) && p < |s| && s[p] == head[0]
  {
    Reassociate(head, v, tail);
    AtSplit(s, p, head, v + tail);
    assert s[p..p + |head|][0] == s[p];
  }

  lemma UnknownParses(s: Str, p: nat, v: Str)
    requires Printable(Unknown(v)) && At(s, p, Print(Unknown(v)))
    ensures At(s, p, UNKNOWN_HEAD) && s[p] == LT && !At(s, p, COMMENT_HEAD) && !At(s, p, CDATA_HEAD)
    ensures ReadUnknown(s, p) == Item(Unknown(v), p + |Print(Unknown(v))|)
  {
    hide ParseMarkup, FindTag, Plain;
    HeadRead(s, p, UNKNOWN_HEAD, v, UNKNOWN_TAIL);
    OneByteTail(v, GT);
    MarkupParses(s, p, UNKNOWN_HEAD, v, UNKNOWN_TAIL, ParsingUnknown);
    NotThisHead(s, p, v, COMMENT_HEAD);
    NotThisHead(s, p, v, CDATA_HEAD);
  }

  lemma OneByteTail(v: Str, c: byte)
    requires c !in v
    ensures !Occurs(v, [c])
  {
    forall i | 0 <= i <= |v| ensures !At(v, i, [c]) {
      if i < |v| { assert v[i..i + 1][0] == v[i]; }
    }
  }

  lemma NotThisHead(s: Str, p: nat, v: Str, head: Str)
    requires At(s, p, UNKNOWN_HEAD + v + UNKNOWN_TAIL) && !At(UNKNOWN_HEAD + v, 0, head) && GT !in head
    ensures !At(s, p, head)
  {
    var front := UNKNOWN_HEAD + v;
    var end := p + |front|;
    AtSplit(s, p, front, UNKNOWN_TAIL);
    assert s[end..end + 1][0] == s[end] == GT;
    if |head| <= |front| {
      AtInside(s, p, front, 0, head);
    } else {
      ByteInside(s, p, head, |front|);
    }
  }

  lemma ByteInside(s: Str, p: nat, t: Str, i: nat)
    requires i < |t|
    ensures At(s, p, t) ==> s[p + i] == t[i] && t[i] in t
  {
    if At(s, p, t) { assert s[p..p + |t|][i] == s[p + i]; }
  }

  /** Plain text that is not all blank, in front of a '<' that is not the last byte. */
  lemma TextParses(s: Str, p: nat, v: Str, top: bool, before: seq<Node>)
    requires Plain(v) && !Blank(v) && At(s, p, Printed(v, true))
    requires CharAt(s, p + |Printed(v, true)|) == LT && CharAt(s, p + |Printed(v, true)| + 1) != 0
    ensures CharAt(s, p) != 0
    ensures ParseNode(s, p, top, before) == Item(Text(v, false), p + |Printed(v, true)|)
  {
    hide Printed, FindTag, Value;
    var text := Printed(v, true);
    var end := p + |text|;
    PrintedAvoids(v, true);
    PrintedNotBlank(v);
    assert s[end..end + 1] == [LT];
    AtJoin(s, p, text, [LT]);
    ByteIsFirst(text, LT);
    FindTagFrom(s, p, text, [LT], 0);
    PrintedValue(v, true);
    assert forall i :: 0 <= i < |text| ==> s[p..end][i] == s[p + i];
    SkipBlanks(s, p, text);
    var q := SkipWhiteSpace(s, p);
    assert s[q] == text[q - p] && s[p] == text[0];
    NotAHead(s, q);
  }

  lemma NotAHead(s: Str, q: nat)
    requires q < |s| && s[q] != LT
    ensures !At(s, q, DECLARATION_HEAD) && !At(s, q, COMMENT_HEAD) && !At(s, q, CDATA_HEAD) && !At(s, q, UNKNOWN_HEAD)
  {
    ByteInside(s, q, DECLARATION_HEAD, 0);
    ByteInside(s, q, COMMENT_HEAD, 0);
    ByteInside(s, q, CDATA_HEAD, 0);
    ByteInside(s, q, UNKNOWN_HEAD, 0);
  }

  lemma {:induction false} SkipBlanks(s: Str, p: nat, text: Str)
    requires At(s, p, text) && !Blank(text) && 0 !in text
    ensures p <= SkipWhiteSpace(s, p) < p + |text|
    decreases |text|
  {
    assert text == [text[0]] + text[1..];
    AtFirst(s, p, text[0], text[1..]);
    if IsSpace(text[0]) { SkipBlanks(s, p + 1, text[1..]); }
  }

  lemma {:induction false} PrintedNotBlank(v: Str)
    requires !Blank(v)
    ensures !Blank(Printed(v, true))
  {
    PrintedStep(v, true);
    var (first, rest) := (PrintedChar(v[0], true), Printed(v[1..], true));
    if IsSpace(v[0]) {
      PrintedNotBlank(v[1..]);
      BlankParts(first, rest);
    } else {
      assert !IsSpace(first[0]) && (first + rest)[0] == first[0];
    }
  }

  lemma BlankParts(a: Str, b: Str)
    requires !Blank(b)
    ensures !Blank(a + b)
  {
    var i :| 0 <= i < |b| && !IsSpace(b[i]);
    assert (a + b)[|a| + i] == b[i];
  }

  // ---------- trees ----------

  predicate DeclarationsFirst(nodes: seq<Node>, top: bool) {
    && (!top ==> forall i :: 0 <= i < |nodes| ==> !nodes[i].Declaration?)
    && forall i, j :: 0 <= i < j < |nodes| && nodes[j].Declaration? ==> nodes[i].Declaration?
  }

  lemma DeclarationFits(nodes: seq<Node>, i: nat, top: bool)
    requires i < |nodes| && DeclarationsFirst(nodes, top)
    ensures nodes[i].Declaration? ==> top && OnlyDeclarations(nodes[..i])
  {
  }

  lemma MarkupFollows(s: Str, p: nat, nodes: seq<Node>, i: nat)
    requires i < |nodes| && PlainText(nodes[i]) && NoAdjacentTexts(nodes)
    requires forall k :: 0 <= k < |nodes| ==> Printable(nodes[k])
    requires At(s, p, PrintAll(nodes[i + 1..])) && FollowedByMarkup(s, p + |PrintAll(nodes[i + 1..])|)
    ensures FollowedByMarkup(s, p)
  {
    hide Print, Printable;
    if i + 1 < |nodes| {
      var n := nodes[i + 1];
      assert !(PlainText(nodes[i]) && PlainText(nodes[i + 1]));
      assert nodes[i + 1..][0] == n;
      AtSplit(s, p, Print(n), PrintAll(nodes[i + 1..][1..]));
      PrintStarts(n);
      assert s[p..p + |Print(n)|][0] == s[p] && s[p..p + |Print(n)|][1] == s[p + 1];
    }
  }

  lemma OneNode(s: Str, p: nat, n: Node, top: bool, before: seq<Node>)
    requires p < |s| && Printable(n) && At(s, p, Print(n))
    requires ParseNode(s, p, top, before) == Item(n, p + |Print(n)|)
    ensures p + |Print(n)| <= |s|
    ensures ParseNodes(s, p, top, before) == ParseNodes(s, p + |Print(n)|, top, before + [n])
  {
    hide Print, ParseNode, Printable;
    PrintStarts(n);
    assert s[p..p + |Print(n)|][0] == s[p];
  }

  /** What a printed node starts with. */
  lemma PrintStarts(n: Node)
    requires Printable(n)
    ensures Print(n) != [] && Print(n)[0] != 0
    ensures !PlainText(n) ==> |Print(n)| > 1 && Print(n)[0] == LT && Print(n)[1] != 0
  {
    hide Printed, PrintAttributes, PrintAll;
    match n
    case Text(v, cdata) => if !cdata { PrintedNotBlank(v); PrintedAvoids(v, true); TextStarts(v); }
    case Element(name, _, _) => assert ([LT] + name)[1] == name[0]; NotInNames();
    case _ =>
  }

  lemma TextStarts(v: Str)
    requires 0 !in Printed(v, true) && !Blank(Printed(v, true))
    ensures Printed(v, true) != [] && Printed(v, true)[0] != 0
  {
  }

  lemma ElementParts(n: Node)
    requires n.Element?
    ensures var attributes := PrintAttributes(n.attributes);
      Print(n) == if n.children == [] then [LT] + (n.name + (attributes + EMPTY_TAIL))
        else [LT] + (n.name + (attributes + [GT])) + (PrintAll(n.children) + (CLOSING_HEAD + n.name + [GT]))
  {
    hide PrintAttributes, PrintAll;
    var attributes := PrintAttributes(n.attributes);
    var tail := if n.children == [] then EMPTY_TAIL else [GT];
    var close := CLOSING_HEAD + n.name + [GT];
    Reassociate([LT], n.name, attributes);
    Reassociate([LT], n.name + attributes, tail);
    Reassociate(n.name, attributes, tail);
    if n.children != [] {
      Reassociate(OpenTag(n), [GT], PrintAll(n.children));
      Reassociate(OpenTag(n), [GT] + PrintAll(n.children), close);
      Reassociate([GT], PrintAll(n.children), close);
      Reassociate(OpenTag(n), [GT], PrintAll(n.children) + close);
    }
  }

  /** How the text of an element is divided: its start tag, and behind it its children and its end tag. */
  lemma ElementDivided(s: Str, p: nat, n: Node, start: Str)
    requires n.Element? && At(s, p, Print(n))
    requires start == n.name + (PrintAttributes(n.attributes) + if n.children == [] then EMPTY_TAIL else [GT])
    ensures p < |s| && s[p] == LT && At(s, p + 1, start)
    ensures n.children == [] ==> |Print(n)| == 1 + |start|
    ensures n.children != [] ==>
      var (q, close) := (p + 1 + |start|, CLOSING_HEAD + n.name + [GT]);
      && At(s, q, PrintAll(n.children)) && At(s, q + |PrintAll(n.children)|, close)
      && |Print(n)| == 1 + |start| + |PrintAll(n.children)| + |close|
  {
    hide Print, PrintAttributes, PrintAll, At;
    ElementParts(n);
    if n.children == [] {
      AtFirst(s, p, LT, start);
    } else {
      var close := CLOSING_HEAD + n.name + [GT];
      AtSplit(s, p, [LT] + start, PrintAll(n.children) + close);
      AtFirst(s, p, LT, start);
      AtSplit(s, p + 1 + |start|, PrintAll(n.children), close);
    }
  }

  lemma ElementParses(s: Str, p: nat, n: Node, top: bool, before: seq<Node>)
    requires n.Element? && Printable(n) && At(s, p, Print(n))
    ensures ParseNode(s, p, top, before) == Item(n, p + |Print(n)|)
    decreases n, 1
  {
    hide Print, Printable, PrintAttributes, PrintAll, ParseTag, ParseNode, ParseNodes, AttributesFit, ValidName, At;
    ElementFits(n);
    var tail := if n.children == [] then EMPTY_TAIL else [GT];
    var start := n.name + (PrintAttributes(n.attributes) + tail);
    ElementDivided(s, p, n, start);
    TagParses(s, p + 1, n, tail);
    ElementIdentified(s, p, n.name, PrintAttributes(n.attributes) + tail, top, before);
    if n.children != [] { ContentParses(s, p + 1 + |start|, n); }
  }

  lemma ElementFits(n: Node)
    requires n.Element? && Printable(n)
    ensures ValidName(n.name) && AttributesFit(n.attributes)
  {
  }

  lemma ElementIdentified(s: Str, p: nat, name: Str, rest: Str, top: bool, before: seq<Node>)
    requires ValidName(name) && p < |s| && s[p] == LT && At(s, p + 1, name + rest)
    ensures ParseNode(s, p, top, before) == ReadElement(s, p)
  {
    hide ReadElement, ParseNode;
    assert s[p + 1..p + 1 + |name + rest|][0] == (name + rest)[0] == name[0];
    assert s[p + 1] == name[0];
    Identify(s, p, top, before);
  }

  /** The children and the end tag. */
  lemma ContentParses(s: Str, p: nat, n: Node)
    requires n.Element? && Printable(n) && n.children != []
    requires At(s, p, PrintAll(n.children)) && At(s, p + |PrintAll(n.children)|, CLOSING_HEAD + n.name + [GT])
    ensures ParseElement(s, Tag(n.name, n.attributes, Open), p)
      == Item(n, p + |PrintAll(n.children)| + |CLOSING_HEAD + n.name + [GT]|)
    decreases n, 0
  {
    hide PrintAll, ParseNodes, ValidName;
    var q := p + |PrintAll(n.children)|;
    AtSplit(s, q, CLOSING_HEAD + n.name, [GT]);
    AtSplit(s, q, CLOSING_HEAD, n.name);
    assert s[q..q + 2][0] == s[q] && s[q..q + 2][1] == s[q + 1];
    assert n.children[..0] == [] && n.children[0..] == n.children;
    ChildrenParse(s, p, n, 0, false);
    EndTagFound(s, q, n.name, n.children);
    ContentStarts(s, p, n.children);
  }

  lemma ContentStarts(s: Str, p: nat, nodes: seq<Node>)
    requires nodes != [] && Printable(nodes[0]) && At(s, p, PrintAll(nodes))
    ensures CharAt(s, p) != 0
  {
    hide Print;
    PrintStarts(nodes[0]);
    AtSplit(s, p, Print(nodes[0]), PrintAll(nodes[1..]));
    assert s[p..p + |Print(nodes[0])|][0] == s[p];
  }

  lemma EndTagFound(s: Str, q: nat, name: Str, before: seq<Node>)
    requires ValidName(name) && At(s, q, CLOSING_HEAD + name + [GT])
    ensures ParseNodes(s, q, false, before) == AtEndTag(before, name, q + |CLOSING_HEAD + name + [GT]|)
  {
    hide ValidName, ParseTag, ParseNode;
    assert CLOSING_HEAD + name + [GT] == [LT] + ([SLASH] + (name + [GT]));
    AtFirst(s, q, LT, [SLASH] + (name + [GT]));
    AtFirst(s, q + 1, SLASH, name + [GT]);
    EndTagParses(s, q + 1, name);
    Identify(s, q, false, before);
  }

  /** What may stand behind the node: a plain text must be followed by markup. */
  predicate FollowedByMarkup(s: Str, p: nat) {
    CharAt(s, p) == LT && CharAt(s, p + 1) != 0
  }

  lemma NodeParses(s: Str, p: nat, n: Node, top: bool, before: seq<Node>)
    requires Printable(n) && At(s, p, Print(n))
    requires n.Declaration? ==> top && OnlyDeclarations(before)
    requires PlainText(n) ==> FollowedByMarkup(s, p + |Print(n)|)
    ensures ParseNode(s, p, top, before) == Item(n, p + |Print(n)|)
    decreases n, 2
  {
    hide ParseNode, OnlyDeclarations, Plain, Printed;
    if n.Element? {
      ElementParses(s, p, n, top, before);
    } else if PlainText(n) {
      TextParses(s, p, n.value, top, before);
    } else {
      MarkedParses(s, p, n, top, before);
    }
  }

  /** The children of an element, or, with a nameless parent, the nodes of a document. */
  lemma {:induction false} ChildrenParse(s: Str, p: nat, parent: Node, i: nat, top: bool)
    requires parent.Element? && i <= |parent.children|
    requires forall k :: 0 <= k < |parent.children| ==> Printable(parent.children[k])
    requires NoAdjacentTexts(parent.children) && DeclarationsFirst(parent.children, top)
    requires At(s, p, PrintAll(parent.children[i..]))
    requires var end := p + |PrintAll(parent.children[i..])|;
      FollowedByMarkup(s, end) || forall k :: 0 <= k < |parent.children| ==> !PlainText(parent.children[k])
    ensures p + |PrintAll(parent.children[i..])| <= |s|
    ensures ParseNodes(s, p, top, parent.children[..i])
      == ParseNodes(s, p + |PrintAll(parent.children[i..])|, top, parent.children)
    decreases parent, 0, |parent.children| - i
  {
    hide Print, Printable, ParseNode, NoAdjacentTexts, DeclarationsFirst, ParseNodes;
    var nodes := parent.children;
    if i == |nodes| {
      assert nodes[i..] == [] && nodes[..i] == nodes;
    } else {
      var n := nodes[i];
      var next := p + |Print(n)|;
      assert nodes[i..][0] == n && nodes[i..][1..] == nodes[i + 1..] && nodes[..i] + [n] == nodes[..i + 1];
      AtSplit(s, p, Print(n), PrintAll(nodes[i + 1..]));
      DeclarationFits(nodes, i, top);
      if PlainText(n) { MarkupFollows(s, next, nodes, i); }
      NodeParses(s, p, n, top, nodes[..i]);
      OneNode(s, p, n, top, nodes[..i]);
      ChildrenParse(s, next, parent, i + 1, top);
    }
  }

  /** A document that meets the conditions comes back as it was, with no error. */
  lemma ParseInvertsPrint(d: Document)
    requires PrintableDocument(d)
    ensures ParseDocument(PrintDocument(d)) == Good(d, |PrintDocument(d)|)
  {
    hide Printable, Print, PrintAll, ParseNodes;
    var body := PrintAll(d.nodes);
    var s := PrintDocument(d);
    var q := if d.bom then 3 else 0;
    assert At(s, q, body);
    ContentStarts(s, q, d.nodes);
    FirstBytes(d);
    var parent := Element([], [], d.nodes);
    assert d.nodes[..0] == [] && d.nodes[0..] == d.nodes;
    ChildrenParse(s, q, parent, 0, true);
    assert ParseNodes(s, |s|, true, d.nodes) == AtEnd(d.nodes) by { NodesEnd(s, d.nodes); }
  }

  lemma NodesEnd(s: Str, before: seq<Node>)
    ensures ParseNodes(s, |s|, true, before) == AtEnd(before)
  {
  }

  lemma FirstBytes(d: Document)
    requires PrintableDocument(d)
    ensures var s := PrintDocument(d);
      && CharAt(s, 0) != 0 && SkipWhiteSpace(s, 0) == 0 && (At(s, 0, BOM) <==> d.bom)
  {
    hide Printable, Print;
    var s := PrintDocument(d);
    PrintStarts(d.nodes[0]);
    assert PrintAll(d.nodes)[0] == LT;
    assert s[0] == if d.bom then 0xEF else LT;
    if d.bom { assert s[0..3] == BOM; }
    ByteInside(s, 0, BOM, 0);
  }
}
