/** Documents written with blanks between the parts of the markup, and with either kind of quotes. */
module XmlLayouts {
  import opened Bytes
  import opened Decimals
  import opened XmlText
  import opened XmlDocuments
  import opened XmlRoundTrip

  // ---------- layouts ----------

  /** Space, tab, line feed, vertical tab, form feed and carriage return. */
  predicate Blanks(w: Str) {
    forall i :: 0 <= i < |w| ==> w[i] in {0x20, 0x09, 0x0A, 0x0B, 0x0C, 0x0D}
  }

  /** An attribute with what stands before it and around its '=', and its quotes. */
  datatype LaidAttribute = LaidAttribute(lead: Str, name: Str, left: Str, right: Str, quote: byte, value: Str)

  /**
    A node with the blanks before it. An element has further ones behind its '<', before the end of its start tag,
    before its end tag, and twice inside that; it may be written in the short form if it has no children.
  */
  datatype Laid =
    | LaidElement(lead: Str, inner: Str, name: Str, attributes: seq<LaidAttribute>, trail: Str, short: bool,
                  children: seq<Laid>, last: Str, closeInner: Str, closeTrail: Str)
    | LaidNode(lead: Str, node: Node)

  datatype LaidDocument = LaidDocument(lead: Str, bom: bool, nodes: seq<Laid>, trail: Str)

  function QuotedText(a: LaidAttribute): Str {
    [a.quote] + (Printed(a.value, false) + [a.quote])
  }

  function BodyText(a: LaidAttribute): Str {
    a.name + (a.left + ([0x3D] + (a.right + QuotedText(a))))
  }

  function AttributesText(attributes: seq<LaidAttribute>): Str {
    if attributes == [] then [] else attributes[0].lead + (BodyText(attributes[0]) + AttributesText(attributes[1..]))
  }

  /** An end tag, behind its '<'. */
  function CloseText(n: Laid): Str
    requires n.LaidElement?
  {
    n.closeInner + ([0x2F] + (n.name + (n.closeTrail + [0x3E])))
  }

  function TagEnd(n: Laid): Str
    requires n.LaidElement?
  {
    if n.short then [0x2F, 0x3E] else [0x3E]
  }

  /** A start tag, behind its '<'. */
  function TagText(n: Laid): Str
    requires n.LaidElement?
  {
    n.inner + (n.name + (AttributesText(n.attributes) + (n.trail + TagEnd(n))))
  }

  function ContentText(n: Laid): Str
    requires n.LaidElement?
    decreases n, 0
  {
    if n.short then [] else LaidAll(n.children) + (n.last + ([0x3C] + CloseText(n)))
  }

  function LaidText(n: Laid): Str
    decreases n, 1
  {
    match n
    case LaidElement(lead, _, _, _, _, _, _, _, _, _) => lead + ([0x3C] + (TagText(n) + ContentText(n)))
    case LaidNode(lead, node) => lead + Print(node)
  }

  function LaidAll(nodes: seq<Laid>): Str {
    if nodes == [] then [] else LaidText(nodes[0]) + LaidAll(nodes[1..])
  }

  function LayoutText(d: LaidDocument): Str {
    d.lead + ((if d.bom then BOM else []) + (LaidAll(d.nodes) + d.trail))
  }

  // ---------- the documents laid out ----------

  function AttributeOf(a: LaidAttribute): Attribute { Attribute(a.name, a.value) }

  function AttributesOf(attributes: seq<LaidAttribute>): seq<Attribute> {
    seq(|attributes|, i requires 0 <= i < |attributes| => AttributeOf(attributes[i]))
  }

  function TreeOf(n: Laid): Node {
    match n
    case LaidElement(_, _, name, attributes, _, _, children, _, _, _) => Element(name, AttributesOf(attributes), TreesOf(children))
    case LaidNode(_, node) => node
  }

  function TreesOf(nodes: seq<Laid>): (r: seq<Node>)
    ensures |r| == |nodes| && forall i :: 0 <= i < |nodes| ==> r[i] == TreeOf(nodes[i])
  {
    seq(|nodes|, i requires 0 <= i < |nodes| => TreeOf(nodes[i]))
  }

  function DocumentOf(d: LaidDocument): Document {
    Document(d.bom, TreesOf(d.nodes))
  }

  // ---------- what a layout may do ----------

  predicate IsText(n: Laid) { n.LaidNode? && PlainText(n.node) }

  predicate AttributeLaid(a: LaidAttribute) {
    Blanks(a.lead) && Blanks(a.left) && Blanks(a.right) && (a.quote == 0x22 || a.quote == 0x27)
  }

  /** A name must be ended by something. */
  predicate AttributesLaid(attributes: seq<LaidAttribute>) {
    && (forall i :: 0 <= i < |attributes| ==> AttributeLaid(attributes[i]))
    && (attributes != [] ==> attributes[0].lead != [])
  }

  /** Blanks next to a plain text would belong to it. */
  predicate LaidAround(nodes: seq<Laid>) {
    && (forall i :: 0 <= i < |nodes| && IsText(nodes[i]) ==> nodes[i].lead == [])
    && forall i :: 0 <= i < |nodes| - 1 && IsText(nodes[i]) ==> nodes[i + 1].lead == []
  }

  predicate LaidOut(n: Laid) {
    Blanks(n.lead) &&
      match n
      case LaidElement(_, inner, _, attributes, trail, short, children, last, closeInner, closeTrail) =>
        && Blanks(inner) && AttributesLaid(attributes) && Blanks(trail) && Blanks(last) && Blanks(closeInner) && Blanks(closeTrail)
        && (short ==> children == []) && LaidAround(children)
        && (children != [] && IsText(children[|children| - 1]) ==> last == [])
        && forall i :: 0 <= i < |children| ==> LaidOut(children[i])
      case LaidNode(_, node) => !node.Element?
  }

  predicate DocumentLaidOut(d: LaidDocument) {
    Blanks(d.lead) && Blanks(d.trail) && forall i :: 0 <= i < |d.nodes| ==> LaidOut(d.nodes[i])
  }

  // ---------- blanks ----------

  lemma {:induction false} BlanksAreSkipped(s: Str, p: nat, w: Str)
    requires At(s, p, w) && Blanks(w)
    ensures SkipWhiteSpace(s, p) == SkipWhiteSpace(s, p + |w|)
    decreases |w|
  {
    if w != [] {
      assert w == [w[0]] + w[1..];
      AtFirst(s, p, w[0], w[1..]);
      BlanksAreSkipped(s, p + 1, w[1..]);
    }
  }

  lemma BlanksEnd(s: Str, p: nat, w: Str)
    requires At(s, p, w) && Blanks(w) && !IsSpace(CharAt(s, p + |w|))
    ensures SkipWhiteSpace(s, p) == p + |w|
  {
    BlanksAreSkipped(s, p, w);
  }

  /** A name ends at a blank, and at each of the bytes that may follow one. */
  lemma EndsName(c: byte)
    ensures c in {0x20, 0x09, 0x0A, 0x0B, 0x0C, 0x0D} ==> !IsNameChar(c)
    ensures c == 0x3D || c == 0x2F || c == 0x3E || c == 0x22 || c == 0x27 || c == 0x3C ==> !IsNameChar(c) && !IsSpace(c) && c != 0
  {
  }

  lemma FirstByte(s: Str, p: nat, w: Str)
    requires At(s, p, w) && w != []
    ensures p < |s| && s[p] == w[0]
  {
    assert s[p..p + |w|][0] == s[p];
  }

  /** What is left of a text whose first byte ends a name, when blanks stand in front of it. */
  lemma BlanksEndName(w: Str, rest: Str)
    requires Blanks(w) && rest != [] && !IsNameChar(rest[0])
    ensures w + rest != [] && !IsNameChar((w + rest)[0])
  {
    if w != [] { EndsName(w[0]); assert (w + rest)[0] == w[0]; }
  }

  // ---------- attributes ----------

  lemma QuotedAttribute(s: Str, p: nat, a: LaidAttribute)
    requires At(s, p, QuotedText(a)) && Plain(a.value) && (a.quote == 0x22 || a.quote == 0x27)
    ensures p < |s| && s[p] == a.quote
    ensures var k := FindTag(s, p + 1, [a.quote]);
      k == p + |QuotedText(a)| - 1 && Value(s[p + 1..k], TEXT) == a.value
  {
    hide Printed, Value, FindTag;
    var text := Printed(a.value, false);
    AtFirst(s, p, a.quote, text + [a.quote]);
    PrintedAvoids(a.value, false);
    PrintedAvoidsApostrophe(a.value);
    ByteIsFirst(text, a.quote);
    FindTagFrom(s, p + 1, text, [a.quote], 0);
    AtSplit(s, p + 1, text, [a.quote]);
    PrintedValue(a.value, false);
  }

  lemma {:induction false} PrintedAvoidsApostrophe(v: Str)
    ensures 0x27 !in Printed(v, false)
  {
    hide PrintedChar;
    if v != [] {
      PrintedAvoidsApostrophe(v[1..]);
      CharAvoidsApostrophe(v[0]);
    }
  }

  lemma CharAvoidsApostrophe(c: byte)
    ensures 0x27 !in PrintedChar(c, false)
  {
  }

  /** Where the parts of an attribute stand. */
  lemma AttributeDivided(s: Str, p: nat, a: LaidAttribute)
    requires At(s, p, BodyText(a)) && AttributeLaid(a)
    ensures var (n, e) := (p + |a.name|, p + |a.name| + |a.left|);
      var v := e + 1 + |a.right|;
      && At(s, p, a.name) && At(s, n, a.left) && At(s, e + 1, a.right) && At(s, v, QuotedText(a))
      && e < |s| && s[e] == 0x3D && n < |s| && !IsNameChar(s[n]) && s[n] != 0
      && p + |BodyText(a)| == v + |QuotedText(a)|
  {
    hide At, Blanks, QuotedText, IsNameChar;
    var value := QuotedText(a);
    var (n, behind) := (p + |a.name|, [0x3D] + (a.right + value));
    AtSplit(s, p, a.name, a.left + behind);
    AtSplit(s, n, a.left, behind);
    AtFirst(s, n + |a.left|, 0x3D, a.right + value);
    AtSplit(s, n + |a.left| + 1, a.right, value);
    EndsName(0x3D);
    BlanksEndName(a.left, behind);
    NotZero(a, behind);
    FirstByte(s, n, a.left + behind);
  }

  lemma LaidAttributeParses(s: Str, p: nat, a: LaidAttribute)
    requires At(s, p, BodyText(a)) && AttributeLaid(a) && ValidName(a.name) && Plain(a.value)
    ensures p < |s| && IsNameStartChar(s[p])
    ensures ParseAttribute(s, p) == Good(AttributeOf(a), p + |BodyText(a)|)
  {
    hide At, BodyText, QuotedText, Value, FindTag, IsNameStartChar, IsNameChar, IsSpace, Blanks, SkipWhiteSpace, ValidName, Plain;
    AttributeDivided(s, p, a);
    var e := p + |a.name| + |a.left|;
    QuotedAttribute(s, e + 1 + |a.right|, a);
    EndsName(0x3D);
    EndsName(a.quote);
    NameFound(s, p, a.name);
    BlanksEnd(s, p + |a.name|, a.left);
    BlanksEnd(s, e + 1, a.right);
    NameInside(s, p, a.name);
  }

  lemma NameInside(s: Str, p: nat, name: Str)
    requires At(s, p, name) && ValidName(name)
    ensures p < |s| && IsNameStartChar(s[p])
  {
    FirstByte(s, p, name);
  }

  lemma NotZero(a: LaidAttribute, behind: Str)
    requires Blanks(a.left) && behind != [] && behind[0] != 0
    ensures (a.left + behind)[0] != 0
  {
    if a.left != [] { assert (a.left + behind)[0] == a.left[0]; }
  }

  lemma LaidAttributeRead(s: Str, p: nat, tag: Tag, a: LaidAttribute)
    requires At(s, p, a.lead) && At(s, p + |a.lead|, BodyText(a)) && AttributeLaid(a)
    requires ValidName(a.name) && Plain(a.value) && !HasAttribute(tag.attributes, a.name)
    ensures p + |a.lead| + |BodyText(a)| <= |s|
    ensures ParseAttributes(s, p, tag)
      == ParseAttributes(s, p + |a.lead| + |BodyText(a)|, tag.(attributes := tag.attributes + [AttributeOf(a)]))
  {
    hide ParseAttribute, BodyText, IsNameStartChar, SkipWhiteSpace, ValidName, Plain;
    var q := p + |a.lead|;
    LaidAttributeParses(s, q, a);
    NotInNames();
    BlanksEnd(s, p, a.lead);
  }

  lemma FirstOfAttributes(rest: seq<LaidAttribute>)
    requires rest != []
    ensures AttributesOf(rest) == [AttributeOf(rest[0])] + AttributesOf(rest[1..])
  {
  }

  lemma {:induction false} LaidAttributesParse(s: Str, p: nat, tag: Tag, rest: seq<LaidAttribute>)
    requires At(s, p, AttributesText(rest)) && AttributesFit(tag.attributes + AttributesOf(rest))
    requires forall i :: 0 <= i < |rest| ==> AttributeLaid(rest[i])
    ensures p + |AttributesText(rest)| <= |s|
    ensures ParseAttributes(s, p, tag)
      == ParseAttributes(s, p + |AttributesText(rest)|, tag.(attributes := tag.attributes + AttributesOf(rest)))
    decreases |rest|
  {
    hide BodyText, AttributesFit, ParseAttributes, AttributeLaid, AttributesOf, At;
    if rest == [] {
      assert AttributesText(rest) == [] && |AttributesOf(rest)| == 0 by { NoAttributesThere(rest); }
      assert tag.attributes + AttributesOf(rest) == tag.attributes;
      assert p <= |s| by { InBounds(s, p, []); }
    } else {
      var (a, b) := (rest[0], tag.attributes + [AttributeOf(rest[0])]);
      FirstOfAttributes(rest);
      Reassociate(tag.attributes, [AttributeOf(a)], AttributesOf(rest[1..]));
      AtSplit(s, p, a.lead, BodyText(a) + AttributesText(rest[1..]));
      AtSplit(s, p + |a.lead|, BodyText(a), AttributesText(rest[1..]));
      FitsAt(tag.attributes, AttributesOf(rest));
      LaidAttributeRead(s, p, tag, a);
      LaidAttributesParse(s, p + |a.lead| + |BodyText(a)|, tag.(attributes := b), rest[1..]);
    }
  }

  lemma NoAttributesThere(rest: seq<LaidAttribute>)
    requires rest == []
    ensures AttributesOf(rest) == []
  {
  }

  lemma InBounds(s: Str, p: nat, w: Str)
    requires At(s, p, w)
    ensures p + |w| <= |s|
  {
  }

  // ---------- tags ----------

  lemma LaidTagEnds(s: Str, p: nat, tag: Tag, trail: Str, end: Str)
    requires At(s, p, trail) && At(s, p + |trail|, end) && Blanks(trail) && (end == [0x3E] || end == [0x2F, 0x3E])
    ensures p <= |s|
    ensures ParseAttributes(s, p, tag) == Good(if end == [0x3E] then tag else tag.(closing := Closed), p + |trail| + |end|)
  {
    hide ParseAttribute, SkipWhiteSpace;
    var q := p + |trail|;
    FirstByte(s, q, end);
    if |end| == 2 { assert s[q..q + 2][1] == s[q + 1]; }
    EndsName(s[q]);
    BlanksEnd(s, p, trail);
    NotInNames();
  }

  lemma AfterLaidName(n: Laid)
    requires n.LaidElement? && AttributesLaid(n.attributes) && Blanks(n.trail)
    ensures var rest := AttributesText(n.attributes) + (n.trail + TagEnd(n)); rest != [] && !IsNameChar(rest[0])
  {
    hide BodyText, IsNameChar;
    EndsName(0x2F);
    EndsName(0x3E);
    BlanksEndName(n.trail, TagEnd(n));
    if n.attributes != [] {
      var lead := n.attributes[0].lead;
      assert AttributeLaid(n.attributes[0]);
      EndsName(lead[0]);
      assert (AttributesText(n.attributes) + (n.trail + TagEnd(n)))[0] == lead[0];
    } else {
      assert [] + (n.trail + TagEnd(n)) == n.trail + TagEnd(n);
    }
  }

  /** Where the parts of a start tag stand. */
  lemma TagDivided(s: Str, p: nat, n: Laid)
    requires n.LaidElement? && At(s, p, TagText(n)) && AttributesLaid(n.attributes) && Blanks(n.trail)
    ensures var q := p + |n.inner|;
      var end := q + |n.name|;
      var trail := end + |AttributesText(n.attributes)|;
      && At(s, p, n.inner) && At(s, q, n.name) && At(s, end, AttributesText(n.attributes))
      && At(s, trail, n.trail) && At(s, trail + |n.trail|, TagEnd(n)) && end < |s| && !IsNameChar(s[end])
      && p + |TagText(n)| == trail + |n.trail| + |TagEnd(n)|
  {
    hide At, AttributesText, IsNameChar, Blanks, TagEnd, AttributesLaid;
    var (q, attributes) := (p + |n.inner|, AttributesText(n.attributes));
    var rest := attributes + (n.trail + TagEnd(n));
    AtSplit(s, p, n.inner, n.name + rest);
    AtSplit(s, q, n.name, rest);
    var end := q + |n.name|;
    AtSplit(s, end, attributes, n.trail + TagEnd(n));
    AtSplit(s, end + |attributes|, n.trail, TagEnd(n));
    AfterLaidName(n);
    FirstByte(s, end, rest);
  }

  /** A start tag with blanks in it. */
  lemma LaidTagParses(s: Str, p: nat, n: Laid)
    requires n.LaidElement? && At(s, p, TagText(n)) && ValidName(n.name) && AttributesFit(AttributesOf(n.attributes))
    requires Blanks(n.inner) && AttributesLaid(n.attributes) && Blanks(n.trail)
    ensures p <= |s|
    ensures ParseTag(s, p)
      == Good(Tag(n.name, AttributesOf(n.attributes), if n.short then Closed else Open), p + |TagText(n)|)
  {
    hide At, TagText, AttributesText, AttributesFit, ParseAttributes, IsNameStartChar, IsNameChar, SkipWhiteSpace, Blanks, TagEnd,
         AttributesLaid, AttributesOf, ValidName;
    TagDivided(s, p, n);
    var (q, end) := (p + |n.inner|, p + |n.inner| + |n.name|);
    NotInNames();
    NameFound(s, q, n.name);
    NameInside(s, q, n.name);
    BlanksEnd(s, p, n.inner);
    InBounds(s, p, n.inner);
    assert [] + AttributesOf(n.attributes) == AttributesOf(n.attributes);
    AllLaid(n.attributes);
    LaidAttributesParse(s, end, Tag(n.name, [], Open), n.attributes);
    TagEndIs(n);
    LaidTagEnds(s, end + |AttributesText(n.attributes)|, Tag(n.name, AttributesOf(n.attributes), Open), n.trail, TagEnd(n));
  }

  lemma AllLaid(attributes: seq<LaidAttribute>)
    requires AttributesLaid(attributes)
    ensures forall i :: 0 <= i < |attributes| ==> AttributeLaid(attributes[i])
  {
  }

  lemma TagEndIs(n: Laid)
    requires n.LaidElement?
    ensures TagEnd(n) == if n.short then [0x2F, 0x3E] else [0x3E]
  {
  }

  /** Where the parts of an end tag stand. */
  lemma CloseDivided(s: Str, p: nat, n: Laid)
    requires n.LaidElement? && At(s, p, CloseText(n)) && Blanks(n.closeTrail)
    ensures var q := p + |n.closeInner|; var end := q + 1 + |n.name|;
      && At(s, p, n.closeInner) && q < |s| && s[q] == 0x2F && At(s, q + 1, n.name)
      && At(s, end, n.closeTrail + [0x3E]) && At(s, end, n.closeTrail) && At(s, end + |n.closeTrail|, [0x3E])
      && end < |s| && !IsNameChar(s[end])
  {
    hide At, Blanks, IsNameChar;
    var (q, rest) := (p + |n.closeInner|, n.closeTrail + [0x3E]);
    AtSplit(s, p, n.closeInner, [0x2F] + (n.name + rest));
    AtFirst(s, q, 0x2F, n.name + rest);
    AtSplit(s, q + 1, n.name, rest);
    var end := q + 1 + |n.name|;
    AtSplit(s, end, n.closeTrail, [0x3E]);
    EndsName(0x3E);
    BlanksEndName(n.closeTrail, [0x3E]);
    FirstByte(s, end, rest);
  }

  /** An end tag with blanks in it. */
  lemma LaidCloseParses(s: Str, p: nat, n: Laid)
    requires n.LaidElement? && At(s, p, CloseText(n)) && ValidName(n.name) && Blanks(n.closeInner) && Blanks(n.closeTrail)
    ensures p <= |s| && ParseTag(s, p) == Good(Tag(n.name, [], ClosingTag), p + |CloseText(n)|)
  {
    hide At, ParseAttributes, IsNameStartChar, IsNameChar, SkipWhiteSpace, Blanks, ValidName;
    var q := p + |n.closeInner|;
    var end := q + 1 + |n.name|;
    CloseDivided(s, p, n);
    EndsName(0x2F);
    NotInNames();
    NameFound(s, q + 1, n.name);
    NameInside(s, q + 1, n.name);
    BlanksEnd(s, p, n.closeInner);
    InBounds(s, p, n.closeInner);
    LaidTagEnds(s, end, Tag(n.name, [], ClosingTag), n.closeTrail, [0x3E]);
  }

  // ---------- nodes ----------

  /** In front of markup, blanks make no difference. */
  lemma BehindBlanks(s: Str, p: nat, w: Str, top: bool, before: seq<Node>)
    requires At(s, p, w) && Blanks(w) && p + |w| < |s| && s[p + |w|] == LT
    ensures ParseNode(s, p, top, before) == ParseNode(s, p + |w|, top, before)
  {
    hide ReadDeclaration, ReadComment, ReadCData, ReadUnknown, ReadElement, OnlyDeclarations, SkipWhiteSpace;
    EndsName(0x3C);
    BlanksEnd(s, p, w);
    SkipNone(s, p + |w|);
  }

  /** The first byte of a tag tells an element from other markup. */
  lemma TagStarts(n: Laid)
    requires n.LaidElement? && Blanks(n.inner) && ValidName(n.name)
    ensures TagText(n) != [] && TagText(n)[0] != BANG && TagText(n)[0] != QUESTION && TagText(n)[0] != 0
  {
    hide AttributesText, TagEnd;
    if n.inner != [] { assert TagText(n)[0] == n.inner[0]; } else { assert TagText(n)[0] == n.name[0]; }
  }

  lemma CloseStarts(n: Laid)
    requires n.LaidElement? && Blanks(n.closeInner)
    ensures CloseText(n) != [] && CloseText(n)[0] != BANG && CloseText(n)[0] != QUESTION && CloseText(n)[0] != 0
  {
    if n.closeInner != [] { assert CloseText(n)[0] == n.closeInner[0]; } else { assert CloseText(n)[0] == 0x2F; }
  }

  lemma ElementParts(n: Laid)
    requires n.LaidElement?
    ensures LaidText(n) == n.lead + ([LT] + (TagText(n) + ContentText(n)))
  {
    hide TagText, ContentText;
  }

  lemma ElementOut(n: Laid)
    requires n.LaidElement? && LaidOut(n) && Printable(TreeOf(n))
    ensures Blanks(n.lead) && Blanks(n.inner) && AttributesLaid(n.attributes) && Blanks(n.trail) && Blanks(n.last)
    ensures Blanks(n.closeInner) && Blanks(n.closeTrail) && (n.short ==> n.children == []) && LaidAround(n.children)
    ensures n.children != [] && IsText(n.children[|n.children| - 1]) ==> n.last == []
    ensures forall i :: 0 <= i < |n.children| ==> LaidOut(n.children[i]) && Printable(TreeOf(n.children[i]))
    ensures ValidName(n.name) && AttributesFit(AttributesOf(n.attributes))
    ensures NoAdjacentTexts(TreesOf(n.children)) && DeclarationsFirst(TreesOf(n.children), false)
    ensures TreeOf(n) == Element(n.name, AttributesOf(n.attributes), TreesOf(n.children))
  {
    hide Blanks, AttributesLaid, LaidAround, ValidName, AttributesFit, AttributesOf, NoAdjacentTexts;
    var trees := TreesOf(n.children);
    assert forall i :: 0 <= i < |n.children| ==> trees[i] == TreeOf(n.children[i]);
    assert forall i :: 0 <= i < |trees| ==> !trees[i].Declaration? && Printable(trees[i]);
  }

  /** What the text of a node starts with. */
  lemma LaidStarts(n: Laid)
    requires LaidOut(n) && Printable(TreeOf(n))
    ensures LaidText(n) != [] && LaidText(n)[0] != 0
    ensures n.lead == [] && !IsText(n) ==> |LaidText(n)| > 1 && LaidText(n)[0] == LT && LaidText(n)[1] != 0
  {
    hide Printable, Print, TagText, ContentText;
    if n.LaidElement? {
      ElementOut(n);
      TagStarts(n);
      assert n.lead == [] ==> LaidText(n) == [LT] + (TagText(n) + ContentText(n));
      assert n.lead == [] ==> LaidText(n)[1] == TagText(n)[0];
    } else {
      PrintStarts(n.node);
      assert n.lead == [] ==> LaidText(n) == Print(n.node);
    }
    if n.lead != [] { assert LaidText(n)[0] == n.lead[0]; }
  }

  lemma LaidNodeParses(s: Str, p: nat, n: Laid, top: bool, before: seq<Node>)
    requires LaidOut(n) && Printable(TreeOf(n)) && At(s, p, LaidText(n)) && (IsText(n) ==> n.lead == [])
    requires TreeOf(n).Declaration? ==> top && OnlyDeclarations(before)
    requires IsText(n) ==> FollowedByMarkup(s, p + |LaidText(n)|)
    ensures p <= |s| && ParseNode(s, p, top, before) == Item(TreeOf(n), p + |LaidText(n)|)
    decreases n, 2
  {
    hide ParseNode, OnlyDeclarations, Printable, Print, TagText, ContentText;
    InBounds(s, p, LaidText(n));
    if n.LaidElement? {
      LaidElementParses(s, p, n, top, before);
    } else if IsText(n) {
      assert LaidText(n) == Print(n.node);
      NodeParses(s, p, n.node, top, before);
    } else {
      AtSplit(s, p, n.lead, Print(n.node));
      PrintStarts(n.node);
      FirstByte(s, p + |n.lead|, Print(n.node));
      BehindBlanks(s, p, n.lead, top, before);
      NodeParses(s, p + |n.lead|, n.node, top, before);
    }
  }

  lemma LaidElementParses(s: Str, p: nat, n: Laid, top: bool, before: seq<Node>)
    requires n.LaidElement? && LaidOut(n) && Printable(TreeOf(n)) && At(s, p, LaidText(n))
    ensures p <= |s| && ParseNode(s, p, top, before) == Item(TreeOf(n), p + |LaidText(n)|)
    decreases n, 1
  {
    hide At, LaidOut, Printable, TagText, ContentText, ParseTag, ParseElement, ParseNode, Blanks, AttributesLaid, ValidName,
         AttributesFit, AttributesOf, TreesOf, LaidAround, NoAdjacentTexts, DeclarationsFirst;
    ElementOut(n);
    ElementParts(n);
    InBounds(s, p, LaidText(n));
    var q := p + |n.lead|;
    AtSplit(s, p, n.lead, [LT] + (TagText(n) + ContentText(n)));
    AtFirst(s, q, LT, TagText(n) + ContentText(n));
    AtSplit(s, q + 1, TagText(n), ContentText(n));
    TagStarts(n);
    FirstByte(s, q + 1, TagText(n));
    BehindBlanks(s, p, n.lead, top, before);
    Identify(s, q, top, before);
    LaidTagParses(s, q + 1, n);
    LaidContentParses(s, q + 1 + |TagText(n)|, n);
    ElementRead(s, q, n);
  }

  /** A start tag and the content behind it make the element. */
  lemma ElementRead(s: Str, q: nat, n: Laid)
    requires n.LaidElement? && q < |s| && q + 1 + |TagText(n)| <= |s|
    requires ParseTag(s, q + 1)
      == Good(Tag(n.name, AttributesOf(n.attributes), if n.short then Closed else Open), q + 1 + |TagText(n)|)
    requires ParseElement(s, Tag(n.name, AttributesOf(n.attributes), if n.short then Closed else Open), q + 1 + |TagText(n)|)
      == Item(TreeOf(n), q + 1 + |TagText(n)| + |ContentText(n)|)
    ensures ReadElement(s, q) == Item(TreeOf(n), q + 1 + |TagText(n)| + |ContentText(n)|)
  {
    hide ParseTag, ParseElement, TagText, ContentText, TreeOf, AttributesOf;
  }

  lemma LaidContentParses(s: Str, p: nat, n: Laid)
    requires n.LaidElement? && LaidOut(n) && Printable(TreeOf(n)) && At(s, p, ContentText(n))
    ensures p <= |s|
    ensures ParseElement(s, Tag(n.name, AttributesOf(n.attributes), if n.short then Closed else Open), p)
      == Item(TreeOf(n), p + |ContentText(n)|)
    decreases n, 0
  {
    hide At, LaidOut, Printable, ParseNodes, LaidAll, CloseText, Blanks, AttributesLaid, ValidName, AttributesFit, LaidAround,
         NoAdjacentTexts, DeclarationsFirst, FollowedByMarkup, IsText, AttributesOf;
    ElementOut(n);
    InBounds(s, p, ContentText(n));
    if !n.short {
      var (body, close) := (LaidAll(n.children), [LT] + CloseText(n));
      var q := p + |body|;
      AtSplit(s, p, body, n.last + close);
      AtSplit(s, q, n.last, close);
      AtFirst(s, q + |n.last|, LT, CloseText(n));
      CloseStarts(n);
      FirstByte(s, q + |n.last| + 1, CloseText(n));
      if n.last == [] { MarkupThere(s, q); }
      assert n.children[0..] == n.children && TreesOf(n.children)[..0] == [];
      LaidChildrenParse(s, p, n, 0, false);
      LaidEndTagFound(s, q, n, TreesOf(n.children));
      ContentNotEmpty(s, p, n);
    }
  }

  lemma MarkupThere(s: Str, q: nat)
    requires q + 1 < |s| && s[q] == LT && s[q + 1] != 0
    ensures FollowedByMarkup(s, q)
  {
  }

  lemma ContentNotEmpty(s: Str, p: nat, n: Laid)
    requires n.LaidElement? && !n.short && At(s, p, ContentText(n)) && Blanks(n.last)
    requires forall i :: 0 <= i < |n.children| ==> LaidOut(n.children[i]) && Printable(TreeOf(n.children[i]))
    ensures CharAt(s, p) != 0
  {
    hide LaidOut, Printable, CloseText, LaidText;
    var close := [0x3C] + CloseText(n);
    FirstByte(s, p, ContentText(n));
    if n.children != [] {
      LaidStarts(n.children[0]);
      assert ContentText(n)[0] == LaidAll(n.children)[0] == LaidText(n.children[0])[0];
    } else if n.last != [] {
      assert ContentText(n)[0] == n.last[0];
    }
  }

  lemma LaidEndTagFound(s: Str, q: nat, n: Laid, before: seq<Node>)
    requires n.LaidElement? && Blanks(n.last) && Blanks(n.closeInner) && Blanks(n.closeTrail) && ValidName(n.name)
    requires At(s, q, n.last) && At(s, q + |n.last|, [LT] + CloseText(n))
    ensures q <= |s|
    ensures ParseNodes(s, q, false, before) == AtEndTag(before, n.name, q + |n.last| + 1 + |CloseText(n)|)
  {
    hide At, CloseText, ParseTag, ParseNode, ValidName;
    var r := q + |n.last|;
    AtFirst(s, r, LT, CloseText(n));
    CloseStarts(n);
    FirstByte(s, r + 1, CloseText(n));
    BehindBlanks(s, q, n.last, false, before);
    Identify(s, r, false, before);
    LaidCloseParses(s, r + 1, n);
    if n.last != [] { FirstByte(s, q, n.last); }
  }

  // ---------- lists of nodes ----------

  lemma LaidMarkupFollows(s: Str, p: nat, nodes: seq<Laid>, i: nat)
    requires i + 1 < |nodes| && IsText(nodes[i]) && LaidAround(nodes) && NoAdjacentTexts(TreesOf(nodes))
    requires forall k :: 0 <= k < |nodes| ==> LaidOut(nodes[k]) && Printable(TreeOf(nodes[k]))
    requires At(s, p, LaidAll(nodes[i + 1..]))
    ensures FollowedByMarkup(s, p)
  {
    hide LaidText, Printable, LaidOut;
    var (n, trees) := (nodes[i + 1], TreesOf(nodes));
    assert trees[i] == nodes[i].node && trees[i + 1] == TreeOf(n);
    assert !(PlainText(trees[i]) && PlainText(trees[i + 1]));
    assert nodes[i + 1..][0] == n;
    AtSplit(s, p, LaidText(n), LaidAll(nodes[i + 1..][1..]));
    LaidStarts(n);
    assert s[p..p + |LaidText(n)|][0] == s[p] && s[p..p + |LaidText(n)|][1] == s[p + 1];
  }

  lemma OneLaidNode(s: Str, p: nat, n: Laid, top: bool, before: seq<Node>)
    requires p <= |s| && LaidOut(n) && Printable(TreeOf(n)) && At(s, p, LaidText(n))
    requires ParseNode(s, p, top, before) == Item(TreeOf(n), p + |LaidText(n)|)
    ensures p + |LaidText(n)| <= |s|
    ensures ParseNodes(s, p, top, before) == ParseNodes(s, p + |LaidText(n)|, top, before + [TreeOf(n)])
  {
    hide LaidText, ParseNode, Printable, LaidOut;
    LaidStarts(n);
    FirstByte(s, p, LaidText(n));
  }

  /** The node at i of a list is read, and what follows it is the rest of the list. */
  lemma LaidStep(s: Str, p: nat, parent: Laid, i: nat, top: bool)
    requires parent.LaidElement? && i < |parent.children| && LaidAround(parent.children)
    requires forall k :: 0 <= k < |parent.children| ==> LaidOut(parent.children[k]) && Printable(TreeOf(parent.children[k]))
    requires NoAdjacentTexts(TreesOf(parent.children)) && DeclarationsFirst(TreesOf(parent.children), top)
    requires At(s, p, LaidAll(parent.children[i..]))
    requires i + 1 == |parent.children| && IsText(parent.children[i]) ==> FollowedByMarkup(s, p + |LaidText(parent.children[i])|)
    ensures var (n, trees) := (parent.children[i], TreesOf(parent.children));
      var next := p + |LaidText(n)|;
      && p <= next <= |s| && At(s, next, LaidAll(parent.children[i + 1..]))
      && ParseNodes(s, p, top, trees[..i]) == ParseNodes(s, next, top, trees[..i + 1])
    decreases parent, 0, 0
  {
    hide At, LaidText, LaidOut, Printable, ParseNode, NoAdjacentTexts, DeclarationsFirst, ParseNodes, LaidAround, TreeOf,
         FollowedByMarkup, IsText;
    var (nodes, trees) := (parent.children, TreesOf(parent.children));
    var n := nodes[i];
    var next := p + |LaidText(n)|;
    InBounds(s, p, LaidAll(nodes[i..]));
    assert nodes[i..][0] == n && nodes[i..][1..] == nodes[i + 1..] && trees[..i] + [trees[i]] == trees[..i + 1];
    AtSplit(s, p, LaidText(n), LaidAll(nodes[i + 1..]));
    DeclarationFits(trees, i, top);
    if IsText(n) {
      NoLeadAt(nodes, i);
      if i + 1 < |nodes| { LaidMarkupFollows(s, next, nodes, i); }
    }
    LaidNodeParses(s, p, n, top, trees[..i]);
    OneLaidNode(s, p, n, top, trees[..i]);
  }

  /** The children of an element, or, with a nameless parent, the nodes of a document. */
  lemma {:induction false} LaidChildrenParse(s: Str, p: nat, parent: Laid, i: nat, top: bool)
    requires parent.LaidElement? && i <= |parent.children| && LaidAround(parent.children)
    requires forall k :: 0 <= k < |parent.children| ==> LaidOut(parent.children[k]) && Printable(TreeOf(parent.children[k]))
    requires NoAdjacentTexts(TreesOf(parent.children)) && DeclarationsFirst(TreesOf(parent.children), top)
    requires At(s, p, LaidAll(parent.children[i..]))
    requires parent.children != [] && IsText(parent.children[|parent.children| - 1]) ==>
      FollowedByMarkup(s, p + |LaidAll(parent.children[i..])|)
    ensures p + |LaidAll(parent.children[i..])| <= |s|
    ensures ParseNodes(s, p, top, TreesOf(parent.children)[..i])
      == ParseNodes(s, p + |LaidAll(parent.children[i..])|, top, TreesOf(parent.children))
    decreases parent, 0, |parent.children| - i + 1
  {
    hide At, LaidText, LaidOut, Printable, ParseNode, NoAdjacentTexts, DeclarationsFirst, ParseNodes, LaidAround, TreeOf,
         FollowedByMarkup, IsText;
    var (nodes, trees) := (parent.children, TreesOf(parent.children));
    InBounds(s, p, LaidAll(nodes[i..]));
    if i == |nodes| {
      assert nodes[i..] == [] && trees[..i] == trees;
    } else {
      assert nodes[i..][0] == nodes[i] && nodes[i..][1..] == nodes[i + 1..];
      if i + 1 == |nodes| { assert nodes[i + 1..] == []; }
      LaidStep(s, p, parent, i, top);
      LaidChildrenParse(s, p + |LaidText(nodes[i])|, parent, i + 1, top);
    }
  }

  lemma NoLeadAt(nodes: seq<Laid>, i: nat)
    requires i < |nodes| && LaidAround(nodes) && IsText(nodes[i])
    ensures nodes[i].lead == []
  {
  }

  // ---------- documents ----------

  /** Markup that is laid out starts with its blanks, and then with '<'. */
  lemma MarkupBehindLead(s: Str, p: nat, n: Laid)
    requires LaidOut(n) && Printable(TreeOf(n)) && !IsText(n) && At(s, p, LaidText(n))
    ensures Blanks(n.lead) && At(s, p, n.lead) && p + |n.lead| < |s| && s[p + |n.lead|] == LT
  {
    hide Printable, Print, TagText, ContentText;
    if n.LaidElement? {
      ElementParts(n);
      AtSplit(s, p, n.lead, [LT] + (TagText(n) + ContentText(n)));
      AtFirst(s, p + |n.lead|, LT, TagText(n) + ContentText(n));
    } else {
      PrintStarts(n.node);
      AtSplit(s, p, n.lead, Print(n.node));
      FirstByte(s, p + |n.lead|, Print(n.node));
    }
  }

  /** A list of nodes that starts with markup may be read from behind the blanks. */
  lemma NodesBehindBlanks(s: Str, p: nat, w: Str, top: bool)
    requires At(s, p, w) && Blanks(w) && p + |w| < |s| && s[p + |w|] == LT
    ensures ParseNodes(s, p, top, []) == ParseNodes(s, p + |w|, top, [])
  {
    hide ParseNode;
    BehindBlanks(s, p, w, top, []);
    if w != [] { FirstByte(s, p, w); }
  }

  lemma NoMark(s: Str, p: nat)
    requires p < |s| && s[p] == LT
    ensures !At(s, p, BOM) && !IsSpace(s[p])
  {
    ByteInside(s, p, BOM, 0);
  }

  /** From its leading blanks on, a document is the list of its nodes. */
  lemma DocumentIsNodes(s: Str, lead: Str, bom: bool, n: Laid)
    requires Blanks(lead) && At(s, 0, lead) && LaidOut(n) && Printable(TreeOf(n)) && !IsText(n)
    requires bom ==> At(s, |lead|, BOM)
    requires var q := |lead| + if bom then 3 else 0; At(s, q, LaidText(n))
    ensures var q := |lead| + if bom then 3 else 0;
      q <= |s| && ParseDocument(s) ==
        match ParseNodes(s, q, true, [])
        case Failed(e) => Bad(e)
        case AtEnd(nodes) => Good(Document(bom, nodes), |s|)
        case AtEndTag(nodes, _, pos) => Good(Document(bom, nodes), pos)
  {
    hide ParseNodes, LaidText, LaidOut, Printable, Blanks, SkipWhiteSpace;
    var q := |lead| + if bom then 3 else 0;
    MarkupBehindLead(s, q, n);
    NoMark(s, q + |n.lead|);
    NodesBehindBlanks(s, q, n.lead, true);
    FirstIsNoNul(s, q, n);
    if bom {
      FirstByte(s, |lead|, BOM);
      BlanksEnd(s, 0, lead);
      if lead != [] { NoNul(lead, s); }
    } else {
      BlanksAreSkipped(s, 0, lead);
      BlanksEnd(s, q, n.lead);
      if lead != [] { NoNul(lead, s); }
    }
  }

  lemma FirstIsNoNul(s: Str, q: nat, n: Laid)
    requires LaidOut(n) && Printable(TreeOf(n)) && At(s, q, LaidText(n))
    ensures CharAt(s, q) != 0
  {
    LaidStarts(n);
    FirstByte(s, q, LaidText(n));
  }

  lemma NoNul(lead: Str, s: Str)
    requires lead != [] && Blanks(lead) && At(s, 0, lead)
    ensures CharAt(s, 0) != 0
  {
    FirstByte(s, 0, lead);
  }

  /** Where the parts of a document stand. */
  lemma DocumentDivided(d: LaidDocument)
    ensures var (s, q) := (LayoutText(d), |d.lead| + if d.bom then 3 else 0);
      && At(s, 0, d.lead) && (d.bom ==> At(s, |d.lead|, BOM)) && At(s, q, LaidAll(d.nodes))
      && At(s, q + |LaidAll(d.nodes)|, d.trail) && |s| == q + |LaidAll(d.nodes)| + |d.trail|
  {
    hide LaidAll;
    var s := LayoutText(d);
    var (bom, body) := (if d.bom then BOM else [], LaidAll(d.nodes));
    assert s[0..|s|] == s;
    AtSplit(s, 0, d.lead, bom + (body + d.trail));
    AtSplit(s, |d.lead|, bom, body + d.trail);
    AtSplit(s, |d.lead| + |bom|, body, d.trail);
  }

  /**
    Blanks before markup, inside tags and around '=', either kind of quotes, and the long form of empty elements make
    no difference: the document is parsed to the same tree as its compact text.
  */
  lemma LayoutIsIrrelevant(d: LaidDocument)
    requires DocumentLaidOut(d) && PrintableDocument(DocumentOf(d))
    ensures ParseDocument(LayoutText(d)) == Good(DocumentOf(d), |LayoutText(d)|)
    ensures ParseDocument(PrintDocument(DocumentOf(d))) == Good(DocumentOf(d), |PrintDocument(DocumentOf(d))|)
  {
    hide LaidText, LaidOut, Printable, ParseNodes, TreeOf, ParseDocument, At, LayoutText;
    ParseInvertsPrint(DocumentOf(d));
    var s := LayoutText(d);
    var (body, q) := (LaidAll(d.nodes), |d.lead| + if d.bom then 3 else 0);
    DocumentDivided(d);
    var trees := TreesOf(d.nodes);
    assert forall i :: 0 <= i < |trees| ==> trees[i] == TreeOf(d.nodes[i]) && Printable(trees[i]) && !PlainText(trees[i]);
    NoTextsAround(d.nodes);
    AtSplit(s, q, LaidText(d.nodes[0]), LaidAll(d.nodes[1..]));
    DocumentIsNodes(s, d.lead, d.bom, d.nodes[0]);
    var parent := LaidElement([], [], [], [], [], false, d.nodes, [], [], []);
    assert parent.children[0..] == d.nodes && trees[..0] == [];
    LaidChildrenParse(s, q, parent, 0, true);
    TrailEnds(s, q + |body|, d.trail, trees);
  }

  lemma NoTextsAround(nodes: seq<Laid>)
    requires forall i :: 0 <= i < |nodes| ==> !PlainText(TreeOf(nodes[i]))
    ensures LaidAround(nodes) && NoAdjacentTexts(TreesOf(nodes)) && forall i :: 0 <= i < |nodes| ==> !IsText(nodes[i])
  {
    forall i | 0 <= i < |nodes| ensures !IsText(nodes[i]) { assert !PlainText(TreeOf(nodes[i])); }
  }

  lemma TrailEnds(s: Str, p: nat, trail: Str, before: seq<Node>)
    requires At(s, p, trail) && Blanks(trail) && p + |trail| == |s|
    ensures ParseNodes(s, p, true, before) == AtEnd(before)
  {
    BlanksEnd(s, p, trail);
  }

  // ---------- bytes spelled out ----------

  lemma MarksSpelled()
    ensures DECLARATION_HEAD == Ascii("<?") && DECLARATION_TAIL == Ascii("?>")
    ensures COMMENT_HEAD == Ascii("<!--") && COMMENT_TAIL == Ascii("-->")
    ensures CDATA_HEAD == Ascii("<![CDATA[") && CDATA_TAIL == Ascii("]]>")
    ensures UNKNOWN_HEAD == Ascii("<!") && UNKNOWN_TAIL == Ascii(">")
    ensures BOM == [0xEF, 0xBB, 0xBF]
  {
  }

  predicate StartsNames(c: byte) {
    c as int >= 128 || 'A' <= c as char <= 'Z' || 'a' <= c as char <= 'z' || c as char == ':' || c as char == '_'
  }

  /** The first byte of a name is a letter, a colon, an underscore or not ASCII. */
  lemma NameStartsAreRead(c: byte)
    ensures ParseTag([c] + Ascii("/>"), 0) == Good(Tag([c], [], Closed), 3) <==> StartsNames(c)
  {
    hide ParseAttribute;
    var s := [c] + Ascii("/>");
    assert s == [c, 0x2F, 0x3E] && s[0..1] == [c];
    assert IsNameStartChar(c) <==> StartsNames(c);
    EndsName(0x2F);
    if IsNameStartChar(c) { NotInNames(); assert NameEnd(s, 1) == 1 && SkipWhiteSpace(s, 0) == 0; }
    OneByteTag(s, 1, Tag([c], [], Open));
  }

  /** The bytes behind it may be digits, dots and hyphens, too. */
  lemma NameBytesAreRead(c: byte)
    ensures ParseTag(Ascii("a") + [c] + Ascii("/>"), 0) == Good(Tag(Ascii("a") + [c], [], Closed), 4) <==>
      StartsNames(c) || '0' <= c as char <= '9' || c as char == '.' || c as char == '-'
  {
    hide ParseAttribute, ParseAttributes;
    var t := Ascii("a") + [c] + Ascii("/>");
    assert t == [0x61, c, 0x2F, 0x3E] && Ascii("a") + [c] == [0x61, c] && t[0..2] == [0x61, c] && t[0..1] == [0x61];
    assert IsNameStartChar(c) <==> StartsNames(c);
    EndsName(0x2F);
    assert SkipWhiteSpace(t, 0) == 0;
    if IsNameChar(c) {
      assert NameEnd(t, 2) == 2 && NameEnd(t, 1) == 2;
      OneByteTag(t, 2, Tag([0x61, c], [], Open));
    } else {
      assert NameEnd(t, 1) == 1;
      NameStays(t, 1, Tag([0x61], [], Open));
    }
  }

  lemma OneByteTag(s: Str, p: nat, tag: Tag)
    requires p + 2 == |s| && s[p] == 0x2F && s[p + 1] == 0x3E
    ensures ParseAttributes(s, p, tag) == Good(tag.(closing := Closed), p + 2)
  {
    EndsName(0x2F);
    NotInNames();
    SkipNone(s, p);
  }

  /** The attributes do not change the name. */
  lemma {:induction false} NameStays(s: Str, p: nat, tag: Tag)
    requires p <= |s|
    ensures ParseAttributes(s, p, tag).Good? ==> ParseAttributes(s, p, tag).value.name == tag.name
    decreases |s| - p
  {
    var q := SkipWhiteSpace(s, p);
    if q < |s| && IsNameStartChar(s[q]) {
      var a := ParseAttribute(s, q);
      if a.Good? { NameStays(s, a.pos, tag.(attributes := tag.attributes + [a.value])); }
    }
  }
}
