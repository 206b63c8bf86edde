/** XML documents as trees, what the compact printer writes for them, and what the parser reads. */
module XmlDocuments {
  import opened Bytes
  import opened Decimals
  import opened XmlText

  const BANG: byte := 0x21
  const EQUALS: byte := 0x3D
  const QUESTION: byte := 0x3F

  const DECLARATION_HEAD: Str := [LT, QUESTION]
  const COMMENT_HEAD: Str := [LT, BANG, MINUS, MINUS]
  const CDATA_HEAD: Str := [LT, BANG, 0x5B, 0x43, 0x44, 0x41, 0x54, 0x41, 0x5B]
  const UNKNOWN_HEAD: Str := [LT, BANG]
  const CLOSING_HEAD: Str := [LT, SLASH]

  const DECLARATION_TAIL: Str := [QUESTION, GT]
  const COMMENT_TAIL: Str := [MINUS, MINUS, GT]
  const CDATA_TAIL: Str := [0x5D, 0x5D, GT]
  const UNKNOWN_TAIL: Str := [GT]
  const EMPTY_TAIL: Str := [SLASH, GT]

  const BOM: Str := [0xEF, 0xBB, 0xBF]

  datatype Attribute = Attribute(name: Str, value: Str)

  datatype Node =
    | Element(name: Str, attributes: seq<Attribute>, children: seq<Node>)
    | Text(value: Str, cdata: bool)
    | Comment(value: Str)
    | Declaration(value: Str)
    | Unknown(value: Str)

  datatype Document = Document(bom: bool, nodes: seq<Node>)

  // ---------- the compact printer ----------

  function PrintAttribute(a: Attribute): Str {
    [SPACE] + a.name + [EQUALS, QUOTE] + Printed(a.value, false) + [QUOTE]
  }

  function PrintAttributes(attributes: seq<Attribute>): Str {
    if attributes == [] then [] else PrintAttribute(attributes[0]) + PrintAttributes(attributes[1..])
  }

  function OpenTag(n: Node): Str
    requires n.Element?
  {
    [LT] + n.name + PrintAttributes(n.attributes)
  }

  function Print(n: Node): Str {
    match n
    case Element(name, _, children) =>
      OpenTag(n) + if children == [] then EMPTY_TAIL else [GT] + PrintAll(children) + (CLOSING_HEAD + name + [GT])
    case Text(value, cdata) => if cdata then CDATA_HEAD + value + CDATA_TAIL else Printed(value, true)
    case Comment(value) => COMMENT_HEAD + value + COMMENT_TAIL
    case Declaration(value) => DECLARATION_HEAD + value + DECLARATION_TAIL
    case Unknown(value) => UNKNOWN_HEAD + value + UNKNOWN_TAIL
  }

  function PrintAll(nodes: seq<Node>): Str {
    if nodes == [] then [] else Print(nodes[0]) + PrintAll(nodes[1..])
  }

  function PrintDocument(d: Document): Str {
    (if d.bom then BOM else []) + PrintAll(d.nodes)
  }

  // ---------- the lexical level of the parser ----------

  predicate IsNameStartChar(c: byte) {
    c >= 128 || 0x41 <= c <= 0x5A || 0x61 <= c <= 0x7A || c == COLON || c == 0x5F
  }

  predicate IsNameChar(c: byte) {
    IsNameStartChar(c) || ZERO <= c <= NINE || c == 0x2E || c == MINUS
  }

  function SkipWhiteSpace(s: Str, p: nat): (q: nat)
    requires p <= |s|
    ensures p <= q <= |s|
    decreases |s| - p
  {
    if IsSpace(CharAt(s, p)) then SkipWhiteSpace(s, p + 1) else p
  }

  function NameEnd(s: Str, p: nat): (q: nat)
    requires p <= |s|
    ensures p <= q <= |s|
    decreases |s| - p
  {
    if IsNameChar(CharAt(s, p)) then NameEnd(s, p + 1) else p
  }

  /** Where the first `tag` starts, or -1 when the text ends before. */
  function FindTag(s: Str, p: nat, tag: Str): (k: int)
    ensures k == -1 || (p <= k && At(s, k, tag))
    decreases |s| - p
  {
    if CharAt(s, p) == 0 then -1 else if At(s, p, tag) then p else FindTag(s, p + 1, tag)
  }

  /** The string GetStr returns for a stretch of the text. */
  function Value(s: Str, f: Flags): Str {
    CString(InPlace(s, 0, 0, f))
  }

  /** Comments, CDATA, declarations and unknown nodes keep their references. */
  const RAW: Flags := Flags(false, true)

  // ---------- tags ----------

  datatype XmlError =
    | ParsingElement | ParsingAttribute | ParsingText | ParsingCData | ParsingComment
    | ParsingDeclaration | ParsingUnknown | EmptyDocument | MismatchedElement | Parsing

  datatype Parsed<+T> = Good(value: T, pos: nat) | Bad(error: XmlError)

  /** name = "value" or name = 'value', with the parser's blanks around '='. */
  function ParseAttribute(s: Str, p: nat): (r: Parsed<Attribute>)
    requires p < |s| && IsNameStartChar(s[p])
    ensures r.Good? ==> p < r.pos <= |s|
    ensures r.Bad? ==> r.error == ParsingAttribute
  {
    var n := NameEnd(s, p + 1);
    if CharAt(s, n) == 0 then Bad(ParsingAttribute) else
      var e := SkipWhiteSpace(s, n);
      if CharAt(s, e) != EQUALS then Bad(ParsingAttribute) else
        var v := SkipWhiteSpace(s, e + 1);
        var quote := CharAt(s, v);
        if quote != QUOTE && quote != APOS then Bad(ParsingAttribute) else
          var k := FindTag(s, v + 1, [quote]);
          if k < 0 then Bad(ParsingAttribute)
          else Good(Attribute(s[p..n], Value(s[v + 1..k], TEXT)), k + 1)
  }

  predicate HasAttribute(attributes: seq<Attribute>, name: Str) {
    exists i :: 0 <= i < |attributes| && attributes[i].name == name
  }

  datatype Closing = Open | Closed | ClosingTag

  datatype Tag = Tag(name: Str, attributes: seq<Attribute>, closing: Closing)

  /** The rest of a tag: attributes with distinct names, up to ">" or "/>". */
  function ParseAttributes(s: Str, p: nat, tag: Tag): (r: Parsed<Tag>)
    requires p <= |s|
    ensures r.Good? ==> p < r.pos <= |s|
    decreases |s| - p
  {
    var q := SkipWhiteSpace(s, p);
    if CharAt(s, q) == 0 then Bad(ParsingElement)
    else if IsNameStartChar(s[q]) then
      match ParseAttribute(s, q)
      case Bad(e) => Bad(e)
      case Good(a, next) =>
        if HasAttribute(tag.attributes, a.name) then Bad(ParsingAttribute)
        else ParseAttributes(s, next, tag.(attributes := tag.attributes + [a]))
    else if s[q] == GT then Good(tag, q + 1)
    else if s[q] == SLASH && CharAt(s, q + 1) == GT then Good(tag.(closing := Closed), q + 2)
    else Bad(ParsingElement)
  }

  /** A tag, behind its "<". */
  function ParseTag(s: Str, p: nat): (r: Parsed<Tag>)
    requires p <= |s|
    ensures r.Good? ==> p < r.pos <= |s|
  {
    var q := SkipWhiteSpace(s, p);
    var isClosing := CharAt(s, q) == SLASH;
    var n := if isClosing then q + 1 else q;
    if !IsNameStartChar(CharAt(s, n)) then Bad(Parsing) else
      var end := NameEnd(s, n + 1);
      ParseAttributes(s, end, Tag(s[n..end], [], if isClosing then ClosingTag else Open))
  }

  // ---------- nodes ----------

  /** The list of nodes up to the end of the text, or up to an end tag, which belongs to the parent. */
  datatype Nodes = AtEnd(nodes: seq<Node>) | AtEndTag(nodes: seq<Node>, name: Str, pos: nat) | Failed(error: XmlError)

  datatype Item = Item(node: Node, pos: nat) | EndTag(name: Str, pos: nat) | Nothing | Broken(error: XmlError)

  /** A node between a head of `skip` bytes and a tail. */
  function ParseMarkup(s: Str, p: nat, skip: nat, tail: Str, error: XmlError): (r: Parsed<Str>)
    requires p + skip <= |s| && skip > 0
    ensures r.Good? ==> p < r.pos <= |s|
    ensures r.Bad? ==> r.error == error
  {
    var k := FindTag(s, p + skip, tail);
    if k < 0 then Bad(error) else Good(Value(s[p + skip..k], RAW), k + |tail|)
  }

  function ReadDeclaration(s: Str, p: nat, allowed: bool): (r: Item)
    requires p + 2 <= |s|
    ensures (r.Item? ==> p < r.pos <= |s|) && !r.EndTag?
  {
    match ParseMarkup(s, p, 2, DECLARATION_TAIL, ParsingDeclaration)
    case Bad(e) => Broken(e)
    case Good(value, pos) => if allowed then Item(Declaration(value), pos) else Broken(ParsingDeclaration)
  }

  function ReadComment(s: Str, p: nat): (r: Item)
    requires p + 4 <= |s|
    ensures (r.Item? ==> p < r.pos <= |s|) && !r.EndTag?
  {
    match ParseMarkup(s, p, 4, COMMENT_TAIL, ParsingComment)
    case Bad(e) => Broken(e)
    case Good(value, pos) => Item(Comment(value), pos)
  }

  function ReadCData(s: Str, p: nat): (r: Item)
    requires p + 9 <= |s|
    ensures (r.Item? ==> p < r.pos <= |s|) && !r.EndTag?
  {
    match ParseMarkup(s, p, 9, CDATA_TAIL, ParsingCData)
    case Bad(e) => Broken(e)
    case Good(value, pos) => Item(Text(value, true), pos)
  }

  function ReadUnknown(s: Str, p: nat): (r: Item)
    requires p + 2 <= |s|
    ensures (r.Item? ==> p < r.pos <= |s|) && !r.EndTag?
  {
    match ParseMarkup(s, p, 2, UNKNOWN_TAIL, ParsingUnknown)
    case Bad(e) => Broken(e)
    case Good(value, pos) => Item(Unknown(value), pos)
  }

  /** Plain text keeps its leading blanks; it ends before a '<' that is not the last byte. */
  function ReadText(s: Str, p: nat): (r: Item)
    requires p < |s| && s[p] != LT
    ensures (r.Item? ==> p < r.pos <= |s|) && (r.Item? || r.Broken?)
  {
    var k := FindTag(s, p, [LT]);
    if k < 0 then Broken(ParsingText)
    else if CharAt(s, k + 1) == 0 then Broken(Parsing)
    else Item(Text(Value(s[p..k], TEXT), false), k)
  }

  predicate OnlyDeclarations(nodes: seq<Node>) {
    forall i :: 0 <= i < |nodes| ==> nodes[i].Declaration?
  }

  /** The next node behind `before`; `top` tells whether the parent is the document. */
  function ParseNode(s: Str, p: nat, top: bool, before: seq<Node>): (r: Item)
    requires p <= |s|
    ensures r.Item? ==> p < r.pos <= |s|
    ensures r.EndTag? ==> p < r.pos <= |s|
    decreases |s| - p, 1
  {
    var q := SkipWhiteSpace(s, p);
    if CharAt(s, q) == 0 then Nothing
    else if At(s, q, DECLARATION_HEAD) then ReadDeclaration(s, q, top && OnlyDeclarations(before))
    else if At(s, q, COMMENT_HEAD) then ReadComment(s, q)
    else if At(s, q, CDATA_HEAD) then ReadCData(s, q)
    else if At(s, q, UNKNOWN_HEAD) then ReadUnknown(s, q)
    else if s[q] == LT then ReadElement(s, q)
    else ReadText(s, p)
  }

  function ReadElement(s: Str, p: nat): (r: Item)
    requires p < |s|
    ensures r.Item? ==> p < r.pos <= |s|
    ensures r.EndTag? ==> p < r.pos <= |s|
    decreases |s| - p, 0
  {
    match ParseTag(s, p + 1)
    case Bad(e) => Broken(e)
    case Good(tag, pos) => ParseElement(s, tag, pos)
  }

  /** The content and the end tag of an element whose start tag has been read. */
  function ParseElement(s: Str, tag: Tag, p: nat): (r: Item)
    requires p <= |s|
    ensures r.Item? ==> p <= r.pos <= |s|
    ensures r.EndTag? ==> p <= r.pos <= |s|
    decreases |s| - p, 3
  {
    match tag.closing
    case ClosingTag => EndTag(tag.name, p)
    case Closed => Item(Element(tag.name, tag.attributes, []), p)
    case Open =>
      if CharAt(s, p) == 0 then Broken(MismatchedElement) else
        match ParseNodes(s, p, false, [])
        case Failed(e) => Broken(e)
        case AtEnd(_) => Broken(Parsing)
        case AtEndTag(children, name, pos) =>
          if name == tag.name then Item(Element(tag.name, tag.attributes, children), pos) else Broken(MismatchedElement)
  }

  /** XMLNode.ParseDeep: nodes until something ends the list. */
  function ParseNodes(s: Str, p: nat, top: bool, before: seq<Node>): (r: Nodes)
    requires p <= |s|
    ensures r.AtEndTag? ==> p < r.pos <= |s|
    decreases |s| - p, 2
  {
    if CharAt(s, p) == 0 then AtEnd(before) else
      match ParseNode(s, p, top, before)
      case Nothing => AtEnd(before)
      case Broken(e) => Failed(e)
      case EndTag(name, pos) => AtEndTag(before, name, pos)
      case Item(node, pos) => ParseNodes(s, pos, top, before + [node])
  }

  /**
    XMLDocument.Parse. An end tag at the level of the document ends the parse without an error; what follows it is
    ignored.
  */
  function ParseDocument(s: Str): Parsed<Document> {
    if CharAt(s, 0) == 0 then Bad(EmptyDocument) else
      var p := SkipWhiteSpace(s, 0);
      var bom := At(s, p, BOM);
      var q := if bom then p + 3 else p;
      if CharAt(s, q) == 0 then Bad(EmptyDocument) else
        match ParseNodes(s, q, true, [])
        case Failed(e) => Bad(e)
        case AtEnd(nodes) => Good(Document(bom, nodes), |s|)
        case AtEndTag(nodes, _, pos) => Good(Document(bom, nodes), pos)
  }
}
