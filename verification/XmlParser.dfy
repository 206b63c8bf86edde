/** The parser: its loops over the parse buffer, and the recursion that hands end tags back to the parent. */
module XmlParser {
  import opened Bytes
  import opened Decimals
  import opened XmlText
  import opened XmlDocuments

  method SkipBlanks(s: Str, from: nat) returns (p: nat)
    requires from <= |s|
    ensures p == SkipWhiteSpace(s, from)
  {
    p := from;
    while IsSpace(CharAt(s, p))
      invariant from <= p <= |s| && SkipWhiteSpace(s, p) == SkipWhiteSpace(s, from)
      decreases |s| - p
    {
      p := p + 1;
    }
  }

  /** StrPair.ParseName: fails when no name starts here. */
  method ScanName(s: Str, from: nat) returns (ok: bool, p: nat)
    requires from <= |s|
    ensures ok == IsNameStartChar(CharAt(s, from))
    ensures ok ==> from < |s| && p == NameEnd(s, from + 1)
  {
    p := from;
    ok := IsNameStartChar(CharAt(s, p));
    if !ok { return; }
    p := p + 1;
    while CharAt(s, p) != 0 && IsNameChar(CharAt(s, p))
      invariant from < p <= |s| && NameEnd(s, p) == NameEnd(s, from + 1)
      decreases |s| - p
    {
      p := p + 1;
    }
  }

  /** StrPair.ParseText: up to the tag, or fails at the end of the text. */
  method ScanText(s: Str, from: nat, tag: Str) returns (k: int)
    ensures k == FindTag(s, from, tag)
  {
    var p := from;
    while CharAt(s, p) != 0
      invariant from <= p && FindTag(s, p, tag) == FindTag(s, from, tag)
      decreases |s| - p
    {
      if At(s, p, tag) { return p; }
      p := p + 1;
    }
    return -1;
  }

  method ReadAttribute(s: Str, from: nat) returns (r: Parsed<Attribute>)
    requires from < |s| && IsNameStartChar(s[from])
    ensures r == ParseAttribute(s, from)
  {
    hide FindTag, Value;
    var _, n := ScanName(s, from);
    if CharAt(s, n) == 0 { return Bad(ParsingAttribute); }
    var p := SkipBlanks(s, n);
    if CharAt(s, p) != EQUALS { return Bad(ParsingAttribute); }
    p := SkipBlanks(s, p + 1);
    var quote := CharAt(s, p);
    if quote != QUOTE && quote != APOS { return Bad(ParsingAttribute); }
    p := p + 1;
    var k := ScanText(s, p, [quote]);
    if k < 0 { return Bad(ParsingAttribute); }
    return Good(Attribute(s[from..n], Value(s[p..k], TEXT)), k + 1);
  }

  method FindAttribute(attributes: seq<Attribute>, name: Str) returns (found: bool)
    ensures found == HasAttribute(attributes, name)
  {
    for i := 0 to |attributes|
      invariant forall j :: 0 <= j < i ==> attributes[j].name != name
    {
      if attributes[i].name == name { return true; }
    }
    return false;
  }

  method ReadAttributes(s: Str, from: nat, start: Tag) returns (r: Parsed<Tag>)
    requires from <= |s|
    ensures r == ParseAttributes(s, from, start)
  {
    hide ParseAttribute, HasAttribute;
    var (p, tag) := (from, start);
    while true
      invariant p <= |s| && ParseAttributes(s, from, start) == ParseAttributes(s, p, tag)
      decreases |s| - p
    {
      var q := SkipBlanks(s, p);
      if CharAt(s, q) == 0 { return Bad(ParsingElement); }
      if IsNameStartChar(s[q]) {
        var a := ReadAttribute(s, q);
        if a.Bad? { return Bad(a.error); }
        var found := FindAttribute(tag.attributes, a.value.name);
        if found { return Bad(ParsingAttribute); }
        p, tag := a.pos, tag.(attributes := tag.attributes + [a.value]);
      } else if s[q] == GT {
        return Good(tag, q + 1);
      } else if s[q] == SLASH && CharAt(s, q + 1) == GT {
        return Good(tag.(closing := Closed), q + 2);
      } else {
        return Bad(ParsingElement);
      }
    }
  }

  method ReadTag(s: Str, from: nat) returns (r: Parsed<Tag>)
    requires from <= |s|
    ensures r == ParseTag(s, from)
  {
    hide ParseAttributes;
    var p := SkipBlanks(s, from);
    var closing := Open;
    if CharAt(s, p) == SLASH { closing := ClosingTag; p := p + 1; }
    var ok, end := ScanName(s, p);
    if !ok { return Bad(Parsing); }
    r := ReadAttributes(s, end, Tag(s[p..end], [], closing));
  }

  method ReadMarkup(s: Str, p: nat, skip: nat, tail: Str, error: XmlError) returns (r: Parsed<Str>)
    requires p + skip <= |s| && skip > 0
    ensures r == ParseMarkup(s, p, skip, tail, error)
  {
    var k := ScanText(s, p + skip, tail);
    if k < 0 { return Bad(error); }
    return Good(Value(s[p + skip..k], RAW), k + |tail|);
  }

  method ReadPlainText(s: Str, p: nat) returns (r: Item)
    requires p < |s| && s[p] != LT
    ensures r == ReadText(s, p)
  {
    var k := ScanText(s, p, [LT]);
    if k < 0 { return Broken(ParsingText); }
    if CharAt(s, k + 1) == 0 { return Broken(Parsing); }
    return Item(Text(Value(s[p..k], TEXT), false), k);
  }

  /** XMLDocument.Identify, and the ParseDeep of the node it creates. */
  method IdentifyAndParse(s: Str, p: nat, top: bool, before: seq<Node>) returns (r: Item)
    requires p <= |s|
    ensures r == ParseNode(s, p, top, before)
    decreases |s| - p, 1
  {
    hide ParseMarkup, ReadText, ParseTag, ParseElement, ParseNodes;
    var q := SkipBlanks(s, p);
    if CharAt(s, q) == 0 { return Nothing; }
    if At(s, q, DECLARATION_HEAD) {
      var m := ReadMarkup(s, q, 2, DECLARATION_TAIL, ParsingDeclaration);
      if m.Bad? { return Broken(m.error); }
      var wellLocated := WellLocated(top, before);
      return if wellLocated then Item(Declaration(m.value), m.pos) else Broken(ParsingDeclaration);
    } else if At(s, q, COMMENT_HEAD) {
      var m := ReadMarkup(s, q, 4, COMMENT_TAIL, ParsingComment);
      return if m.Bad? then Broken(m.error) else Item(Comment(m.value), m.pos);
    } else if At(s, q, CDATA_HEAD) {
      var m := ReadMarkup(s, q, 9, CDATA_TAIL, ParsingCData);
      return if m.Bad? then Broken(m.error) else Item(Text(m.value, true), m.pos);
    } else if At(s, q, UNKNOWN_HEAD) {
      var m := ReadMarkup(s, q, 2, UNKNOWN_TAIL, ParsingUnknown);
      return if m.Bad? then Broken(m.error) else Item(Unknown(m.value), m.pos);
    } else if s[q] == LT {
      var tag := ReadTag(s, q + 1);
      if tag.Bad? { return Broken(tag.error); }
      r := ParseContent(s, tag.value, tag.pos);
    } else {
      r := ReadPlainText(s, p);
    }
  }

  method WellLocated(top: bool, before: seq<Node>) returns (ok: bool)
    ensures ok == (top && OnlyDeclarations(before))
  {
    if !top { return false; }
    for i := 0 to |before|
      invariant forall j :: 0 <= j < i ==> before[j].Declaration?
    {
      if !before[i].Declaration? { return false; }
    }
    return true;
  }

  /** XMLElement.ParseDeep behind the start tag, and the parent's check of the end tag that comes back. */
  method ParseContent(s: Str, tag: Tag, p: nat) returns (r: Item)
    requires p <= |s|
    ensures r == ParseElement(s, tag, p)
    decreases |s| - p, 3
  {
    if tag.closing == ClosingTag { return EndTag(tag.name, p); }
    if tag.closing == Closed { return Item(Element(tag.name, tag.attributes, []), p); }
    if CharAt(s, p) == 0 { return Broken(MismatchedElement); }
    var content := ParseDeep(s, p, false);
    match content
    case Failed(e) => return Broken(e);
    case AtEnd(_) => return Broken(Parsing);
    case AtEndTag(children, name, pos) =>
      return if name == tag.name then Item(Element(tag.name, tag.attributes, children), pos) else Broken(MismatchedElement);
  }

  /** XMLNode.ParseDeep. */
  method ParseDeep(s: Str, from: nat, top: bool) returns (r: Nodes)
    requires from <= |s|
    ensures r == ParseNodes(s, from, top, [])
    decreases |s| - from, 2
  {
    hide ParseNode;
    var p := from;
    var nodes: seq<Node> := [];
    while CharAt(s, p) != 0
      invariant from <= p <= |s| && ParseNodes(s, from, top, []) == ParseNodes(s, p, top, nodes)
      decreases |s| - p
    {
      var item := IdentifyAndParse(s, p, top, nodes);
      match item
      case Nothing => return AtEnd(nodes);
      case Broken(e) => return Failed(e);
      case EndTag(name, pos) => return AtEndTag(nodes, name, pos);
      case Item(node, pos) => p, nodes := pos, nodes + [node];
    }
    return AtEnd(nodes);
  }

  method Parse(s: Str) returns (r: Parsed<Document>)
    ensures r == ParseDocument(s)
  {
    hide ParseNodes;
    if CharAt(s, 0) == 0 { return Bad(EmptyDocument); }
    var p := SkipBlanks(s, 0);
    var bom := At(s, p, BOM);
    if bom { p := p + 3; }
    if CharAt(s, p) == 0 { return Bad(EmptyDocument); }
    var nodes := ParseDeep(s, p, true);
    match nodes
    case Failed(e) => return Bad(e);
    case AtEnd(list) => return Good(Document(bom, list), |s|);
    case AtEndTag(list, _, pos) => return Good(Document(bom, list), pos);
  }
}
