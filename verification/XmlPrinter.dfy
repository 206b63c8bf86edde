/** XMLPrinter in compact mode: a visitor that writes a document to memory. */
module XmlPrinter {
  import opened Bytes
  import opened XmlText
  import opened XmlDocuments
  import XmlParser
  import XmlRoundTrip

  const ENTITY_RANGE: nat := 64

  lemma {:induction false} PrintedSnoc(s: Str, c: byte, restricted: bool)
    ensures Printed(s + [c], restricted) == Printed(s, restricted) + PrintedChar(c, restricted)
  {
    hide PrintedChar;
    if s == [] {
      assert s + [c] == [c] && [c][1..] == [];
      PrintedStep([c], restricted);
      assert Printed([], restricted) == [];
      assert PrintedChar(c, restricted) + [] == PrintedChar(c, restricted) == [] + PrintedChar(c, restricted);
    } else {
      assert (s + [c])[1..] == s[1..] + [c];
      PrintedSnoc(s[1..], c, restricted);
      PrintedStep(s, restricted);
      PrintedStep(s + [c], restricted);
      Reassociate(PrintedChar(s[0], restricted), Printed(s[1..], restricted), PrintedChar(c, restricted));
    }
  }

  lemma PrintedNext(s: Str, q: nat, restricted: bool)
    requires q < |s|
    ensures Printed(s[..q + 1], restricted) == Printed(s[..q], restricted) + PrintedChar(s[q], restricted)
  {
    assert s[..q + 1] == s[..q] + [s[q]];
    PrintedSnoc(s[..q], s[q], restricted);
  }

  lemma AttributesNext(a: seq<Attribute>, i: nat)
    requires i < |a|
    ensures PrintAttributes(a[i..]) == PrintAttribute(a[i]) + PrintAttributes(a[i + 1..])
  {
    assert a[i..][0] == a[i] && a[i..][1..] == a[i + 1..];
  }

  lemma NodesNext(nodes: seq<Node>, i: nat)
    requires i < |nodes|
    ensures PrintAll(nodes[i..]) == Print(nodes[i]) + PrintAll(nodes[i + 1..])
  {
    assert nodes[i..][0] == nodes[i] && nodes[i..][1..] == nodes[i + 1..];
  }

  /** The characters a table of flags marks, and the ones to replace. */
  predicate Marks(flags: seq<bool>, restricted: bool) {
    |flags| == ENTITY_RANGE && forall c :: 0 <= c < 64 ==> (flags[c] <==> EntityOf(c as byte, restricted) < 5)
  }

  lemma TableValues(c: byte)
    ensures EntityOf(c, false) < 5 <==> exists k :: 0 <= k < 5 && EntityTable(k).value == c
  {
    var i := EntityOf(c, false);
    if i < 5 { assert EntityTable(i).value == c; }
  }

  lemma EntityIsUnique(i: nat, c: byte, restricted: bool)
    requires i < 5 && EntityTable(i).value == c && EntityOf(c, restricted) < 5
    ensures EntityOf(c, restricted) == i
  {
  }

  /** What is owed to a start tag that has not been closed. */
  function Seal(justOpened: bool): Str {
    if justOpened then [GT] else []
  }

  predicate StringsFit(n: Node) {
    match n
    case Element(_, attributes, children) =>
      && (forall i :: 0 <= i < |attributes| ==> PrintsWhole(attributes[i].value, false))
      && forall i :: 0 <= i < |children| ==> StringsFit(children[i])
    case Text(v, cdata) => cdata || PrintsWhole(v, true)
    case _ => true
  }

  /** Nothing between p and q needs an escape, and there is no more of the run before p. */
  ghost predicate RunFrom(s: Str, p: nat, q: nat, restricted: bool) {
    && p <= q <= |s| && (p > 0 ==> EntityOf(s[p - 1], restricted) < 5)
    && forall i :: p <= i < q ==> EntityOf(s[i], restricted) == 5
  }

  lemma {:induction false} RunLength(s: Str, p: nat, q: nat, restricted: bool)
    requires RunFrom(s, p, q, restricted)
    ensures LastRun(s[..q], restricted) == q - p
    decreases q
  {
    if p < q {
      RunLength(s, p, q - 1, restricted);
      assert s[..q][..q - 1] == s[..q - 1];
    }
  }

  /** The escaped form of a run is the run. */
  lemma {:induction false} RunIsCopied(s: Str, p: nat, q: nat, restricted: bool)
    requires p <= q <= |s| && forall i :: p <= i < q ==> EntityOf(s[i], restricted) == 5
    ensures Printed(s[..q], restricted) == Printed(s[..p], restricted) + s[p..q]
    decreases q
  {
    hide Printed;
    if p < q {
      RunIsCopied(s, p, q - 1, restricted);
      PrintedNext(s, q - 1, restricted);
      assert s[p..q] == s[p..q - 1] + [s[q - 1]];
      Reassociate(Printed(s[..p], restricted), s[p..q - 1], [s[q - 1]]);
    } else {
      assert s[p..q] == [] && Printed(s[..p], restricted) + [] == Printed(s[..p], restricted);
    }
  }

  lemma {:induction false} CStringUpTo(s: Str, q: nat)
    requires q <= |s| && 0 !in s[..q] && (q < |s| ==> s[q] == 0)
    ensures CString(s) == s[..q]
  {
    if q > 0 {
      assert s[0] in s[..q] && s[1..][..q - 1] == s[..q][1..];
      CStringUpTo(s[1..], q - 1);
    }
  }

  /** The first INT_MAX bytes of the last run are its kept ones. */
  lemma RunIsKept(s: Str, p: nat, q: nat, restricted: bool)
    requires RunFrom(s, p, q, restricted) && 0 !in s[..q] && (q < |s| ==> s[q] == 0)
    ensures Kept(s, restricted) == s[..if INT_MAX < q - p then p + INT_MAX else q]
  {
    RunLength(s, p, q, restricted);
    CStringUpTo(s, q);
  }

  class Printer {
    var buffer: Str
    var elementJustOpened: bool
    var stack: seq<Str>
    const entityFlag: seq<bool>
    const restrictedEntityFlag: seq<bool>

    ghost predicate Valid() {
      Marks(entityFlag, false) && Marks(restrictedEntityFlag, true)
    }

    constructor ()
      ensures Valid() && buffer == [] && !elementJustOpened && stack == []
    {
      buffer, elementJustOpened, stack := [], false, [];
      var none := seq(ENTITY_RANGE, _ => false);
      var all := none;
      for i := 0 to 5
        invariant |all| == ENTITY_RANGE
        invariant forall c :: 0 <= c < 64 ==> (all[c] <==> exists k :: 0 <= k < i && EntityTable(k).value as int == c)
      {
        all := all[EntityTable(i).value as int := true];
      }
      entityFlag := all;
      restrictedEntityFlag := none[AMP as int := true][LT as int := true][GT as int := true];
      new;
      forall c: byte { TableValues(c); }
    }

    method Write(data: Str)
      modifies `buffer
      ensures buffer == old(buffer) + data
    {
      buffer := buffer + data;
    }

    method Putc(c: byte)
      modifies `buffer
      ensures buffer == old(buffer) + [c]
    {
      buffer := buffer + [c];
    }

    /** The run of characters from p to q, in portions whose length is an int. */
    method Flush(s: Str, from: nat, to: nat)
      requires from <= to <= |s|
      modifies `buffer
      ensures buffer == old(buffer) + s[from..to]
    {
      var p := from;
      while p < to
        invariant from <= p <= to && buffer == old(buffer) + s[from..p]
      {
        var delta := to - p;
        var toPrint := if INT_MAX < delta then INT_MAX else delta;
        assert s[from..p + toPrint] == s[from..p] + s[p..p + toPrint];
        Write(s[p..p + toPrint]);
        p := p + toPrint;
      }
    }

    method PutEntity(c: byte, restricted: bool)
      requires EntityOf(c, restricted) < 5
      modifies `buffer
      ensures buffer == old(buffer) + PrintedChar(c, restricted)
    {
      for i := 0 to 5
        invariant buffer == old(buffer) && forall k :: 0 <= k < i ==> EntityTable(k).value != c
      {
        if EntityTable(i).value == c {
          EntityIsUnique(i, c, restricted);
          Putc(AMP);
          Write(EntityTable(i).pattern);
          Putc(SEMICOLON);
          return;
        }
      }
    }

    /** Replaces the characters that need it and copies the runs between them; the last run is written once. */
    method PrintString(s: Str, restricted: bool)
      requires Valid()
      modifies `buffer
      ensures buffer == old(buffer) + Printed(Kept(s, restricted), restricted)
    {
      hide Printed, PrintedChar, Kept;
      var flag := if restricted then restrictedEntityFlag else entityFlag;
      var p: nat, q: nat := 0, 0;
      PrintedNothing(restricted);
      assert s[..0] == [] && buffer + [] == buffer;
      while q < |s| && s[q] != 0
        invariant RunFrom(s, p, q, restricted) && 0 !in s[..q]
        invariant buffer == old(buffer) + Printed(s[..p], restricted)
      {
        assert s[..q + 1] == s[..q] + [s[q]];
        if s[q] < 64 && flag[s[q] as int] {
          RunIsCopied(s, p, q, restricted);
          PrintedNext(s, q, restricted);
          Reassociate(old(buffer), Printed(s[..p], restricted), s[p..q]);
          Flush(s, p, q);
          Reassociate(old(buffer), Printed(s[..q], restricted), PrintedChar(s[q], restricted));
          PutEntity(s[q], restricted);
          p := q + 1;
        }
        q := q + 1;
      }
      RunIsKept(s, p, q, restricted);
      if p < q {
        var delta := q - p;
        var toPrint := if INT_MAX < delta then INT_MAX else delta;
        RunIsCopied(s, p, p + toPrint, restricted);
        Reassociate(old(buffer), Printed(s[..p], restricted), s[p..p + toPrint]);
        Write(s[p..p + toPrint]);
      }
    }

    method SealElementIfJustOpened()
      modifies `buffer, `elementJustOpened
      ensures buffer == old(buffer) + Seal(old(elementJustOpened)) && !elementJustOpened
    {
      if !elementJustOpened { return; }
      elementJustOpened := false;
      Putc(GT);
    }

    method OpenElement(name: Str)
      modifies this
      ensures buffer == old(buffer) + Seal(old(elementJustOpened)) + ([LT] + name)
      ensures stack == old(stack) + [name] && elementJustOpened
    {
      SealElementIfJustOpened();
      stack := stack + [name];
      Reassociate(buffer, [LT], name);
      Write([LT]);
      Write(name);
      elementJustOpened := true;
    }

    method PushAttribute(a: Attribute)
      requires Valid() && PrintsWhole(a.value, false) && elementJustOpened
      modifies `buffer
      ensures buffer == old(buffer) + PrintAttribute(a)
    {
      hide Printed;
      Putc(SPACE);
      Write(a.name);
      Write([EQUALS, QUOTE]);
      KeptWhole(a.value, false);
      PrintString(a.value, false);
      Putc(QUOTE);
      assert buffer == old(buffer) + [SPACE] + a.name + [EQUALS, QUOTE] + Printed(a.value, false) + [QUOTE];
      Joined(old(buffer), [SPACE], a.name, [EQUALS, QUOTE], Printed(a.value, false), [QUOTE]);
    }

    /** An element without children gets the short form. */
    method CloseElement()
      requires stack != []
      modifies this
      ensures stack == old(stack[..|stack| - 1]) && !elementJustOpened
      ensures buffer == old(buffer) +
        if old(elementJustOpened) then EMPTY_TAIL else CLOSING_HEAD + old(stack[|stack| - 1]) + [GT]
    {
      var name := stack[|stack| - 1];
      stack := stack[..|stack| - 1];
      if elementJustOpened {
        Write(EMPTY_TAIL);
      } else {
        Reassociate(buffer, CLOSING_HEAD, name);
        Reassociate(buffer, CLOSING_HEAD + name, [GT]);
        Write(CLOSING_HEAD);
        Write(name);
        Write([GT]);
      }
      elementJustOpened := false;
    }

    method PushMarkup(head: Str, value: Str, tail: Str)
      modifies `buffer, `elementJustOpened
      ensures buffer == old(buffer) + Seal(old(elementJustOpened)) + (head + value + tail) && !elementJustOpened
    {
      SealElementIfJustOpened();
      Reassociate(buffer, head, value);
      Reassociate(buffer, head + value, tail);
      Write(head);
      Write(value);
      Write(tail);
    }

    method PushText(text: Str, cdata: bool)
      requires Valid() && (cdata || PrintsWhole(text, true))
      modifies `buffer, `elementJustOpened
      ensures buffer == old(buffer) + Seal(old(elementJustOpened)) + Print(Text(text, cdata)) && !elementJustOpened
    {
      if cdata {
        PushMarkup(CDATA_HEAD, text, CDATA_TAIL);
      } else {
        SealElementIfJustOpened();
        KeptWhole(text, true);
        PrintString(text, true);
      }
    }

    /** XMLNode.Accept, which visits the children between VisitEnter and VisitExit. */
    method Accept(n: Node)
      requires Valid() && StringsFit(n)
      modifies this
      ensures buffer == old(buffer) + Seal(old(elementJustOpened)) + Print(n)
      ensures stack == old(stack) && !elementJustOpened
      decreases n
    {
      match n
      case Element(_, _, _) => AcceptElement(n);
      case Text(value, cdata) => PushText(value, cdata);
      case Comment(value) => PushMarkup(COMMENT_HEAD, value, COMMENT_TAIL);
      case Declaration(value) => PushMarkup(DECLARATION_HEAD, value, DECLARATION_TAIL);
      case Unknown(value) => PushMarkup(UNKNOWN_HEAD, value, UNKNOWN_TAIL);
    }

    method AcceptElement(n: Node)
      requires Valid() && StringsFit(n) && n.Element?
      modifies this
      ensures buffer == old(buffer) + Seal(old(elementJustOpened)) + Print(n)
      ensures stack == old(stack) && !elementJustOpened
      decreases n, 1
    {
      hide Print, PrintAll, PrintAttributes;
      ghost var start := buffer + Seal(elementJustOpened);
      OpenElement(n.name);
      PushAttributes(n.attributes);
      AcceptChildren(n);
      CloseElement();
      ElementPrinted(start, n);
    }

    method PushAttributes(attributes: seq<Attribute>)
      requires Valid() && elementJustOpened
      requires forall i :: 0 <= i < |attributes| ==> PrintsWhole(attributes[i].value, false)
      modifies `buffer
      ensures buffer == old(buffer) + PrintAttributes(attributes)
    {
      hide PrintAttribute, PrintAttributes, PrintsWhole;
      assert attributes[0..] == attributes;
      for i := 0 to |attributes|
        invariant buffer + PrintAttributes(attributes[i..]) == old(buffer) + PrintAttributes(attributes)
      {
        AttributesNext(attributes, i);
        Reassociate(buffer, PrintAttribute(attributes[i]), PrintAttributes(attributes[i + 1..]));
        PushAttribute(attributes[i]);
      }
      NoAttributes(attributes[|attributes|..]);
      assert buffer + [] == buffer;
    }

    /** The first child seals the start tag. */
    method AcceptChildren(n: Node)
      requires Valid() && StringsFit(n) && n.Element? && elementJustOpened
      modifies this
      ensures stack == old(stack) && (elementJustOpened <==> n.children == [])
      ensures buffer == old(buffer) + if n.children == [] then [] else [GT] + PrintAll(n.children)
      decreases n, 0
    {
      hide Print, PrintAll;
      var nodes := n.children;
      if nodes == [] { return; }
      assert nodes[0..] == nodes;
      ghost var whole := buffer + [GT] + PrintAll(nodes);
      Reassociate(buffer, [GT], PrintAll(nodes));
      for i := 0 to |nodes|
        invariant stack == old(stack) && (elementJustOpened <==> i == 0)
        invariant buffer + Seal(elementJustOpened) + PrintAll(nodes[i..]) == whole
      {
        NodesNext(nodes, i);
        Reassociate(buffer + Seal(elementJustOpened), Print(nodes[i]), PrintAll(nodes[i + 1..]));
        Accept(nodes[i]);
        assert buffer + Seal(false) == buffer;
      }
      NoNodes(nodes[|nodes|..]);
      assert buffer + Seal(false) + [] == buffer;
    }

    /** XMLDocument.Print. */
    method PrintAllOf(d: Document)
      requires Valid() && buffer == [] && !elementJustOpened
      requires forall i :: 0 <= i < |d.nodes| ==> StringsFit(d.nodes[i])
      modifies this
      ensures buffer == PrintDocument(d)
    {
      hide Print, PrintAll, StringsFit;
      if d.bom { Write(BOM); }
      assert d.nodes[0..] == d.nodes;
      for i := 0 to |d.nodes|
        invariant !elementJustOpened && buffer + PrintAll(d.nodes[i..]) == PrintDocument(d)
      {
        NodesNext(d.nodes, i);
        Reassociate(buffer, Print(d.nodes[i]), PrintAll(d.nodes[i + 1..]));
        assert buffer + Seal(false) == buffer;
        Accept(d.nodes[i]);
      }
      NoNodes(d.nodes[|d.nodes|..]);
      assert buffer + [] == buffer;
    }
  }

  /** Printing a document and parsing what was printed, with the code of both. */
  method PrintAndParse(d: Document) returns (r: Parsed<Document>)
    requires XmlRoundTrip.PrintableDocument(d) && forall i :: 0 <= i < |d.nodes| ==> StringsFit(d.nodes[i])
    ensures r.Good? && r.value == d
  {
    var printer := new Printer();
    printer.PrintAllOf(d);
    XmlRoundTrip.ParseInvertsPrint(d);
    r := XmlParser.Parse(printer.buffer);
  }

  lemma ElementPrinted(start: Str, n: Node)
    requires n.Element?
    ensures var close := if n.children == [] then EMPTY_TAIL else CLOSING_HEAD + n.name + [GT];
      start + ([LT] + n.name) + PrintAttributes(n.attributes)
        + (if n.children == [] then [] else [GT] + PrintAll(n.children)) + close == start + Print(n)
  {
    hide PrintAll, PrintAttributes;
    var (attributes, content) := (PrintAttributes(n.attributes), if n.children == [] then [] else [GT] + PrintAll(n.children));
    var close := if n.children == [] then EMPTY_TAIL else CLOSING_HEAD + n.name + [GT];
    Reassociate(start, [LT] + n.name, attributes);
    Reassociate(start, OpenTag(n), content);
    Reassociate(start, OpenTag(n) + content, close);
    Reassociate(OpenTag(n), content, close);
    assert [] + close == close;
    if n.children != [] { Reassociate([GT], PrintAll(n.children), close); }
  }

  lemma NoAttributes(a: seq<Attribute>)
    requires a == []
    ensures PrintAttributes(a) == []
  {
  }

  lemma NoNodes(nodes: seq<Node>)
    requires nodes == []
    ensures PrintAll(nodes) == []
  {
  }

  lemma Joined(start: Str, a: Str, b: Str, c: Str, d: Str, e: Str)
    ensures start + a + b + c + d + e == start + (a + b + c + d + e)
  {
    Reassociate(start, a, b);
    Reassociate(start, a + b, c);
    Reassociate(start, a + b + c, d);
    Reassociate(start, a + b + c + d, e);
  }
}
