/** dump: JSON text, compact or indented; and the integer printer numtostr. */
module JsonDump {
  import opened Binary
  import opened Bytes
  import opened Decimals
  import opened Doubles
  import opened JsonLexer
  import opened JsonStrings
  import opened Jsons

  // ---------- integers ----------

  /** The decimal text of a number of either 64-bit type. */
  function IntText(x: int): Str {
    if x < 0 then [MINUS] + Decimal(-x) else Decimal(x)
  }

  /** C++ division and remainder, which truncate toward zero. */
  function Quotient10(x: int): int { if x >= 0 then x / 10 else -(-x / 10) }

  function Remainder10(x: int): int { x - 10 * Quotient10(x) }

  function Abs(x: int): nat { if x < 0 then -x else x }

  function Backwards(s: Str): (r: Str)
    ensures |r| == |s|
  {
    seq(|s|, i requires 0 <= i < |s| => s[|s| - 1 - i])
  }

  lemma BackwardsSnoc(s: Str, c: byte)
    ensures Backwards(s + [c]) == [c] + Backwards(s)
  {
  }

  function Power10(n: nat): (p: nat)
    ensures p > 0
  {
    if n == 0 then 1 else 10 * Power10(n - 1)
  }

  lemma TwentyDigits()
    ensures Power10(20) > 0xFFFF_FFFF_FFFF_FFFF
  {
    assert Power10(5) == 100000;
    assert Power10(10) == 10000000000;
    assert Power10(15) == 1000000000000000;
  }

  /** The digits of a number that are still to be written. */
  function Pending(x: int): Str {
    if x == 0 then [] else Decimal(Abs(x))
  }

  lemma DigitWritten(x: int, done: Str, n: nat)
    requires x != 0 && n > 0 && Abs(x) < Power10(n)
    ensures var digit := Abs(Remainder10(x));
      && digit < 10 && Abs(Quotient10(x)) < Power10(n - 1)
      && Pending(x) + Backwards(done) == Pending(Quotient10(x)) + Backwards(done + [(48 + digit) as byte])
  {
    var a := Abs(x);
    var digit := Abs(Remainder10(x));
    assert digit == a % 10 && Abs(Quotient10(x)) == a / 10;
    var c := (48 + digit) as byte;
    BackwardsSnoc(done, c);
    Reassociate(Pending(Quotient10(x)), [c], Backwards(done));
    assert Pending(x) == Pending(Quotient10(x)) + [c];
  }

  method ReverseFirst(buf: array<byte>, n: nat)
    requires n <= buf.Length
    modifies buf
    ensures buf[..n] == Backwards(old(buf[..n]))
    ensures forall k :: n <= k < buf.Length ==> buf[k] == old(buf[k])
  {
    var (i, j) := (0, n);
    while i < j - 1
      invariant 0 <= i <= j + 1 && i + j == n && j <= n
      invariant forall k :: 0 <= k < i || j <= k < n ==> buf[k] == old(buf[n - 1 - k])
      invariant forall k :: i <= k < j || n <= k < buf.Length ==> buf[k] == old(buf[k])
    {
      j := j - 1;
      buf[i], buf[j] := buf[j], buf[i];
      i := i + 1;
    }
  }

  /** numtostr: the digits are produced from the last to the first and then reversed. */
  method NumToStr(value: int) returns (r: Str)
    requires -0x8000_0000_0000_0000 <= value <= 0xFFFF_FFFF_FFFF_FFFF
    ensures r == IntText(value)
  {
    hide Power10, Decimal, Backwards;
    if value == 0 { assert Decimal(0) == [ZERO]; return [ZERO]; }
    var buf := new byte[64](_ => 0);
    var (x, i) := (value, 0);
    TwentyDigits();
    NothingBackwards();
    assert Pending(value) + [] == Pending(value);
    while x != 0 && i < buf.Length - 1
      invariant 0 <= i <= 20 && Abs(x) < Power10(20 - i) && (value > 0 ==> x >= 0)
      invariant Pending(x) + Backwards(buf[..i]) == Pending(value)
      decreases Abs(x)
    {
      if i == 20 { NoPower(); }
      DigitWritten(x, buf[..i], 20 - i);
      var digit := Abs(Remainder10(x));
      ghost var done := buf[..i];
      buf[i] := (48 + digit) as byte;
      assert buf[..i + 1] == done + [buf[i]];
      i := i + 1;
      x := Quotient10(x);
    }
    assert [] + Backwards(buf[..i]) == Backwards(buf[..i]);
    if value < 0 {
      BackwardsSnoc(buf[..i], MINUS);
      ghost var digits := buf[..i];
      buf[i] := MINUS;
      i := i + 1;
      assert buf[..i] == digits + [MINUS];
    }
    ReverseFirst(buf, i);
    r := buf[..i];
  }

  lemma NothingBackwards()
    ensures Backwards([]) == []
  {
  }

  lemma NoPower()
    ensures Power10(0) == 1
  {
  }

  // ---------- dump ----------

  /** How floating-point numbers are printed; the layout of the rest; and the indentation so far. */
  datatype Layout = Layout(fromDouble: uint64 -> Str, pretty: bool, step: nat)

  const OPEN_OBJECT: Str := [LEFT_BRACE]
  const OPEN_ARRAY: Str := [LEFT_BRACKET]

  function Spaces(n: nat): Str { seq(n, _ => SPACE) }

  function Deeper(y: Layout, indent: nat): nat { if y.pretty then indent + y.step else indent }

  function NewLine(y: Layout): Str { if y.pretty then [LF] else [] }

  function Separator(y: Layout): Str { if y.pretty then [COMMA, LF] else [COMMA] }

  function KeyText(key: Str, y: Layout): Str {
    [QUOTE] + Escape(key) + if y.pretty then [QUOTE, COLON, SPACE] else [QUOTE, COLON]
  }

  function Dump(j: Json, y: Layout, indent: nat): Str
    decreases j, 1
  {
    match j
    case Null => NULL
    case Boolean(b) => if b then TRUE else FALSE
    case Integer(i) => IntText(i)
    case Unsigned(u) => IntText(u)
    case Float(bits) => y.fromDouble(bits)
    case Text(t) => [QUOTE] + Escape(t) + [QUOTE]
    case Array(a) =>
      if a == [] then [LEFT_BRACKET, RIGHT_BRACKET]
      else OPEN_ARRAY + NewLine(y) + DumpElems(j, 0, y, Deeper(y, indent)) + Closing(y, indent, RIGHT_BRACKET)
    case Object(m) =>
      if m == map[] then [LEFT_BRACE, RIGHT_BRACE]
      else OPEN_OBJECT + NewLine(y) + DumpMembers(j, SortedKeys(m.Keys), 0, y, Deeper(y, indent)) + Closing(y, indent, RIGHT_BRACE)
  }

  function Closing(y: Layout, indent: nat, bracket: byte): Str {
    NewLine(y) + Spaces(indent) + [bracket]
  }

  /** The elements from i on, with a separator before each but the first. */
  function DumpElems(j: Json, i: nat, y: Layout, indent: nat): Str
    requires j.Array? && i <= |j.elems|
    decreases j, 0, |j.elems| - i
  {
    if i == |j.elems| then [] else
      (if i > 0 then Separator(y) else []) + Spaces(indent) + Dump(j.elems[i], y, indent) + DumpElems(j, i + 1, y, indent)
  }

  function DumpMember(j: Json, key: Str, y: Layout, indent: nat): Str
    requires j.Object? && key in j.members
    decreases j, 0, 0
  {
    KeyText(key, y) + Dump(j.members[key], y, indent)
  }

  function DumpMembers(j: Json, keys: seq<Str>, i: nat, y: Layout, indent: nat): Str
    requires j.Object? && i <= |keys| && forall k :: k in keys ==> k in j.members
    decreases j, 0, |keys| - i + 1
  {
    if i == |keys| then [] else
      (if i > 0 then Separator(y) else []) + Spaces(indent) + DumpMember(j, keys[i], y, indent)
      + DumpMembers(j, keys, i + 1, y, indent)
  }

  method DumpTo(j: Json, o: ByteVector, y: Layout, indent: nat)
    modifies o
    ensures o.data == old(o.data) + Dump(j, y, indent)
    decreases j, 3
  {
    hide DumpElems, DumpMembers, Escape, Closing, NewLine, Spaces;
    match j
    case Null => o.Append(NULL);
    case Boolean(b) => o.Append(if b then TRUE else FALSE);
    case Integer(i) =>
      var text := NumToStr(i);
      o.Append(text);
    case Unsigned(u) =>
      var text := NumToStr(u);
      o.Append(text);
    case Float(bits) => o.Append(y.fromDouble(bits));
    case Text(t) =>
      var escaped := EscapeString(t);
      Reassociate(o.data, [QUOTE], escaped);
      Reassociate(o.data, [QUOTE] + escaped, [QUOTE]);
      o.Append([QUOTE]);
      o.Append(escaped);
      o.Append([QUOTE]);
    case Array(a) => WriteArray(j, o, y, indent);
    case Object(m) => WriteObject(j, o, y, indent);
  }

  method WriteArray(j: Json, o: ByteVector, y: Layout, indent: nat)
    requires j.Array?
    modifies o
    ensures o.data == old(o.data) + Dump(j, y, indent)
    decreases j, 2
  {
    hide DumpElems;
    if j.elems == [] { o.Append([LEFT_BRACKET, RIGHT_BRACKET]); return; }
    ghost var start := o.data;
    o.PushBack(LEFT_BRACKET);
    if y.pretty { o.PushBack(LF); }
    WriteElems(j, o, y, Deeper(y, indent));
    if y.pretty { o.PushBack(LF); }
    o.Append(Spaces(indent));
    o.PushBack(RIGHT_BRACKET);
    Bracketed(start, OPEN_ARRAY, y, DumpElems(j, 0, y, Deeper(y, indent)), indent, RIGHT_BRACKET);
  }

  method WriteObject(j: Json, o: ByteVector, y: Layout, indent: nat)
    requires j.Object?
    modifies o
    ensures o.data == old(o.data) + Dump(j, y, indent)
    decreases j, 2
  {
    hide DumpMembers, Closing, NewLine;
    if j.members == map[] { o.Append([LEFT_BRACE, RIGHT_BRACE]); return; }
    WriteBraced(j, SortedKeys(j.members.Keys), o, y, indent);
  }

  method WriteBraced(j: Json, keys: seq<Str>, o: ByteVector, y: Layout, indent: nat)
    requires j.Object? && forall k :: k in keys ==> k in j.members
    modifies o
    ensures o.data == old(o.data)
      + (OPEN_OBJECT + NewLine(y) + DumpMembers(j, keys, 0, y, Deeper(y, indent)) + Closing(y, indent, RIGHT_BRACE))
    decreases j, 2, 0
  {
    hide DumpMembers, Spaces;
    ghost var start := o.data;
    o.PushBack(LEFT_BRACE);
    if y.pretty { o.PushBack(LF); }
    WriteMembers(j, keys, o, y, Deeper(y, indent));
    if y.pretty { o.PushBack(LF); }
    o.Append(Spaces(indent));
    o.PushBack(RIGHT_BRACE);
    Bracketed(start, OPEN_OBJECT, y, DumpMembers(j, keys, 0, y, Deeper(y, indent)), indent, RIGHT_BRACE);
  }

  lemma Bracketed(start: Str, open: Str, y: Layout, body: Str, indent: nat, bracket: byte)
    ensures start + open + NewLine(y) + body + NewLine(y) + Spaces(indent) + [bracket]
      == start + (open + NewLine(y) + body + Closing(y, indent, bracket))
  {
    hide Spaces;
    var (n, tail) := (NewLine(y), Spaces(indent));
    Reassociate(start, open, n);
    Reassociate(start, open + n, body);
    Reassociate(start + (open + n + body), n, tail);
    Reassociate(start + (open + n + body), n + tail, [bracket]);
    Reassociate(start, open + n + body, n + tail + [bracket]);
  }

  method WriteElems(j: Json, o: ByteVector, y: Layout, indent: nat)
    requires j.Array?
    modifies o
    ensures o.data == old(o.data) + DumpElems(j, 0, y, indent)
    decreases j, 1
  {
    hide Dump, Spaces;
    ghost var whole := o.data + DumpElems(j, 0, y, indent);
    for i := 0 to |j.elems|
      invariant o.data + DumpElems(j, i, y, indent) == whole
    {
      ghost var before := o.data;
      ghost var (lead, rest) := (if i > 0 then Separator(y) else [], DumpElems(j, i + 1, y, indent));
      if i > 0 { o.Append(Separator(y)); }
      o.Append(Spaces(indent));
      DumpTo(j.elems[i], o, y, indent);
      ItemWritten(before, lead, Spaces(indent), Dump(j.elems[i], y, indent), rest);
    }
  }

  lemma ItemWritten(before: Str, lead: Str, spaces: Str, item: Str, rest: Str)
    ensures before + lead + spaces + item + rest == before + (lead + spaces + item + rest)
    ensures lead == [] ==> before + spaces + item + rest == before + (lead + spaces + item + rest)
  {
    Reassociate(before, lead, spaces);
    Reassociate(before, lead + spaces, item);
    Reassociate(before, lead + spaces + item, rest);
    if lead == [] { assert before + lead == before; }
  }

  method WriteMembers(j: Json, keys: seq<Str>, o: ByteVector, y: Layout, indent: nat)
    requires j.Object? && forall k :: k in keys ==> k in j.members
    modifies o
    ensures o.data == old(o.data) + DumpMembers(j, keys, 0, y, indent)
    decreases j, 1
  {
    hide DumpMember, Spaces;
    ghost var whole := o.data + DumpMembers(j, keys, 0, y, indent);
    for i := 0 to |keys|
      invariant o.data + DumpMembers(j, keys, i, y, indent) == whole
    {
      ghost var before := o.data;
      ghost var (lead, rest) := (if i > 0 then Separator(y) else [], DumpMembers(j, keys, i + 1, y, indent));
      if i > 0 { o.Append(Separator(y)); }
      o.Append(Spaces(indent));
      WriteMember(j, keys[i], o, y, indent);
      ItemWritten(before, lead, Spaces(indent), DumpMember(j, keys[i], y, indent), rest);
    }
  }

  method WriteMember(j: Json, key: Str, o: ByteVector, y: Layout, indent: nat)
    requires j.Object? && key in j.members
    modifies o
    ensures o.data == old(o.data) + DumpMember(j, key, y, indent)
    decreases j, 0
  {
    hide Dump, Escape;
    ghost var start := o.data;
    var close := if y.pretty then [QUOTE, COLON, SPACE] else [QUOTE, COLON];
    o.PushBack(QUOTE);
    var escaped := EscapeString(key);
    o.Append(escaped);
    o.Append(close);
    DumpTo(j.members[key], o, y, indent);
    ItemWritten(start, [QUOTE], escaped, close, Dump(j.members[key], y, indent));
    Reassociate(start, KeyText(key, y), Dump(j.members[key], y, indent));
  }
}
