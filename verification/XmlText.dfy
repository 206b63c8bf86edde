/**
  Text of an XML document: StrPair.GetStr, which decodes a stretch of the parse buffer in place, and
  XMLPrinter.PrintString, which encodes it.
*/
module XmlText {
  import opened Bytes
  import opened Wrappers
  import Utf8

  const AMP: byte := 0x26
  const HASH: byte := 0x23
  const APOS: byte := 0x27
  const SEMICOLON: byte := 0x3B
  const LT: byte := 0x3C
  const GT: byte := 0x3E
  const LOWER_X: byte := 0x78

  /** unsigned int, and unsigned long of the platform the program is built for. */
  const UINT_RANGE: int := 0x1_0000_0000

  // ---------- entities ----------

  datatype Entity = Entity(pattern: Str, value: byte)

  /** The table `entities`. */
  function EntityTable(i: nat): Entity
    requires i < 5
  {
    match i
    case 0 => Entity([0x71, 0x75, 0x6F, 0x74], QUOTE)
    case 1 => Entity([0x61, 0x6D, 0x70], AMP)
    case 2 => Entity([0x61, 0x70, 0x6F, 0x73], APOS)
    case 3 => Entity([0x6C, 0x74], LT)
    case _ => Entity([0x67, 0x74], GT)
  }

  predicate EntityAt(t: Str, e: Entity) {
    At(t, 1, e.pattern) && CharAt(t, |e.pattern| + 1) == SEMICOLON
  }

  /** The first entity of the table, from i on, whose reference t starts with. */
  function FindEntity(t: Str, i: nat): (e: Option<Entity>)
    requires i <= 5
    ensures e.Some? ==> EntityAt(t, e.value) && 2 <= |e.value.pattern|
    decreases 5 - i
  {
    if i == 5 then None else if EntityAt(t, EntityTable(i)) then Some(EntityTable(i)) else FindEntity(t, i + 1)
  }

  // ---------- character references ----------

  /** strchr(t + i, c): the first c before the end of the text, or -1. */
  function StrChr(t: Str, i: nat, c: byte): (k: int)
    requires c != 0
    ensures k == -1 || (i <= k < |t| && t[k] == c)
    decreases |t| - i
  {
    if CharAt(t, i) == 0 then -1 else if t[i] == c then i else StrChr(t, i + 1, c)
  }

  function Digit(c: byte, base: nat): (d: int)
    requires base == 10 || base == 16
    ensures -1 <= d < base
  {
    if ZERO <= c <= NINE then (c - ZERO) as int
    else if base == 16 && 0x61 <= c <= 0x66 then (c - 0x57) as int
    else if base == 16 && 0x41 <= c <= 0x46 then (c - 0x37) as int
    else -1
  }

  predicate AllDigits(s: Str, base: nat)
    requires base == 10 || base == 16
  {
    forall i :: 0 <= i < |s| ==> Digit(s[i], base) >= 0
  }

  function Number(s: Str, base: nat): nat
    requires (base == 10 || base == 16) && AllDigits(s, base)
  {
    if s == [] then 0 else base * Number(s[..|s| - 1], base) + Digit(s[|s| - 1], base)
  }

  /** What is behind the last `mark` of s. */
  function BehindLast(s: Str, mark: byte): (r: Str)
    ensures |r| <= |s|
  {
    if s == [] || s[|s| - 1] == mark then [] else BehindLast(s[..|s| - 1], mark) + [s[|s| - 1]]
  }

  function ConvertedUtf8(input: nat): (s: Str)
    ensures |s| <= 4
  {
    if input < 0x20_0000 then Utf8.Encode(input) else []
  }

  /** `n` bytes are read and `out` is written; Unread: the reference is not one, and its '&' is taken literally. */
  datatype Reference = Reference(n: nat, out: Str) | Unread

  /** GetCharacterRef, for a text that starts with "&#". */
  function CharacterRef(t: Str): (r: Reference)
    requires |t| >= 2 && t[0] == AMP && t[1] == HASH
    ensures r.Reference? ==> 1 <= r.n <= |t| && |r.out| <= r.n
  {
    if CharAt(t, 2) == 0 then Reference(1, [])
    else if t[2] == LOWER_X then NumericRef(t, 3, LOWER_X, 16)
    else NumericRef(t, 2, HASH, 10)
  }

  /**
    The digits are read backwards from the ';' to the nearest `mark`, so what is before another mark is skipped.
    The value is taken modulo 2^32.
  */
  function NumericRef(t: Str, from: nat, mark: byte, base: nat): (r: Reference)
    requires 2 <= from <= |t| && (base == 10 || base == 16)
    ensures r.Reference? ==> from < r.n <= |t| && |r.out| <= r.n
  {
    if CharAt(t, from) == 0 then Unread else
      var k := StrChr(t, from, SEMICOLON);
      if k < 0 then Unread else
        var digits := BehindLast(t[from..k], mark);
        if !AllDigits(digits, base) then Unread
        else
          var out := ConvertedUtf8(Number(digits, base) % UINT_RANGE);
          NoDigitsNoValue(digits, base);
          Reference(k + 1, out)
  }

  lemma NoDigitsNoValue(digits: Str, base: nat)
    requires (base == 10 || base == 16) && AllDigits(digits, base)
    ensures |ConvertedUtf8(Number(digits, base) % UINT_RANGE)| <= |digits| + 3
  {
    if digits == [] { assert Number(digits, base) == 0; }
  }

  // ---------- decoding ----------

  datatype Flags = Flags(entities: bool, newlines: bool)

  /** What the text starts with: `n` bytes that become `out`, or a '&' that starts no known reference. */
  datatype Piece = Piece(n: nat, out: Str) | Ampersand

  function FirstPiece(t: Str, f: Flags): (p: Piece)
    requires t != []
    ensures p.Piece? ==> 1 <= p.n <= |t| && |p.out| <= p.n
    ensures p.Ampersand? ==> t[0] == AMP && f.entities
  {
    if f.newlines && t[0] == CR then Piece(if CharAt(t, 1) == LF then 2 else 1, [LF])
    else if f.newlines && t[0] == LF then Piece(if CharAt(t, 1) == CR then 2 else 1, [LF])
    else if f.entities && t[0] == AMP then
      if CharAt(t, 1) == HASH then
        match CharacterRef(t)
        case Reference(n, out) => Piece(n, out)
        case Unread => Piece(1, [AMP])
      else
        match FindEntity(t, 0)
        case Some(e) => Piece(|e.pattern| + 2, [e.value])
        case None => Ampersand
    else Piece(1, [t[0]])
  }

  function Consumed(p: Piece): nat { if p.Piece? then p.n else 1 }

  /** What a piece becomes, given what a '&' that starts no known reference becomes. */
  function Produced(p: Piece, unknown: byte): Str { if p.Piece? then p.out else [unknown] }

  /** The decoding a reader expects: a '&' that starts no known reference stays as it is. */
  function Decoded(t: Str, f: Flags): (r: Str)
    ensures |r| <= |t|
    decreases |t|
  {
    if t == [] then [] else
      var piece := FirstPiece(t, f);
      Produced(piece, AMP) + Decoded(t[Consumed(piece)..], f)
  }

  /**
    The decoding GetStr performs when its read pointer is at p and its write pointer at q. At a '&' that starts no
    known reference both pointers move and nothing is written, so the byte that happens to be at q remains.
  */
  function InPlace(t: Str, p: nat, q: nat, f: Flags): (r: Str)
    requires q <= p <= |t|
    ensures |r| <= |t| - p
    decreases |t| - p
  {
    if p == |t| then [] else
      var piece := FirstPiece(t[p..], f);
      var out := Produced(piece, t[q]);
      out + InPlace(t, p + Consumed(piece), q + |out|, f)
  }

  /** Wherever a '&' starts no known reference, the byte at the write pointer is a '&' too. */
  predicate NothingStale(t: Str, p: nat, q: nat, f: Flags)
    requires q <= p <= |t|
    decreases |t| - p
  {
    p == |t| ||
      var piece := FirstPiece(t[p..], f);
      (piece.Ampersand? ==> t[q] == AMP)
      && NothingStale(t, p + Consumed(piece), q + |Produced(piece, AMP)|, f)
  }

  lemma DecodedStep(t: Str, p: nat, f: Flags)
    requires p < |t|
    ensures var piece := FirstPiece(t[p..], f);
      Decoded(t[p..], f) == Produced(piece, AMP) + Decoded(t[p + Consumed(piece)..], f)
  {
    hide FirstPiece;
    DropDrop(t, p, Consumed(FirstPiece(t[p..], f)));
  }

  lemma InPlaceStep(t: Str, p: nat, q: nat, f: Flags)
    requires q <= p < |t|
    ensures var piece := FirstPiece(t[p..], f);
      var out := Produced(piece, t[q]);
      InPlace(t, p, q, f) == out + InPlace(t, p + Consumed(piece), q + |out|, f)
  {
    hide FirstPiece, Produced;
  }

  lemma PieceBounds(t: Str, f: Flags, unknown: byte)
    requires t != []
    ensures var piece := FirstPiece(t, f);
      |Produced(piece, unknown)| <= Consumed(piece) <= |t| && Consumed(piece) > 0
  {
    hide FirstPiece;
  }

  lemma SameParts(x: Str, y: Str, a: Str, b: Str)
    requires |x| == |y|
    ensures x + a == y + b <==> x == y && a == b
  {
    assert (x + a)[..|x|] == x && (y + b)[..|x|] == y;
    assert (x + a)[|x|..] == a && (y + b)[|x|..] == b;
  }

  /** When decoding in place is decoding. */
  lemma {:induction false} InPlaceDecodes(t: Str, p: nat, q: nat, f: Flags)
    requires q <= p <= |t|
    ensures InPlace(t, p, q, f) == Decoded(t[p..], f) <==> NothingStale(t, p, q, f)
    decreases |t| - p
  {
    hide FirstPiece, Decoded, InPlace;
    if p < |t| {
      var piece := FirstPiece(t[p..], f);
      var (x, y) := (Produced(piece, t[q]), Produced(piece, AMP));
      var n := p + Consumed(piece);
      DecodedStep(t, p, f);
      InPlaceStep(t, p, q, f);
      InPlaceDecodes(t, n, q + |x|, f);
      SameParts(x, y, InPlace(t, n, q + |x|, f), Decoded(t[n..], f));
      assert x == y <==> (piece.Ampersand? ==> t[q] == AMP);
    } else {
      NothingLeft(t, q, f);
    }
  }

  lemma NothingLeft(t: Str, q: nat, f: Flags)
    requires q <= |t|
    ensures InPlace(t, |t|, q, f) == [] && Decoded(t[|t|..], f) == []
  {
  }

  lemma {:induction false} KnownIsNotStale(t: Str, p: nat, q: nat, f: Flags)
    requires q <= p <= |t|
    requires forall i :: p <= i < |t| ==> FirstPiece(t[i..], f).Piece?
    ensures NothingStale(t, p, q, f)
    decreases |t| - p
  {
    hide FirstPiece;
    if p < |t| {
      var piece := FirstPiece(t[p..], f);
      KnownIsNotStale(t, p + piece.n, q + |piece.out|, f);
    }
  }

  /** Texts whose every '&' starts a known reference are decoded as a reader expects. */
  lemma KnownReferencesDecode(t: Str, f: Flags)
    requires forall i :: 0 <= i < |t| && t[i] == AMP ==> FirstPiece(t[i..], f).Piece?
    ensures InPlace(t, 0, 0, f) == Decoded(t, f)
  {
    forall i | 0 <= i < |t| ensures FirstPiece(t[i..], f).Piece? {
      assert t[i..][0] == t[i];
    }
    KnownIsNotStale(t, 0, 0, f);
    InPlaceDecodes(t, 0, 0, f);
    assert t[0..] == t;
  }

  // ---------- references to entities ----------

  function ReferenceTo(i: nat): Str
    requires i < 5
  {
    [AMP] + EntityTable(i).pattern + [SEMICOLON]
  }

  lemma {:induction false} FindsFirst(t: Str, j: nat, i: nat)
    requires j <= i < 5 && EntityAt(t, EntityTable(i))
    requires forall m :: j <= m < i ==> !EntityAt(t, EntityTable(m))
    ensures FindEntity(t, j) == Some(EntityTable(i))
    decreases i - j
  {
    hide EntityAt, EntityTable;
    if j < i { FindsFirst(t, j + 1, i); }
  }

  lemma MatchBegins(t: Str, pattern: Str)
    requires |pattern| >= 2
    ensures At(t, 1, pattern) ==> |t| > 2 && pattern[0] == t[1] && pattern[1] == t[2]
  {
  }

  /** The patterns are told apart by their first two letters. */
  lemma OtherEntity(t: Str, i: nat, m: nat)
    requires i < 5 && m < i && EntityAt(t, EntityTable(i))
    ensures !EntityAt(t, EntityTable(m))
  {
    var (p, o) := (EntityTable(i).pattern, EntityTable(m).pattern);
    MatchBegins(t, p);
    MatchBegins(t, o);
  }

  lemma ReferenceDecodes(i: nat, rest: Str, f: Flags)
    requires i < 5 && f.entities
    ensures FirstPiece(ReferenceTo(i) + rest, f) == Piece(|ReferenceTo(i)|, [EntityTable(i).value])
  {
    var t := ReferenceTo(i) + rest;
    var pattern := EntityTable(i).pattern;
    assert t[1..1 + |pattern|] == pattern && t[|pattern| + 1] == SEMICOLON && t[0] == AMP && t[1] == pattern[0];
    forall m | 0 <= m < i ensures !EntityAt(t, EntityTable(m)) { OtherEntity(t, i, m); }
    FindsFirst(t, 0, i);
  }

  // ---------- encoding ----------

  /** The characters the printer replaces: all five in attributes, only '&', '<' and '>' in text. */
  function EntityOf(c: byte, restricted: bool): (i: nat)
    ensures i <= 5 && (i < 5 ==> EntityTable(i).value == c)
  {
    if c == AMP then 1 else if c == LT then 3 else if c == GT then 4
    else if restricted then 5
    else if c == QUOTE then 0 else if c == APOS then 2 else 5
  }

  function PrintedChar(c: byte, restricted: bool): Str {
    var i := EntityOf(c, restricted);
    if i < 5 then ReferenceTo(i) else [c]
  }

  function Printed(s: Str, restricted: bool): Str {
    if s == [] then [] else PrintedChar(s[0], restricted) + Printed(s[1..], restricted)
  }

  const TEXT: Flags := Flags(true, true)

  /** How many characters one piece of printed text stands for: a CR LF or LF CR pair goes together. */
  function PairLength(s: Str): (k: nat)
    requires s != []
    ensures 1 <= k <= |s|
  {
    if |s| > 1 && ((s[0] == CR && s[1] == LF) || (s[0] == LF && s[1] == CR)) then 2 else 1
  }

  lemma PrintedStart(s: Str, restricted: bool, c: byte)
    requires c == CR || c == LF
    ensures CharAt(Printed(s, restricted), 0) == c <==> s != [] && s[0] == c
    ensures s != [] && s[0] == c ==> Printed(s, restricted) == [c] + Printed(s[1..], restricted)
  {
    if s != [] && EntityOf(s[0], restricted) < 5 { assert Printed(s, restricted)[0] == AMP; }
  }

  lemma PrintedFirst(s: Str, restricted: bool)
    requires s != []
    ensures var t := Printed(s, restricted);
      var piece := FirstPiece(t, TEXT);
      && t != [] && piece.Piece? && t[piece.n..] == Printed(s[PairLength(s)..], restricted)
      && piece.out == [if s[0] == CR then LF else s[0]]
  {
    hide EntityTable, Printed, CharacterRef, FindEntity;
    var rest := Printed(s[1..], restricted);
    var t := Printed(s, restricted);
    PrintedStep(s, restricted);
    var i := EntityOf(s[0], restricted);
    if i < 5 {
      ReferenceDecodes(i, rest, TEXT);
      assert (ReferenceTo(i) + rest)[|ReferenceTo(i)|..] == rest;
    } else {
      assert t[1..] == rest && CharAt(t, 1) == CharAt(rest, 0);
      PrintedStart(s[1..], restricted, CR);
      PrintedStart(s[1..], restricted, LF);
      if PairLength(s) == 2 {
        PrintedStart(s[1..], restricted, s[1]);
        assert s[1..][1..] == s[2..] && t[2..] == rest[1..];
      }
    }
  }

  lemma PrintedStep(s: Str, restricted: bool)
    requires s != []
    ensures Printed(s, restricted) == PrintedChar(s[0], restricted) + Printed(s[1..], restricted)
  {
  }

  lemma {:induction false} DecodedPrinted(s: Str, restricted: bool)
    ensures CR !in Decoded(Printed(s, restricted), TEXT)
    ensures CR !in s ==> Decoded(Printed(s, restricted), TEXT) == s
    decreases |s|
  {
    hide FirstPiece, Printed;
    if s == [] {
      PrintedNothing(restricted);
    } else {
      PrintedFirst(s, restricted);
      DecodedPrinted(s[PairLength(s)..], restricted);
      assert s == [s[0]] + s[1..];
    }
  }

  lemma PrintedNothing(restricted: bool)
    ensures Printed([], restricted) == []
  {
  }

  lemma {:induction false} PrintedIsNotStale(s: Str, restricted: bool, t: Str, p: nat, q: nat)
    requires q <= p <= |t| && t[p..] == Printed(s, restricted)
    ensures NothingStale(t, p, q, TEXT)
    decreases |s|
  {
    hide FirstPiece, Printed;
    if s == [] {
      PrintedNothing(restricted);
    } else {
      PrintedFirst(s, restricted);
      var piece := FirstPiece(t[p..], TEXT);
      DropDrop(t, p, piece.n);
      PieceBounds(t[p..], TEXT, AMP);
      PrintedIsNotStale(s[PairLength(s)..], restricted, t, p + piece.n, q + 1);
    }
  }

  /** Whatever the string, CR never comes back. */
  lemma ReadBack(k: Str, restricted: bool)
    ensures CR !in InPlace(Printed(k, restricted), 0, 0, TEXT)
    ensures CR !in k ==> InPlace(Printed(k, restricted), 0, 0, TEXT) == k
  {
    var t := Printed(k, restricted);
    assert t[0..] == t;
    PrintedIsNotStale(k, restricted, t, 0, 0);
    InPlaceDecodes(t, 0, 0, TEXT);
    DecodedPrinted(k, restricted);
  }

  /** Decoding in place the escaped form of a whole string gives the string back exactly when no CR is in it. */
  lemma DecodingInvertsEscaping(s: Str, restricted: bool)
    ensures InPlace(Printed(s, restricted), 0, 0, TEXT) == s <==> CR !in s
  {
    hide InPlace, Printed;
    ReadBack(s, restricted);
  }

  // ---------- what PrintString writes ----------

  /** The bytes before the first NUL. */
  function CString(s: Str): (r: Str)
    ensures r <= s
  {
    if s == [] || s[0] == 0 then [] else [s[0]] + CString(s[1..])
  }

  lemma {:induction false} CStringWhole(s: Str)
    requires 0 !in s
    ensures CString(s) == s
  {
    if s != [] { CStringWhole(s[1..]); }
  }

  /** How many bytes at the end of s are copied as they are. */
  function LastRun(s: Str, restricted: bool): (n: nat)
    ensures n <= |s|
  {
    if s == [] || EntityOf(s[|s| - 1], restricted) < 5 then 0 else LastRun(s[..|s| - 1], restricted) + 1
  }

  /** The bytes of which the escaped form is written: those before a NUL, and of the last run only INT_MAX. */
  function Kept(s: Str, restricted: bool): (r: Str)
    ensures r <= s
  {
    var c := CString(s);
    var n := LastRun(c, restricted);
    if n <= INT_MAX then c else c[..|c| - n + INT_MAX]
  }

  predicate PrintsWhole(s: Str, restricted: bool) {
    0 !in s && LastRun(s, restricted) <= INT_MAX
  }

  lemma {:induction false} CStringStops(s: Str)
    ensures 0 !in CString(s)
    ensures |CString(s)| < |s| ==> s[|CString(s)|] == 0
  {
    if s != [] && s[0] != 0 { CStringStops(s[1..]); }
  }

  lemma KeptWhole(s: Str, restricted: bool)
    ensures Kept(s, restricted) == s <==> PrintsWhole(s, restricted)
  {
    CStringStops(s);
    if 0 !in s {
      CStringWhole(s);
    } else {
      assert CString(s) != s;
      assert |Kept(s, restricted)| <= |CString(s)| < |s|;
    }
  }

  /**
    Decoding in place what PrintString writes gives the string back exactly when it contains neither CR nor NUL and
    ends with at most INT_MAX bytes that need no escape.
  */
  lemma DecodingInvertsPrinting(s: Str, restricted: bool)
    ensures InPlace(Printed(Kept(s, restricted), restricted), 0, 0, TEXT) == s <==> CR !in s && PrintsWhole(s, restricted)
  {
    hide InPlace, Printed, Kept, PrintsWhole, Decoded;
    var k := Kept(s, restricted);
    KeptWhole(s, restricted);
    ReadBack(k, restricted);
    if k != s && CR in k { assert CR in s by { assert k <= s; } }
  }

  /** A run one byte too long loses its last byte; behind a NUL everything is lost. */
  lemma LongRunIsCut(restricted: bool)
    ensures var long: Str := seq(INT_MAX + 1, _ => LOWER_X);
      CR !in long && 0 !in long && InPlace(Printed(Kept(long, restricted), restricted), 0, 0, TEXT) != long
    ensures InPlace(Printed(Kept([LOWER_X, 0, LOWER_X], restricted), restricted), 0, 0, TEXT) == [LOWER_X]
  {
    hide InPlace, Printed, Kept;
    var long: Str := seq(INT_MAX + 1, _ => LOWER_X);
    RawRunLength(long, restricted);
    DecodingInvertsPrinting(long, restricted);
    ReadBack([LOWER_X], restricted);
    KeptBeforeNul(restricted);
  }

  lemma KeptBeforeNul(restricted: bool)
    ensures Kept([LOWER_X, 0, LOWER_X], restricted) == [LOWER_X]
  {
    var s := [LOWER_X, 0, LOWER_X];
    assert s[1..] == [0, LOWER_X] && CString(s[1..]) == [];
  }

  lemma {:induction false} RawRunLength(s: Str, restricted: bool)
    requires forall i :: 0 <= i < |s| ==> EntityOf(s[i], restricted) == 5
    ensures LastRun(s, restricted) == |s|
  {
    if s != [] { RawRunLength(s[..|s| - 1], restricted); }
  }

  /** "&lt;&x;" becomes "<lx;": behind a reference that has shrunk, an unknown '&' is replaced by a stale byte. */
  lemma UnknownReferenceIsClobbered()
    ensures var t := [AMP, 0x6C, 0x74, SEMICOLON, AMP, LOWER_X, SEMICOLON];
      var f := Flags(true, true);
      && InPlace(t, 0, 0, f) == [LT, 0x6C, LOWER_X, SEMICOLON]
      && Decoded(t, f) == [LT, AMP, LOWER_X, SEMICOLON]
  {
    var t := [AMP, 0x6C, 0x74, SEMICOLON, AMP, LOWER_X, SEMICOLON];
    var f := Flags(true, true);
    assert t[4..] == [AMP, LOWER_X, SEMICOLON] && t[5..] == [LOWER_X, SEMICOLON] && t[6..] == [SEMICOLON];
    assert t == ReferenceTo(3) + t[4..] && t[0..] == t;
    ReferenceDecodes(3, t[4..], f);
    NoEntityIn(t[4..], f);
    OtherPiece(t[5..], f);
    OtherPiece(t[6..], f);
    ClobberedRun(t, f);
  }

  lemma ClobberedRun(t: Str, f: Flags)
    requires |t| == 7 && FirstPiece(t, f) == Piece(4, [LT]) && FirstPiece(t[4..], f) == Ampersand
    requires FirstPiece(t[5..], f) == Piece(1, [t[5]]) && FirstPiece(t[6..], f) == Piece(1, [t[6]])
    ensures InPlace(t, 0, 0, f) == [LT, t[1], t[5], t[6]] && Decoded(t, f) == [LT, AMP, t[5], t[6]]
  {
    hide FirstPiece, InPlace, Decoded;
    assert t[0..] == t;
    InPlaceStep(t, 0, 0, f);
    InPlaceStep(t, 4, 1, f);
    InPlaceStep(t, 5, 2, f);
    InPlaceStep(t, 6, 3, f);
    DecodedStep(t, 0, f);
    DecodedStep(t, 4, f);
    DecodedStep(t, 5, f);
    DecodedStep(t, 6, f);
    NothingLeft(t, 4, f);
  }

  lemma NoEntityIn(t: Str, f: Flags)
    requires t == [AMP, LOWER_X, SEMICOLON] && f.entities
    ensures FirstPiece(t, f) == Ampersand
  {
    forall m | 0 <= m < 5 ensures !EntityAt(t, EntityTable(m)) {
      var p := EntityTable(m).pattern;
      MatchBegins(t, p);
    }
  }

  lemma OtherPiece(t: Str, f: Flags)
    requires t != [] && t[0] != CR && t[0] != LF && t[0] != AMP
    ensures FirstPiece(t, f) == Piece(1, [t[0]])
  {
  }

  // ---------- the code ----------

  /** Writes the bytes of a code point backwards, from the last to the first. */
  method ConvertUtf32ToUtf8(input: nat, output: array<byte>) returns (length: nat)
    requires output.Length >= 4
    modifies output
    ensures length == |ConvertedUtf8(input)| && output[..length] == ConvertedUtf8(input)
  {
    if input >= 0x20_0000 { return 0; }
    length := if input < 0x80 then 1 else if input < 0x800 then 2 else if input < 0x1_0000 then 3 else 4;
    var rest := input;
    var o := length;
    if length >= 4 { o := o - 1; output[o] := Utf8.Mark(rest); rest := rest / 64; }
    if length >= 3 { o := o - 1; output[o] := Utf8.Mark(rest); rest := rest / 64; }
    if length >= 2 { o := o - 1; output[o] := Utf8.Mark(rest); rest := rest / 64; }
    var mark := if length == 1 then 0 else if length == 2 then 0xC0 else if length == 3 then 0xE0 else 0xF0;
    output[0] := (rest + mark) as byte;
  }

  method FindChar(t: Str, from: nat, c: byte) returns (k: int)
    requires c != 0
    ensures k == StrChr(t, from, c)
  {
    k := from;
    while CharAt(t, k) != 0 && t[k] != c
      invariant from <= k && StrChr(t, from, c) == StrChr(t, k, c)
      decreases |t| - k
    {
      k := k + 1;
    }
    if CharAt(t, k) == 0 { k := -1; }
  }

  function Power(base: nat, n: nat): nat {
    if n == 0 then 1 else base * Power(base, n - 1)
  }

  lemma {:induction false} NumberFront(s: Str, base: nat)
    requires (base == 10 || base == 16) && AllDigits(s, base) && s != []
    ensures Number(s, base) == Power(base, |s| - 1) * Digit(s[0], base) + Number(s[1..], base)
  {
    var n := |s| - 1;
    if n > 0 {
      NumberFront(s[..n], base);
      assert s[..n][1..] == s[1..][..n - 1] && s[1..][n - 1] == s[n];
      ShiftDigit(base, Power(base, n - 1), Digit(s[0], base), Number(s[..n][1..], base), Digit(s[n], base));
    }
  }

  lemma ShiftDigit(base: nat, power: nat, d: int, tail: int, last: int)
    ensures base * (power * d + tail) + last == base * power * d + (base * tail + last)
  {
  }

  /** Arithmetic modulo 2^32 may be reduced at any time. */
  lemma ReduceProduct(a: nat, d: nat)
    ensures (a % UINT_RANGE * d) % UINT_RANGE == (a * d) % UINT_RANGE
  {
    var (q, r) := (a / UINT_RANGE, a % UINT_RANGE);
    assert a * d == r * d + UINT_RANGE * (q * d) by { assert a == UINT_RANGE * q + r; Expand(UINT_RANGE, q, r, d); }
    AddMultiple(r * d, q * d);
  }

  lemma Expand(m: nat, q: nat, r: nat, d: nat)
    ensures (m * q + r) * d == r * d + m * (q * d)
  {
  }

  lemma AddMultiple(x: nat, k: nat)
    ensures (x + UINT_RANGE * k) % UINT_RANGE == x % UINT_RANGE
  {
  }

  lemma ReduceSum(a: nat, b: nat)
    ensures (a % UINT_RANGE + b % UINT_RANGE) % UINT_RANGE == (a + b) % UINT_RANGE
  {
  }

  lemma BehindLastStep(t: Str, from: nat, q: nat, k: nat, mark: byte)
    requires from <= q < k <= |t| && t[q] != mark
    ensures BehindLast(t[from..q + 1], mark) + t[q + 1..k] == BehindLast(t[from..q], mark) + t[q..k]
  {
    assert t[from..q + 1][..q - from] == t[from..q];
    assert t[q..k] == [t[q]] + t[q + 1..k];
    Reassociate(BehindLast(t[from..q], mark), [t[q]], t[q + 1..k]);
  }

  lemma NotAllDigits(s: Str, front: Str, c: byte, rest: Str, base: nat)
    requires (base == 10 || base == 16) && s == front + ([c] + rest) && Digit(c, base) < 0
    ensures !AllDigits(s, base)
  {
    assert s[|front|] == c;
  }

  /** The digits from k back to the nearest mark, with unsigned arithmetic that wraps around. */
  method ReadDigits(t: Str, from: nat, k: nat, mark: byte, base: nat) returns (ok: bool, ucs: nat)
    requires 1 <= from <= k <= |t| && t[from - 1] == mark && (base == 10 || base == 16)
    ensures ok == AllDigits(BehindLast(t[from..k], mark), base)
    ensures ok ==> ucs == Number(BehindLast(t[from..k], mark), base) % UINT_RANGE
  {
    hide BehindLast, Number, Power, AllDigits;
    ucs := 0;
    var mult := 1;
    var q := k - 1;
    NoDigits(t[k..k], base);
    while t[q] != mark
      invariant from - 1 <= q < k
      invariant BehindLast(t[from..k], mark) == BehindLast(t[from..q + 1], mark) + t[q + 1..k]
      invariant AllDigits(t[q + 1..k], base)
      invariant ucs == Number(t[q + 1..k], base) % UINT_RANGE && mult == Power(base, k - q - 1) % UINT_RANGE
      decreases q
    {
      var digit := Digit(t[q], base);
      BehindLastStep(t, from, q, k, mark);
      if digit < 0 {
        assert t[q..k] == [t[q]] + t[q + 1..k];
        NotAllDigits(BehindLast(t[from..k], mark), BehindLast(t[from..q], mark), t[q], t[q + 1..k], base);
        return false, 0;
      }
      Accumulate(t, q, k, base, ucs, mult);
      ucs := (ucs + mult * digit % UINT_RANGE) % UINT_RANGE;
      mult := mult * base % UINT_RANGE;
      q := q - 1;
    }
    NothingBehind(t[from..q + 1], mark);
    assert [] + t[q + 1..k] == t[q + 1..k];
    ok := true;
  }

  lemma DigitAdded(t: Str, q: nat, k: nat, base: nat)
    requires q < k <= |t| && (base == 10 || base == 16) && AllDigits(t[q + 1..k], base) && Digit(t[q], base) >= 0
    ensures AllDigits(t[q..k], base)
    ensures Number(t[q..k], base) == Power(base, k - q - 1) * Digit(t[q], base) + Number(t[q + 1..k], base)
    ensures Power(base, k - q) == Power(base, k - q - 1) * base
  {
    assert t[q..k][1..] == t[q + 1..k] && t[q..k][0] == t[q];
    NumberFront(t[q..k], base);
  }

  lemma Accumulate(t: Str, q: nat, k: nat, base: nat, ucs: nat, mult: nat)
    requires q < k <= |t| && (base == 10 || base == 16) && AllDigits(t[q + 1..k], base) && Digit(t[q], base) >= 0
    requires ucs == Number(t[q + 1..k], base) % UINT_RANGE && mult == Power(base, k - q - 1) % UINT_RANGE
    ensures AllDigits(t[q..k], base)
    ensures (ucs + mult * Digit(t[q], base) % UINT_RANGE) % UINT_RANGE == Number(t[q..k], base) % UINT_RANGE
    ensures mult * base % UINT_RANGE == Power(base, k - q) % UINT_RANGE
  {
    hide AllDigits, Number, Power, Digit;
    var (power, digit) := (Power(base, k - q - 1), Digit(t[q], base));
    DigitAdded(t, q, k, base);
    ReduceProduct(power, digit);
    ReduceSum(power * digit, Number(t[q + 1..k], base));
    ReduceProduct(power, base);
  }

  lemma NothingBehind(s: Str, mark: byte)
    requires s == [] || s[|s| - 1] == mark
    ensures BehindLast(s, mark) == []
  {
  }

  lemma NoDigits(s: Str, base: nat)
    requires s == [] && (base == 10 || base == 16)
    ensures AllDigits(s, base) && Number(s, base) == 0 && Power(base, 0) == 1
  {
  }

  /** What the buffer holds from p on; the byte at `end` is NUL. */
  method GetCharacterRef(buf: array<byte>, p: nat, end: nat, value: array<byte>) returns (r: Option<nat>, length: nat)
    requires p + 2 <= end < buf.Length && buf[p] == AMP && buf[p + 1] == HASH && buf != value && value.Length == 10
    modifies value
    ensures match CharacterRef(buf[p..end])
      case Unread => r == None
      case Reference(n, out) => r == Some(p + n) && length == |out| && value[..length] == out
    ensures length <= 4
  {
    hide BehindLast, AllDigits, Number, StrChr, ConvertedUtf8;
    var t := buf[p..end];
    length := 0;
    if CharAt(t, 2) == 0 { return Some(p + 1), 0; }
    var hex := t[2] == LOWER_X;
    var (from, mark, base) := if hex then (3, LOWER_X, 16) else (2, HASH, 10);
    if CharAt(t, from) == 0 { return None, 0; }
    var k := FindChar(t, from, SEMICOLON);
    if k < 0 { return None, 0; }
    var ok, ucs := ReadDigits(t, from, k, mark, base);
    if !ok { return None, 0; }
    length := ConvertUtf32ToUtf8(ucs, value);
    r := Some(p + k + 1);
  }

  lemma WrittenParts(before: Str, after: Str, start: nat, q: nat, end: nat, out: Str)
    requires |before| == |after| && start <= q <= q + |out| <= end < |before|
    requires after[q..q + |out|] == out
    requires forall i :: 0 <= i < |before| && !(q <= i < q + |out|) ==> after[i] == before[i]
    ensures after[start..q + |out|] == before[start..q] + out
    ensures after[q + |out|..end] == before[q..end][|out|..]
  {
    assert after[start..q + |out|] == after[start..q] + after[q..q + |out|];
    assert after[start..q] == before[start..q];
  }

  /** A string of the document: a stretch of the parse buffer, to be decoded when it is first read. */
  class StrPair {
    const buf: array<byte>
    const start: nat
    const end: nat
    var flags: Flags
    var needsFlush: bool

    ghost predicate Valid() {
      start <= end < buf.Length
    }

    /** Set: the text between two pointers into the parse buffer. */
    constructor (buf: array<byte>, start: nat, end: nat, flags: Flags)
      requires start <= end < buf.Length
      ensures Valid() && this.buf == buf && this.start == start && this.end == end
      ensures this.flags == flags && needsFlush
    {
      this.buf, this.start, this.end, this.flags, needsFlush := buf, start, end, flags, true;
    }

    ghost predicate Wrote(before: Str, q: nat, out: Str)
      reads buf
      requires q <= buf.Length && |before| == buf.Length
    {
      && q + |out| <= buf.Length && buf[q..q + |out|] == out
      && forall i :: 0 <= i < buf.Length && !(q <= i < q + |out|) ==> buf[i] == before[i]
    }

    /** A numeric reference: the bytes of the character are copied to the write pointer. */
    method DecodeReference(p: nat, q: nat) returns (p': nat, q': nat)
      requires Valid() && q <= p && p + 2 <= end && buf[p] == AMP && buf[p + 1] == HASH
      modifies buf
      ensures var piece := match CharacterRef(old(buf[p..end])) case Reference(n, out) => Piece(n, out) case Unread => Piece(1, [AMP]);
        p' == p + piece.n && q' == q + |piece.out| && Wrote(old(buf[..]), q, piece.out)
    {
      hide CharacterRef;
      var value := new byte[10];
      var adjusted, len := GetCharacterRef(buf, p, end, value);
      if adjusted == None {
        buf[q] := buf[p];
        return p + 1, q + 1;
      }
      assert q + len <= adjusted.value;
      var i := 0;
      while i < len
        modifies buf
        invariant 0 <= i <= len
        invariant forall j :: 0 <= j < i ==> buf[q + j] == value[j]
        invariant forall j :: 0 <= j < buf.Length && !(q <= j < q + i) ==> buf[j] == old(buf[j])
      {
        buf[q + i] := value[i];
        i := i + 1;
      }
      assert buf[q..q + len] == value[..len];
      p', q' := adjusted.value, q + len;
    }

    /** The table of entities is searched; when nothing matches, the pointers move and nothing is written. */
    method DecodeEntity(p: nat, q: nat) returns (p': nat, q': nat)
      requires Valid() && q <= p < end
      modifies buf
      ensures var piece := match FindEntity(old(buf[p..end]), 0) case Some(e) => Piece(|e.pattern| + 2, [e.value]) case None => Ampersand;
        p' == p + Consumed(piece) && q' == q + 1 && Wrote(old(buf[..]), q, Produced(piece, old(buf[q])))
    {
      hide EntityTable, EntityAt;
      var t := buf[p..end];
      for i := 0 to 5
        invariant FindEntity(t, 0) == FindEntity(t, i) && buf[..] == old(buf[..])
      {
        if EntityAt(t, EntityTable(i)) {
          buf[q] := EntityTable(i).value;
          return p + |EntityTable(i).pattern| + 2, q + 1;
        }
      }
      return p + 1, q + 1;
    }

    /** One round of the decoding loop; only the bytes at the write pointer change. */
    method DecodePiece(p: nat, q: nat) returns (p': nat, q': nat)
      requires Valid() && start <= q <= p < end && buf[end] == 0
      modifies buf
      ensures var piece := FirstPiece(old(buf[p..end]), flags);
        var out := Produced(piece, old(buf[q]));
        p' == p + Consumed(piece) && q' == q + |out| && Wrote(old(buf[..]), q, out)
    {
      hide CharacterRef, FindEntity, EntityAt;
      ghost var t := buf[p..end];
      assert p + 1 < end ==> t[1] == buf[p + 1];
      if flags.newlines && buf[p] == CR {
        p' := if buf[p + 1] == LF then p + 2 else p + 1;
        buf[q] := LF;
        q' := q + 1;
      } else if flags.newlines && buf[p] == LF {
        p' := if buf[p + 1] == CR then p + 2 else p + 1;
        buf[q] := LF;
        q' := q + 1;
      } else if flags.entities && buf[p] == AMP {
        if buf[p + 1] == HASH {
          p', q' := DecodeReference(p, q);
        } else {
          p', q' := DecodeEntity(p, q);
        }
      } else {
        buf[q] := buf[p];
        p', q' := p + 1, q + 1;
      }
    }

    /**
      GetStr decodes the text on the first call, inside its own stretch of the buffer, and ends it with a NUL; later
      calls change nothing. The string is what is in the buffer from `start` on.
    */
    method GetStr() returns (ghost length: nat)
      requires Valid()
      modifies this, buf
      ensures flags == Flags(false, false) && !needsFlush
      ensures !old(needsFlush) ==> buf[..] == old(buf[..])
      ensures old(needsFlush) ==>
        var text := old(buf[start..end]);
        var value := if old(flags) == Flags(false, false) then text else InPlace(text, 0, 0, old(flags));
        length == |value| && start + length <= end && buf[start..start + length] == value && buf[start + length] == 0
      ensures forall i :: 0 <= i < buf.Length && !(start <= i <= end) ==> buf[i] == old(buf[i])
    {
      hide InPlace;
      length := 0;
      if needsFlush {
        buf[end] := 0;
        needsFlush := false;
        length := end - start;
        if flags.entities || flags.newlines {
          var q := DecodeAll();
          buf[q] := 0;
          length := q - start;
        }
      }
      flags := Flags(false, false);
    }

    /** The decoding loop. */
    method DecodeAll() returns (q: nat)
      requires Valid() && buf[end] == 0
      modifies buf
      ensures start <= q <= end && buf[start..q] == InPlace(old(buf[start..end]), 0, 0, flags)
      ensures forall i :: 0 <= i < buf.Length && !(start <= i <= end) ==> buf[i] == old(buf[i])
    {
      hide InPlace;
      ghost var text := buf[start..end];
      var p := start;
      q := start;
      assert [] + InPlace(text, 0, 0, flags) == InPlace(text, 0, 0, flags) && buf[start..start] == [];
      while p < end
        invariant start <= q <= p <= end && buf[end] == 0
        invariant buf[q..end] == text[q - start..]
        invariant buf[start..q] + InPlace(text, p - start, q - start, flags) == InPlace(text, 0, 0, flags)
        invariant forall i :: 0 <= i < buf.Length && !(start <= i <= end) ==> buf[i] == old(buf[i])
      {
        p, q := DecodeNext(p, q, text);
      }
      NothingLeft(text, q - start, flags);
      assert buf[start..q] + [] == buf[start..q];
    }

    /** A round of the loop, seen from the whole text. */
    method DecodeNext(p: nat, q: nat, ghost text: Str) returns (p': nat, q': nat)
      requires Valid() && start <= q <= p < end && buf[end] == 0
      requires |text| == end - start && buf[q..end] == text[q - start..]
      modifies buf
      ensures p < p' <= end && start <= q' <= p' && buf[end] == 0
      ensures buf[q'..end] == text[q' - start..]
      ensures buf[start..q'] + InPlace(text, p' - start, q' - start, flags)
        == old(buf[start..q]) + InPlace(text, p - start, q - start, flags)
      ensures forall i :: 0 <= i < buf.Length && !(start <= i <= end) ==> buf[i] == old(buf[i])
    {
      hide FirstPiece, InPlace, Produced, Consumed;
      ghost var before := buf[..];
      SameSuffix(text, before, start, p, q, end);
      PieceBounds(text[p - start..], flags, text[q - start]);
      p', q' := DecodePiece(p, q);
      RoundDone(text, before, buf[..], start, p, q, end, flags);
    }
  }

  lemma SameSuffix(text: Str, buf: Str, start: nat, p: nat, q: nat, end: nat)
    requires start <= q <= p < end < |buf| && |text| == end - start && buf[q..end] == text[q - start..]
    ensures buf[p..end] == text[p - start..] && buf[q] == text[q - start]
  {
    DropDrop(text, q - start, p - q);
    assert buf[p..end] == buf[q..end][p - q..];
    assert buf[q..end][0] == text[q - start..][0];
  }

  lemma RoundDone(text: Str, before: Str, after: Str, start: nat, p: nat, q: nat, end: nat, f: Flags)
    requires start <= q <= p < end < |before| && |after| == |before| && |text| == end - start
    requires before[q..end] == text[q - start..]
    requires var piece := FirstPiece(text[p - start..], f);
      var out := Produced(piece, text[q - start]);
      && after[q..q + |out|] == out
      && forall i :: 0 <= i < |before| && !(q <= i < q + |out|) ==> after[i] == before[i]
    ensures var piece := FirstPiece(text[p - start..], f);
      var (p', q') := (p + Consumed(piece), q + |Produced(piece, text[q - start])|);
      && after[q'..end] == text[q' - start..]
      && after[start..q'] + InPlace(text, p' - start, q' - start, f)
        == before[start..q] + InPlace(text, p - start, q - start, f)
  {
    hide FirstPiece, InPlace, Produced, Consumed;
    PieceBounds(text[p - start..], f, text[q - start]);
    InPlaceStep(text, p - start, q - start, f);
    var piece := FirstPiece(text[p - start..], f);
    var out := Produced(piece, text[q - start]);
    var (p', q') := (p + Consumed(piece), q + |out|);
    WrittenParts(before, after, start, q, end, out);
    DropDrop(text, q - start, |out|);
    Reassociate(before[start..q], out, InPlace(text, p' - start, q' - start, f));
  }
}
