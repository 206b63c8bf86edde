/** Reading a chunked HTTP body (RFC 7230, section 4.1) from a socket that delivers the bytes in arbitrary pieces. */
module ChunkedReader {
  import opened Bytes
  import opened Decimals
  import opened Hexadecimals
  import opened Wrappers

  const CRLF: Str := [CR, LF]

  /** unsigned long of the platform the client is built for. */
  const ULONG_MAX: int := 0xFFFF_FFFF

  // ---------- std::stoul(line, 0, 16) ----------

  function HexPrefix(s: Str): (p: Str)
    ensures p <= s && forall i :: 0 <= i < |p| ==> IsHex(p[i])
  {
    if s != [] && IsHex(s[0]) then [s[0]] + HexPrefix(s[1..]) else []
  }

  /** The number a run of hexadecimal digits denotes. */
  function HexNumber(s: Str): nat
    requires forall i :: 0 <= i < |s| ==> IsHex(s[i])
  {
    if s == [] then 0 else 16 * HexNumber(s[..|s| - 1]) + HexDigitValue(s[|s| - 1])
  }

  function Unprefixed(s: Str): Str {
    if |s| > 2 && s[0] == ZERO && (s[1] == 0x78 || s[1] == 0x58) && IsHex(s[2]) then s[2..] else s
  }

  /** Blanks, an optional sign, an optional "0x", then digits; what follows the digits is ignored. */
  function Stoul(s: Str): (r: Result<nat>)
    ensures r.Ok? ==> r.value <= ULONG_MAX
  {
    var body := SkipSpaces(s);
    var signed := body != [] && (body[0] == MINUS || body[0] == PLUS);
    var digits := HexPrefix(Unprefixed(if signed then body[1..] else body));
    if digits == [] then Err(InvalidArgument)
    else if HexNumber(digits) > ULONG_MAX then Err(OutOfRange)
    else if signed && body[0] == MINUS then Ok((ULONG_MAX + 1 - HexNumber(digits)) % (ULONG_MAX + 1))
    else Ok(HexNumber(digits))
  }

  // ---------- what the body means, as a function of the whole byte stream ----------

  datatype Outcome =
    | Complete      // the callback gets no error
    | MessageSize   // a stream buffer is full
    | ProtocolError // the size line is not a number
    | EndOfStream   // the peer closed the connection
    | Undefined     // pop_back on an empty line, or a size no buffer can have

  datatype Body = Body(outcome: Outcome, content: Str, rest: Str)

  function IndexOf(s: Str, c: byte): (i: int)
    ensures -1 <= i < |s|
    ensures i >= 0 ==> s[i] == c && forall k :: 0 <= k < i ==> s[k] != c
    ensures i == -1 ==> forall k :: 0 <= k < |s| ==> s[k] != c
  {
    if s == [] then -1 else if s[0] == c then 0 else
      var i := IndexOf(s[1..], c);
      if i < 0 then -1 else i + 1
  }

  predicate CrlfAt(s: Str, i: int) { 0 <= i && i + 2 <= |s| && s[i] == CR && s[i + 1] == LF }

  /** Where the first CR LF starts, or -1. */
  function FirstCrlf(s: Str): (i: int)
    ensures i >= 0 ==> CrlfAt(s, i) && forall k :: 0 <= k < i ==> !CrlfAt(s, k)
    ensures i < 0 ==> i == -1 && forall k :: 0 <= k ==> !CrlfAt(s, k)
  {
    if |s| < 2 then -1 else if CrlfAt(s, 0) then 0 else
      var i := FirstCrlf(s[1..]);
      assert forall k :: 1 <= k ==> CrlfAt(s, k) == CrlfAt(s[1..], k - 1);
      if i < 0 then -1 else i + 1
  }

  /** The size line at the front of the stream: getline up to the first LF, without the last byte before it. */
  datatype SizeLine = SizeLine(line: Str, end: nat) | NoLine | EmptyLine

  function ReadSizeLine(s: Str): (l: SizeLine)
    ensures l.SizeLine? ==> 0 < |l.line| + 1 < l.end <= |s|
  {
    var p := FirstCrlf(s);
    if p < 0 then NoLine else
      var n := IndexOf(s, LF);
      if n <= 0 then EmptyLine else SizeLine(s[..n - 1], p + 2)
  }

  /** The outcome and the content for a given stream; `content` holds the chunks already read. */
  function Chunked(s: Str, content: Str): (b: Body)
    decreases |s|
  {
    match ReadSizeLine(s)
    case NoLine => Body(EndOfStream, content, s)
    case EmptyLine => Body(Undefined, content, s)
    case SizeLine(line, end) =>
      match Stoul(line)
      case Err(_) => Body(ProtocolError, content, s)
      case Ok(length) =>
        var data := |line| + 2;
        if length > ULONG_MAX - 2 then Body(Undefined, content, s)
        else if |s| < end + length + 2 then Body(EndOfStream, content, s)
        else if length == 0 then Body(Complete, content, s[data + 2..])
        else Chunked(s[data + length + 2..], content + s[data..data + length])
  }

  // ---------- the socket ----------

  /** `pending` is what the peer will send; each read delivers any nonempty piece of it. */
  class Socket {
    var pending: Str

    constructor (bytes: Str)
      ensures pending == bytes
    {
      pending := bytes;
    }

    method ReadSome(max: nat) returns (data: Str)
      requires pending != [] && max > 0
      modifies this
      ensures 1 <= |data| <= max && old(pending) == data + pending
    {
      var n :| 1 <= n <= max && n <= |pending|;
      data := pending[..n];
      pending := pending[n..];
    }
  }

  datatype ReadError = Success | NotFound | Eof

  lemma FirstCrlfExtends(s: Str, more: Str)
    requires FirstCrlf(s) >= 0
    ensures FirstCrlf(s + more) == FirstCrlf(s)
    ensures IndexOf(s + more, LF) == IndexOf(s, LF)
  {
    var (i, j) := (FirstCrlf(s), FirstCrlf(s + more));
    assert CrlfAt(s + more, i);
    assert forall k :: 0 <= k < i ==> CrlfAt(s + more, k) == CrlfAt(s, k);
    assert s[i + 1] == LF && forall k :: 0 <= k < |s| ==> (s + more)[k] == s[k];
  }

  /** async_read_until(socket, buffer, "\r\n"), followed by the handler's test for a full buffer. */
  method ReadUntilCrlf(sock: Socket, buffer: Str, maxSize: nat) returns (buf: Str, ec: ReadError)
    modifies sock
    ensures buf + sock.pending == buffer + old(sock.pending)
    ensures ec == Success ==> FirstCrlf(buf) >= 0
    ensures ec == Eof ==> sock.pending == [] && FirstCrlf(buf) < 0
    ensures ec == NotFound ==> |buf| >= maxSize
  {
    buf := buffer;
    while FirstCrlf(buf) < 0
      invariant buf + sock.pending == buffer + old(sock.pending)
      decreases |sock.pending|
    {
      if |buf| >= maxSize { return buf, NotFound; }
      if sock.pending == [] { return buf, Eof; }
      ghost var (before, pending) := (buf, sock.pending);
      var data := sock.ReadSome(maxSize - |buf|);
      buf := buf + data;
      Reassociate(before, data, sock.pending);
    }
    ec := Success;
  }

  /** async_read(socket, buffer, transfer_exactly(n)), which stops early when the buffer is full. */
  method ReadExactly(sock: Socket, buffer: Str, n: nat, maxSize: nat) returns (buf: Str, ec: ReadError)
    modifies sock
    ensures buf + sock.pending == buffer + old(sock.pending)
    ensures ec == Success ==> |buf| == |buffer| + n || |buf| >= maxSize
    ensures ec == Eof ==> sock.pending == [] && |buf| < |buffer| + n
    ensures ec != NotFound
  {
    buf := buffer;
    while |buf| < |buffer| + n
      invariant |buf| <= |buffer| + n && buf + sock.pending == buffer + old(sock.pending)
      decreases |sock.pending|
    {
      if |buf| >= maxSize { return buf, Success; }
      if sock.pending == [] { return buf, Eof; }
      ghost var before := buf;
      var wanted := |buffer| + n - |buf|;
      var data := sock.ReadSome(if wanted < maxSize - |buf| then wanted else maxSize - |buf|);
      buf := buf + data;
      Reassociate(before, data, sock.pending);
    }
    ec := Success;
  }

  /** The size line depends only on the stream, not on how much of it has arrived. */
  lemma SizeLineArrived(buf: Str, pending: Str)
    requires FirstCrlf(buf) >= 0
    ensures ReadSizeLine(buf + pending) == ReadSizeLine(buf)
  {
    FirstCrlfExtends(buf, pending);
    var n := IndexOf(buf, LF);
    assert n >= 0 && (buf + pending)[..n] == buf[..n];
    if n > 0 { assert (buf + pending)[..n - 1] == buf[..n - 1]; }
  }

  lemma HasSizeLine(buf: Str)
    requires FirstCrlf(buf) >= 0
    ensures !ReadSizeLine(buf).NoLine?
  {
  }

  lemma NoSizeLine(buf: Str, pending: Str)
    requires FirstCrlf(buf) < 0 && pending == []
    ensures buf + pending == buf && ReadSizeLine(buf + pending) == NoLine
  {
    assert buf + pending == buf;
  }

  /** How the meaning of the rest of the stream follows from its first chunk. */
  lemma StreamStep(s: Str, content: Str)
    ensures match ReadSizeLine(s)
      case NoLine => Chunked(s, content).outcome == EndOfStream
      case EmptyLine => Chunked(s, content).outcome == Undefined
      case SizeLine(line, end) =>
        match Stoul(line)
        case Err(_) => Chunked(s, content).outcome == ProtocolError
        case Ok(length) =>
          var data := |line| + 2;
          if length > ULONG_MAX - 2 then Chunked(s, content).outcome == Undefined
          else if |s| < end + length + 2 then Chunked(s, content).outcome == EndOfStream
          else if length == 0 then Chunked(s, content) == Body(Complete, content, s[data + 2..])
          else Chunked(s, content) == Chunked(s[data + length + 2..], content + s[data..data + length])
  {
  }

  /** What a chunk leaves behind: the part of the stream that has not been consumed. */
  lemma ChunkConsumed(buf: Str, pending: Str, from: nat, to: nat)
    requires from <= to <= |buf|
    ensures (buf + pending)[from..to] == buf[from..to]
    ensures (buf + pending)[to..] == buf[to..] + pending
  {
  }

  /**
    read_chunked_transfer_encoded and read_chunked_transfer_encoded_chunk, from the bytes already in the response
    buffer to the session callback. As long as everything fits into the buffers, the outcome and the content are
    functions of the byte stream alone, however the socket cuts it; bytes behind the body that have already arrived
    stay in front of the content.
  */
  method ReadChunkedTransferEncoded(sock: Socket, buffer: Str, maxSize: nat)
    returns (outcome: Outcome, buf: Str, ghost behind: Str)
    modifies sock
    ensures var stream := buffer + old(sock.pending);
      |stream| < maxSize ==>
        outcome == Chunked(stream, []).outcome
        && (outcome == Complete ==>
              buf == behind + Chunked(stream, []).content && behind + sock.pending == Chunked(stream, []).rest)
  {
    hide Stoul, Chunked, ReadSizeLine, FirstCrlf;
    buf, behind := buffer, [];
    var chunks: Str := [];
    ghost var stream := buffer + sock.pending;
    while true
      invariant |buf + sock.pending| + |chunks| <= |stream|
      invariant Chunked(stream, []) == Chunked(buf + sock.pending, chunks)
      decreases |buf + sock.pending|
    {
      ghost var s := buf + sock.pending;
      StreamStep(s, chunks);
      var ec;
      buf, ec := ReadUntilCrlf(sock, buf, maxSize);
      if ec != Eof && |buf| >= maxSize { return MessageSize, buf, behind; }
      if ec == Eof {
        NoSizeLine(buf, sock.pending);
        return EndOfStream, buf, behind;
      }
      SizeLineArrived(buf, sock.pending);
      var sizeLine := ReadSizeLine(buf);
      if sizeLine.EmptyLine? { return Undefined, buf, behind; }
      HasSizeLine(buf);
      var (line, end) := (sizeLine.line, sizeLine.end);
      var size := Stoul(line);
      if size.Err? { return ProtocolError, buf, behind; }
      var length := size.value;
      if length > ULONG_MAX - 2 { return Undefined, buf, behind; }
      var additional := |buf| - end;
      if 2 + length > additional {
        buf, ec := ReadExactly(sock, buf, 2 + length - additional, maxSize);
        if ec == Eof { return EndOfStream, buf, behind; }
        if |buf| >= maxSize { return MessageSize, buf, behind; }
      }
      var data := |line| + 2;
      ChunkConsumed(buf, sock.pending, data, data + length);
      ChunkConsumed(buf, sock.pending, data + length, data + length + 2);
      if length > 0 {
        chunks := chunks + buf[data..data + length];
        if |chunks| >= maxSize { return MessageSize, buf, behind; }
      }
      buf := buf[data + length + 2..];
      if length == 0 {
        behind := buf;
        if |chunks| > 0 { buf := buf + chunks; }
        return Complete, buf, behind;
      }
    }
  }

  // ---------- well-formed bodies ----------

  /** One chunk of RFC 7230: its size in hexadecimal, an optional extension behind ';', and its data. */
  datatype Chunk = Chunk(size: Str, extension: Str, data: Str)

  predicate WellFormed(c: Chunk) {
    && HexTextOf(c.size, |c.data|) && |c.data| <= ULONG_MAX - 2
    && (c.extension != [] ==> c.extension[0] == 0x3B)
    && CR !in c.extension && LF !in c.extension
  }

  function EncodeChunk(c: Chunk): Str {
    c.size + c.extension + CRLF + c.data + CRLF
  }

  function EncodeBody(chunks: seq<Chunk>): Str {
    if chunks == [] then [] else EncodeChunk(chunks[0]) + EncodeBody(chunks[1..])
  }

  function Content(chunks: seq<Chunk>): Str {
    if chunks == [] then [] else chunks[0].data + Content(chunks[1..])
  }

  lemma {:induction false} HexPrefixStops(digits: Str, rest: Str)
    requires (forall i :: 0 <= i < |digits| ==> IsHex(digits[i])) && (rest != [] ==> !IsHex(rest[0]))
    ensures HexPrefix(digits + rest) == digits
  {
    if digits == [] {
      assert digits + rest == rest;
    } else {
      assert (digits + rest)[1..] == digits[1..] + rest;
      HexPrefixStops(digits[1..], rest);
    }
  }

  lemma NoBlankBeforeDigit(s: Str)
    requires s != [] && IsHex(s[0])
    ensures SkipSpaces(s) == s && s[0] != MINUS && s[0] != PLUS
  {
  }

  /** A hexadecimal text denotes its number. */
  lemma {:induction false} HexTextIsRead(s: Str, n: nat)
    requires HexTextOf(s, n)
    ensures (forall i :: 0 <= i < |s| ==> IsHex(s[i])) && HexNumber(s) == n
  {
    hide DigitOf;
    AllHex(s, n);
    DigitIsRead(s[|s| - 1], n % 16);
    if |s| > 1 { HexTextIsRead(s[..|s| - 1], n / 16); } else { assert s[..|s| - 1] == []; }
  }

  /** What may follow the size: nothing that would prolong it or make its first digit a prefix. */
  predicate EndsSize(rest: Str) {
    rest != [] ==> !IsHex(rest[0]) && rest[0] != 0x78 && rest[0] != 0x58
  }

  lemma NoPrefixToSkip(size: Str, rest: Str)
    requires size != [] && (forall i :: 0 <= i < |size| ==> IsHex(size[i])) && EndsSize(rest)
    ensures Unprefixed(size + rest) == size + rest
  {
    var line := size + rest;
    if |line| > 2 { assert line[1] == if |size| > 1 then size[1] else rest[0]; }
  }

  /** Every size is read, whatever its leading zeros and the case of its digits, and one too large is refused. */
  lemma StoulOfHexText(size: Str, n: nat, rest: Str)
    requires HexTextOf(size, n) && EndsSize(rest)
    ensures Stoul(size + rest) == if n <= ULONG_MAX then Ok(n) else Err(OutOfRange)
  {
    hide HexTextOf, HexNumber, HexPrefix, Unprefixed, SkipSpaces;
    HexTextIsRead(size, n);
    NotEmpty(size, n);
    assert (size + rest)[0] == size[0];
    NoBlankBeforeDigit(size + rest);
    NoPrefixToSkip(size, rest);
    HexPrefixStops(size, rest);
  }

  /** As std::stoul to base 16 has it: blanks, a sign and "0x" may precede the digits, and a minus wraps around. */
  lemma StoulOfPrefixed(w: Str, size: Str, n: nat, rest: Str)
    requires forall i :: 0 <= i < |w| ==> w[i] in {0x20, 0x09, 0x0A, 0x0B, 0x0C, 0x0D}
    requires HexTextOf(size, n) && EndsSize(rest) && n <= ULONG_MAX
    ensures Stoul(w + (size + rest)) == Ok(n)
    ensures Stoul(w + ([0x2B] + (size + rest))) == Ok(n)
    ensures Stoul(w + ([0x2D] + (size + rest))) == Ok((0x1_0000_0000 - n) % 0x1_0000_0000)
    ensures Stoul(w + ([0x30, 0x78] + (size + rest))) == Ok(n)
  {
    hide HexTextOf, HexNumber, HexPrefix, Unprefixed, SkipSpaces;
    var line := size + rest;
    HexTextIsRead(size, n);
    NotEmpty(size, n);
    assert line[0] == size[0];
    NoBlankBeforeDigit(line);
    NoPrefixToSkip(size, rest);
    HexPrefixStops(size, rest);
    SpacesAreSkipped(w, line);
    SpacesAreSkipped(w, [0x2B] + line);
    SpacesAreSkipped(w, [0x2D] + line);
    SpacesAreSkipped(w, [0x30, 0x78] + line);
    assert ([0x2B] + line)[1..] == line && ([0x2D] + line)[1..] == line;
    PrefixIsSkipped(line);
  }

  lemma PrefixIsSkipped(line: Str)
    requires line != [] && IsHex(line[0])
    ensures Unprefixed([0x30, 0x78] + line) == line
  {
    assert ([0x30, 0x78] + line)[2..] == line;
  }

  /** A line that starts with anything else is no size. */
  lemma NoSize(line: Str)
    requires line == [] || (!IsHex(line[0]) && !IsSpace(line[0]) && line[0] != 0x2B && line[0] != 0x2D)
    ensures Stoul(line) == Err(InvalidArgument)
  {
  }

  lemma NotEmpty(size: Str, n: nat)
    requires HexTextOf(size, n)
    ensures size != []
  {
  }

  lemma StoulOfLine(c: Chunk)
    requires WellFormed(c)
    ensures Stoul(c.size + c.extension) == Ok(|c.data|)
  {
    StoulOfHexText(c.size, |c.data|, c.extension);
  }

  lemma SizeLineOf(line: Str, rest: Str)
    requires CR !in line && LF !in line && line != []
    ensures ReadSizeLine(line + CRLF + rest) == SizeLine(line, |line| + 2)
  {
    var s := line + CRLF + rest;
    var n := |line|;
    assert s[n] == CR && s[n + 1] == LF;
    assert forall k :: 0 <= k < n ==> s[k] == line[k];
    assert CrlfAt(s, n);
    var p := FirstCrlf(s);
    assert p == n;
    assert IndexOf(s, LF) == n + 1;
    assert s[..n] == line;
  }

  lemma EncodedParts(c: Chunk, rest: Str)
    ensures var line := c.size + c.extension;
      var s := EncodeChunk(c) + rest;
      var data := |line| + 2;
      && s == line + CRLF + (c.data + CRLF + rest)
      && |s| >= data + |c.data| + 2
      && s[data..data + |c.data|] == c.data && s[data + |c.data| + 2..] == rest
  {
    var line := c.size + c.extension;
    Reassociate(line + CRLF, c.data, CRLF);
    Reassociate(line + CRLF, c.data + CRLF, rest);
    var head := line + CRLF;
    var tail := c.data + CRLF + rest;
    assert tail[..|c.data|] == c.data && tail[|c.data| + 2..] == rest;
    assert (head + tail)[|head|..] == tail;
    assert (head + tail)[|head|..|head| + |c.data|] == tail[..|c.data|];
    assert (head + tail)[|head| + |c.data| + 2..] == tail[|c.data| + 2..];
  }

  lemma NoLineEnds(c: Chunk)
    requires WellFormed(c)
    ensures CR !in c.size + c.extension && LF !in c.size + c.extension && c.size + c.extension != []
  {
    AllHex(c.size, |c.data|);
    assert forall i :: 0 <= i < |c.size| ==> IsHex(c.size[i]) && c.size[i] != CR && c.size[i] != LF;
  }

  lemma ChunkRead(c: Chunk, rest: Str, content: Str)
    requires WellFormed(c)
    ensures Chunked(EncodeChunk(c) + rest, content) ==
      if c.data == [] then Body(Complete, content, rest) else Chunked(rest, content + c.data)
  {
    hide Stoul, ReadSizeLine, Chunked, EncodeChunk, HexTextOf;
    EncodedParts(c, rest);
    NoLineEnds(c);
    SizeLineOf(c.size + c.extension, c.data + CRLF + rest);
    StoulOfLine(c);
    StreamStep(EncodeChunk(c) + rest, content);
  }

  /** A body of nonempty chunks, ended by an empty one, is delivered completely; what follows it is not consumed. */
  lemma {:induction false} ChunkedOfBody(chunks: seq<Chunk>, last: Chunk, content: Str, extra: Str)
    requires WellFormed(last) && last.data == []
    requires forall i :: 0 <= i < |chunks| ==> WellFormed(chunks[i]) && chunks[i].data != []
    ensures Chunked(EncodeBody(chunks) + EncodeChunk(last) + extra, content) ==
      Body(Complete, content + Content(chunks), extra)
    decreases |chunks|
  {
    hide Chunked, EncodeChunk, WellFormed;
    if chunks == [] {
      assert [] + EncodeChunk(last) == EncodeChunk(last);
      ChunkRead(last, extra, content);
      assert content + [] == content;
    } else {
      var behind := EncodeBody(chunks[1..]);
      Reassociate(EncodeChunk(chunks[0]), behind, EncodeChunk(last));
      Reassociate(EncodeChunk(chunks[0]), behind + EncodeChunk(last), extra);
      ChunkRead(chunks[0], behind + EncodeChunk(last) + extra, content);
      ChunkedOfBody(chunks[1..], last, content + chunks[0].data, extra);
      Reassociate(content, chunks[0].data, Content(chunks[1..]));
    }
  }

  /**
    The whole exchange: part of the body may already be in the buffer, and more may follow it. However the rest is cut,
    the content arrives and exactly the bytes of the body are consumed.
  */
  method ReceiveBody(sock: Socket, buffer: Str, maxSize: nat, ghost chunks: seq<Chunk>, ghost last: Chunk, ghost extra: Str)
    returns (outcome: Outcome, buf: Str, ghost behind: Str)
    requires WellFormed(last) && last.data == []
    requires forall i :: 0 <= i < |chunks| ==> WellFormed(chunks[i]) && chunks[i].data != []
    requires buffer + sock.pending == EncodeBody(chunks) + EncodeChunk(last) + extra
    requires |buffer + sock.pending| < maxSize
    modifies sock
    ensures outcome == Complete && buf == behind + Content(chunks) && behind + sock.pending == extra
  {
    hide Chunked, EncodeBody, EncodeChunk, Content, WellFormed;
    ChunkedOfBody(chunks, last, [], extra);
    assert [] + Content(chunks) == Content(chunks);
    outcome, buf, behind := ReadChunkedTransferEncoded(sock, buffer, maxSize);
  }
}
