/** The streaming MD5 object: feeding a message in pieces yields the one-shot hash of RFC 1321, sections 3.1 to 3.5. */
module Md5 {
  import opened Bytes

  type uint32 = x: int | 0 <= x < 0x1_0000_0000

  const WORD: int := 0x1_0000_0000

  /** The four words A, B, C, D. */
  datatype State = State(a: uint32, b: uint32, c: uint32, d: uint32)

  const INITIAL: State := State(0x67452301, 0xEFCDAB89, 0x98BADCFE, 0x10325476)

  /** The compression function: the state after one block of 64 bytes. */
  type Compress = (State, Str) -> State

  // ---------- the one-shot hash ----------

  /** The compression of all whole blocks of m, in order. */
  function Fold(f: Compress, s: State, m: Str): State
    decreases |m|
  {
    if |m| < 64 then s else Fold(f, f(s, m[..64]), m[64..])
  }

  function Zeros(n: nat): (z: Str)
    ensures |z| == n
  {
    seq(n, _ => 0)
  }

  /** A word, low-order byte first. */
  function WordBytes(w: uint32): (b: Str)
    ensures |b| == 4
  {
    [(w % 0x100) as byte, (w / 0x100 % 0x100) as byte, (w / 0x1_0000 % 0x100) as byte, (w / 0x100_0000) as byte]
  }

  function WordsBytes(ws: seq<uint32>): (b: Str)
    ensures |b| == 4 * |ws|
  {
    if ws == [] then [] else WordBytes(ws[0]) + WordsBytes(ws[1..])
  }

  /** A one bit and zeros, up to 56 bytes modulo 64. */
  function PadLength(n: nat): (p: nat)
    ensures 1 <= p <= 64 && (n + p) % 64 == 56
  {
    var index := n % 64;
    if index < 56 then 56 - index else 120 - index
  }

  function Padding(p: nat): Str
    requires p > 0
  {
    [0x80] + Zeros(p - 1)
  }

  /** The length in bits, low-order word first. */
  function LengthWords(n: nat): seq<uint32> {
    [8 * n % WORD, 8 * n / WORD % WORD]
  }

  function Padded(m: Str): Str {
    m + Padding(PadLength(|m|)) + WordsBytes(LengthWords(|m|))
  }

  function Digest(f: Compress, m: Str): Str {
    var s := Fold(f, INITIAL, Padded(m));
    WordsBytes([s.a, s.b, s.c, s.d])
  }

  /** The padded message is a whole number of blocks and starts with the message. */
  lemma PaddedShape(m: Str)
    ensures |Padded(m)| % 64 == 0 && |m| + 9 <= |Padded(m)| <= |m| + 72
    ensures Padded(m)[..|m|] == m && Padded(m)[|m|] == 0x80
  {
    assert |WordsBytes(LengthWords(|m|))| == 8;
  }

  /** The number that the four bytes at j of b denote, the first being the lowest. */
  function LowFirst(b: Str, j: nat): int
    requires j + 4 <= |b|
  {
    b[j] as int + 0x100 * b[j + 1] as int + 0x1_0000 * b[j + 2] as int + 0x100_0000 * b[j + 3] as int
  }

  lemma Quarters(w: nat)
    ensures w % 0x100 + 0x100 * (w / 0x100 % 0x100) + 0x1_0000 * (w / 0x1_0000 % 0x100) + 0x100_0000 * (w / 0x100_0000) == w
  {
    var q := w / 0x100;
    var r := q / 0x100;
    assert w / 0x1_0000 == r;
    assert w / 0x100_0000 == r / 0x100;
    assert w == 0x100 * q + w % 0x100 && q == 0x100 * r + q % 0x100 && r == 0x100 * (r / 0x100) + r % 0x100;
  }

  lemma WordIsLowFirst(w: uint32, rest: Str)
    ensures LowFirst(WordBytes(w) + rest, 0) == w
  {
    var (b, word) := (WordBytes(w) + rest, WordBytes(w));
    Quarters(w);
    assert LowFirst(word, 0) == w;
    assert b[0] == word[0] && b[1] == word[1] && b[2] == word[2] && b[3] == word[3];
  }

  /** Every word is written with its lowest byte first. */
  lemma {:induction false} WordsAreLowFirst(ws: seq<uint32>, i: nat)
    requires i < |ws|
    ensures LowFirst(WordsBytes(ws), 4 * i) == ws[i]
  {
    hide WordBytes;
    var (first, rest) := (WordBytes(ws[0]), WordsBytes(ws[1..]));
    WordIsLowFirst(ws[0], rest);
    if i > 0 {
      WordsAreLowFirst(ws[1..], i - 1);
      LowFirstBehind(first, rest, 4 * (i - 1));
    }
  }

  lemma LowFirstBehind(first: Str, rest: Str, j: nat)
    requires j + 4 <= |rest|
    ensures LowFirst(first + rest, |first| + j) == LowFirst(rest, j)
  {
    var b := first + rest;
    assert b[|first| + j] == rest[j + 0] && b[|first| + j + 1] == rest[j + 1];
    assert b[|first| + j + 2] == rest[j + 2] && b[|first| + j + 3] == rest[j + 3];
  }

  /** Behind the one bit come zeros, and the last eight bytes are the length in bits modulo 2^64, lowest byte first. */
  lemma PaddedEnd(m: Str)
    ensures var p := Padded(m);
      var n := |p| - 8;
      && n > |m| && (forall i :: |m| < i < n ==> p[i] == 0)
      && LowFirst(p, n) + WORD * LowFirst(p, n + 4) == 8 * |m| % (WORD * WORD)
  {
    hide WordsBytes;
    var ws := LengthWords(|m|);
    var (head, bits) := (m + Padding(PadLength(|m|)), WordsBytes(ws));
    WordsAreLowFirst(ws, 0);
    WordsAreLowFirst(ws, 1);
    LowFirstBehind(head, bits, 0);
    LowFirstBehind(head, bits, 4);
    TwoWords(8 * |m|);
  }

  /** The low and the high word of a number modulo 2^64. */
  lemma TwoWords(x: nat)
    ensures x % WORD + WORD * (x / WORD % WORD) == x % (WORD * WORD)
  {
    var (low, rest) := (x % WORD, x / WORD);
    var (high, q) := (rest % WORD, rest / WORD);
    assert x == low + WORD * rest && rest == high + WORD * q;
    ModUnique(low + WORD * high, WORD * WORD, q);
  }

  /** The digest is the final state, each word lowest byte first; the initial state is 01 23 .. ef fe dc .. 10 as bytes. */
  lemma DigestWords(f: Compress, m: Str)
    ensures var (s, d) := (Fold(f, INITIAL, Padded(m)), Digest(f, m));
      && |d| == 16 && LowFirst(d, 0) == s.a && LowFirst(d, 4) == s.b && LowFirst(d, 8) == s.c && LowFirst(d, 12) == s.d
    ensures WordsBytes([INITIAL.a, INITIAL.b, INITIAL.c, INITIAL.d]) ==
      [0x01, 0x23, 0x45, 0x67, 0x89, 0xAB, 0xCD, 0xEF, 0xFE, 0xDC, 0xBA, 0x98, 0x76, 0x54, 0x32, 0x10]
  {
    var s := Fold(f, INITIAL, Padded(m));
    DigestOfState(s);
    InitialBytes();
  }

  lemma DigestOfState(s: State)
    ensures var d := WordsBytes([s.a, s.b, s.c, s.d]);
      LowFirst(d, 0) == s.a && LowFirst(d, 4) == s.b && LowFirst(d, 8) == s.c && LowFirst(d, 12) == s.d
  {
    hide WordsBytes, LowFirst;
    var ws := [s.a, s.b, s.c, s.d];
    WordsAreLowFirst(ws, 0);
    WordsAreLowFirst(ws, 1);
    WordsAreLowFirst(ws, 2);
    WordsAreLowFirst(ws, 3);
  }

  lemma BytesOfWord(w: uint32, p: byte, q: byte, r: byte, t: byte)
    requires w == p as int + 0x100 * q as int + 0x1_0000 * r as int + 0x100_0000 * t as int
    ensures WordBytes(w) == [p, q, r, t]
  {
    var (x, y) := (q as int + 0x100 * r as int + 0x1_0000 * t as int, r as int + 0x100 * t as int);
    assert w % 0x100 == p as int && w / 0x100 == x;
    assert x % 0x100 == q as int && w / 0x1_0000 == y && y % 0x100 == r as int && w / 0x100_0000 == t as int;
  }

  lemma FourWords(a: uint32, b: uint32, c: uint32, d: uint32)
    ensures WordsBytes([a, b, c, d]) == WordBytes(a) + WordBytes(b) + WordBytes(c) + WordBytes(d)
  {
    hide WordBytes;
    assert [a, b, c, d][1..] == [b, c, d] && [b, c, d][1..] == [c, d] && [c, d][1..] == [d] && [d][1..] == [];
    assert WordsBytes([d]) == WordBytes(d);
    assert WordsBytes([c, d]) == WordBytes(c) + WordBytes(d);
    assert WordsBytes([b, c, d]) == WordBytes(b) + (WordBytes(c) + WordBytes(d));
  }

  lemma InitialBytes()
    ensures WordsBytes([INITIAL.a, INITIAL.b, INITIAL.c, INITIAL.d]) ==
      [0x01, 0x23, 0x45, 0x67, 0x89, 0xAB, 0xCD, 0xEF, 0xFE, 0xDC, 0xBA, 0x98, 0x76, 0x54, 0x32, 0x10]
  {
    hide WordBytes, WordsBytes;
    var (a, b, c, d) := (INITIAL.a, INITIAL.b, INITIAL.c, INITIAL.d);
    FourWords(a, b, c, d);
    BytesOfWord(a, 0x01, 0x23, 0x45, 0x67);
    BytesOfWord(b, 0x89, 0xAB, 0xCD, 0xEF);
    BytesOfWord(c, 0xFE, 0xDC, 0xBA, 0x98);
    BytesOfWord(d, 0x76, 0x54, 0x32, 0x10);
  }

  lemma {:induction false} FoldBlock(f: Compress, s: State, a: Str, block: Str)
    requires |a| % 64 == 0 && |block| == 64
    ensures Fold(f, s, a + block) == f(Fold(f, s, a), block)
    decreases |a|
  {
    var m := a + block;
    if a == [] {
      assert m == block && block[..64] == block;
      assert |block[64..]| < 64;
    } else {
      assert m[..64] == a[..64] && m[64..] == a[64..] + block;
      FoldBlock(f, f(s, a[..64]), a[64..], block);
    }
  }

  // ---------- arithmetic of the two-word bit counter ----------

  function Bits(count0: uint32, count1: uint32): int { count0 + WORD * count1 }

  /** The counter after n more bytes, as update computes it with 32-bit words. */
  function Counted(count0: uint32, count1: uint32, n: uint32): (uint32, uint32) {
    var shifted := 8 * n % WORD;
    var low := (count0 + shifted) % WORD;
    var carried := if low < shifted then (count1 + 1) % WORD else count1;
    (low, (carried + n / 0x2000_0000) % WORD)
  }

  lemma CountedAdds(count0: uint32, count1: uint32, n: uint32)
    ensures var (low, high) := Counted(count0, count1, n);
      Bits(low, high) == (Bits(count0, count1) + 8 * n) % (WORD * WORD)
  {
    var shifted := 8 * n % WORD;
    var top := n / 0x2000_0000;
    assert 8 * n == shifted + WORD * top;
    var low := (count0 + shifted) % WORD;
    var carry := if low < shifted then 1 else 0;
    assert count0 + shifted == low + WORD * carry;
    var high := (count1 + carry + top) % WORD;
    assert Counted(count0, count1, n) == (low, high) by { CarryMod(count1, carry, top); }
    var q := (count1 + carry + top) / WORD;
    assert count1 + carry + top == high + WORD * q;
    assert Bits(count0, count1) + 8 * n == low + WORD * high + (WORD * WORD) * q;
    ModUnique(low + WORD * high, WORD * WORD, q);
  }

  lemma CarryMod(c: uint32, carry: nat, top: nat)
    requires carry <= 1 && top < 8
    ensures ((c + carry) % WORD + top) % WORD == (c + carry + top) % WORD
  {
  }

  lemma ModUnique(r: int, d: int, q: int)
    requires 0 <= r < d
    ensures (r + d * q) % d == r
  {
    var n := r + d * q;
    var q' := n / d;
    assert (q' - q) * d == r - n % d;
    if q' - q >= 1 { MulAtLeast(q' - q, d); }
    if q' - q <= -1 { MulAtLeast(q - q', d); }
  }

  lemma MulAtLeast(x: int, d: int)
    requires x >= 1 && d > 0
    ensures x * d >= d && -x * d <= -d
  {
  }

  /** The words of the counter are the low and the high part of the bit count. */
  lemma CounterWords(x: nat, low: uint32, high: uint32)
    requires Bits(low, high) == x % (WORD * WORD)
    ensures low == x % WORD && high == x / WORD % WORD
  {
    var q := x / (WORD * WORD);
    var upper := high + WORD * q;
    assert x == low + WORD * upper;
    ModUnique(low, WORD, upper);
    assert x / WORD == upper;
    ModUnique(high, WORD, q);
  }

  lemma LowWordIndex(n: nat, low: uint32)
    requires low == 8 * n % WORD
    ensures low / 8 % 64 == n % 64
  {
    var h := 8 * n / WORD;
    assert low == 8 * (n - 0x2000_0000 * h);
    var r := low / 8;
    ModUnique(r % 64, 64, r / 64 + 0x80_0000 * h);
  }

  /** The counter determines how many bytes wait in the buffer. */
  lemma BufferIndex(count0: uint32, count1: uint32, n: nat)
    requires Bits(count0, count1) == 8 * n % (WORD * WORD)
    ensures count0 == 8 * n % WORD && count1 == 8 * n / WORD % WORD
    ensures count0 / 8 % 64 == n % 64
  {
    CounterWords(8 * n, count0, count1);
    LowWordIndex(n, count0);
  }

  // ---------- the object ----------

  /** memcpy(dest + at, s, |s|). */
  method CopyInto(dest: array<byte>, at: nat, s: Str)
    requires at + |s| <= dest.Length
    modifies dest
    ensures dest[at..at + |s|] == s
    ensures dest[..at] == old(dest[..at]) && dest[at + |s|..] == old(dest[at + |s|..])
  {
    var i := 0;
    while i < |s|
      invariant i <= |s|
      invariant forall k :: 0 <= k < i ==> dest[at + k] == s[k]
      invariant dest[..at] == old(dest[..at]) && dest[at + |s|..] == old(dest[at + |s|..])
    {
      dest[at + i] := s[i];
      i := i + 1;
    }
  }

  /** encode: the words of the input, each low-order byte first. */
  method EncodeWords(input: seq<uint32>) returns (output: Str)
    ensures output == WordsBytes(input) && |output| == 4 * |input|
    ensures forall i :: 0 <= i < |input| ==> LowFirst(output, 4 * i) == input[i]
  {
    hide LowFirst, WordBytes;
    output := [];
    var i := 0;
    assert input[0..] == input;
    while i < |input|
      invariant i <= |input| && output + WordsBytes(input[i..]) == WordsBytes(input)
    {
      assert input[i..][0] == input[i] && input[i..][1..] == input[i + 1..];
      Reassociate(output, WordBytes(input[i]), WordsBytes(input[i + 1..]));
      output := output + WordBytes(input[i]);
      i := i + 1;
    }
    assert input[|input|..] == [] && output + [] == output;
    assert output == WordsBytes(input);
    forall i | 0 <= i < |input| ensures LowFirst(output, 4 * i) == input[i] { WordsAreLowFirst(input, i); }
  }

  /** decode: what transform reads from a block of bytes. */
  method DecodeWords(input: Str) returns (output: seq<uint32>)
    requires |input| % 4 == 0
    ensures |output| == |input| / 4 && forall i :: 0 <= i < |output| ==> output[i] == LowFirst(input, 4 * i)
  {
    output := [];
    for i := 0 to |input| / 4
      invariant |output| == i && forall k :: 0 <= k < i ==> output[k] == LowFirst(input, 4 * k)
    {
      var j := 4 * i;
      output := output
        + [input[j] as int + 0x100 * input[j + 1] as int + 0x1_0000 * input[j + 2] as int + 0x100_0000 * input[j + 3] as int];
    }
  }

  /** The words come back from their bytes. */
  method EncodeAndDecode(words: seq<uint32>) returns (r: seq<uint32>)
    ensures r == words
  {
    var bytes := EncodeWords(words);
    r := DecodeWords(bytes);
  }

  /** The length of the part of a message that has been compressed. */
  function Whole(n: nat): (w: nat)
    ensures w <= n < w + 64 && w % 64 == 0 && n == w + n % 64
  {
    n / 64 * 64
  }

  class Context {
    const transform: Compress
    const buffer: array<byte>
    var state: State
    var count0: uint32
    var count1: uint32
    var digest: Str
    var finalized: bool

    /** All bytes hashed so far. */
    ghost var message: Str

    ghost predicate Valid()
      reads this, buffer
    {
      && buffer.Length == 64
      && (if finalized then digest == Digest(transform, message) else Streaming())
    }

    /** The counter is the bit length mod 2^64, the state covers the whole blocks, the buffer holds the rest. */
    ghost predicate Streaming()
      requires buffer.Length == 64
      reads this, buffer
    {
      Bits(count0, count1) == 8 * |message| % (WORD * WORD) && Buffered()
    }

    ghost predicate Buffered()
      requires buffer.Length == 64
      reads this, buffer
    {
      var w := Whole(|message|);
      state == Fold(transform, INITIAL, message[..w]) && buffer[..|message| - w] == message[w..]
    }

    constructor (transform: Compress)
      ensures Valid() && fresh(buffer) && !finalized && message == [] && this.transform == transform
    {
      this.transform := transform;
      buffer := new byte[64];
      finalized := false;
      count0, count1 := 0, 0;
      state := INITIAL;
      digest := [];
      message := [];
    }

    /** Fills the buffer up, compresses it, and then compresses whole blocks straight from the input. */
    method CompressInput(bufferIndex: nat, input: Str) returns (inputIndex: nat)
      requires buffer.Length == 64 && Buffered() && bufferIndex == |message| % 64
      requires 64 - bufferIndex <= |input| && |input| + 63 < WORD
      modifies `state, buffer
      ensures inputIndex <= |input| < inputIndex + 64 && (|message| + inputIndex) % 64 == 0
      ensures state == Fold(transform, INITIAL, (message + input)[..|message| + inputIndex])
    {
      hide Fold;
      var bufferSpace := 64 - bufferIndex;
      CopyInto(buffer, bufferIndex, input[..bufferSpace]);
      FirstBlock(transform, message, input, buffer[..]);
      state := transform(state, buffer[..]);
      inputIndex := bufferSpace;
      while inputIndex + 63 < |input|
        invariant bufferSpace <= inputIndex <= |input| && (|message| + inputIndex) % 64 == 0
        invariant state == Fold(transform, INITIAL, (message + input)[..|message| + inputIndex])
      {
        NextBlock(transform, message, input, inputIndex);
        state := transform(state, input[inputIndex..inputIndex + 64]);
        inputIndex := inputIndex + 64;
      }
    }

    /** update; the loop over the input needs input_index + 63 to fit in 32 bits. A finalized digest stays as it is. */
    method Update(input: Str)
      requires Valid() && |input| + 63 < WORD
      modifies this, buffer
      ensures Valid() && finalized == old(finalized)
      ensures message == if finalized then old(message) else old(message) + input
      ensures finalized ==> digest == old(digest)
    {
      hide Fold, Digest, Counted, Bits, Whole;
      if finalized { return; }
      BufferIndex(count0, count1, |message|);
      var bufferIndex := count0 / 8 % 64;
      CountedAdds(count0, count1, |input|);
      CounterGrows(|message|, |input|);
      var (low, high) := Counted(count0, count1, |input|);
      count0, count1 := low, high;
      var inputIndex := 0;
      if |input| >= 64 - bufferIndex {
        inputIndex := CompressInput(bufferIndex, input);
        bufferIndex := 0;
      }
      CopyInto(buffer, bufferIndex, input[inputIndex..]);
      Remainder(message, input, bufferIndex, inputIndex, buffer[..]);
      message := message + input;
    }

    /** finalize: pads the message to whole blocks and stores the digest. */
    method Finalize()
      requires Valid()
      modifies this, buffer
      ensures Valid() && finalized && message == old(message)
      ensures !old(finalized) ==> digest == Digest(transform, message)
      ensures old(finalized) ==> digest == old(digest)
    {
      hide Fold, Digest, Padded, Padding, WordsBytes, Bits, Whole;
      if finalized { return; }
      ghost var m := message;
      BufferIndex(count0, count1, |m|);
      var bits := EncodeWords([count0, count1]);
      var index := count0 / 8 % 64;
      var padLen := if index < 56 then 56 - index else 120 - index;
      PaddedParts(transform, m, padLen, bits);
      Update(Padding(padLen));
      Update(bits);
      digest := EncodeWords([state.a, state.b, state.c, state.d]);
      var i := 0;
      while i < buffer.Length
        modifies buffer
      {
        buffer[i] := 0;
        i := i + 1;
      }
      finalized := true;
      message := m;
    }
  }

  /** finalize feeds the pad and the saved bit count, which completes the padded message. */
  lemma PaddedParts(f: Compress, m: Str, padLen: nat, bits: Str)
    requires padLen == PadLength(|m|) && bits == WordsBytes(LengthWords(|m|))
    ensures |Padding(padLen)| == padLen && |bits| == 8
    ensures m + Padding(padLen) + bits == Padded(m)
    ensures Whole(|Padded(m)|) == |Padded(m)| && Padded(m)[..|Padded(m)|] == Padded(m)
    ensures var s := Fold(f, INITIAL, Padded(m)); Digest(f, m) == WordsBytes([s.a, s.b, s.c, s.d])
  {
    PaddedShape(m);
  }

  /** The bit counter of a longer message. */
  lemma CounterGrows(n: nat, k: nat)
    ensures (8 * n % (WORD * WORD) + 8 * k) % (WORD * WORD) == 8 * (n + k) % (WORD * WORD)
  {
    var d := WORD * WORD;
    var q := 8 * n / d;
    var r := 8 * n % d + 8 * k;
    assert 8 * (n + k) == r % d + d * (r / d + q);
    ModUnique(r % d, d, r / d + q);
  }

  lemma FirstBlock(f: Compress, m: Str, input: Str, block: Str)
    requires 64 - |m| % 64 <= |input| && |block| == 64
    requires block[..|m| % 64] == m[Whole(|m|)..] && block[|m| % 64..] == input[..64 - |m| % 64]
    ensures var n := 64 - |m| % 64;
      f(Fold(f, INITIAL, m[..Whole(|m|)]), block) == Fold(f, INITIAL, (m + input)[..|m| + n])
  {
    var w := Whole(|m|);
    FoldBlock(f, INITIAL, m[..w], block);
    assert block == m[w..] + input[..64 - |m| % 64];
    assert m[..w] + block == (m + input)[..|m| + 64 - |m| % 64];
  }

  lemma NextBlock(f: Compress, m: Str, input: Str, i: nat)
    requires i + 64 <= |input| && (|m| + i) % 64 == 0
    ensures f(Fold(f, INITIAL, (m + input)[..|m| + i]), input[i..i + 64]) == Fold(f, INITIAL, (m + input)[..|m| + i + 64])
  {
    FoldBlock(f, INITIAL, (m + input)[..|m| + i], input[i..i + 64]);
    assert (m + input)[..|m| + i] + input[i..i + 64] == (m + input)[..|m| + i + 64];
  }

  lemma WholeIs(n: nat, blocks: nat, rest: nat)
    requires n == 64 * blocks + rest && rest < 64
    ensures Whole(n) == 64 * blocks
  {
    ModUnique(rest, 64, blocks);
  }

  lemma WholeFrom(length: nat, inputIndex: nat, bufferIndex: nat, n: nat)
    requires bufferIndex <= n < 64
    requires (inputIndex == 0 && bufferIndex == length % 64) || (bufferIndex == 0 && (length + inputIndex) % 64 == 0)
    ensures Whole(length + inputIndex + (n - bufferIndex)) == length + inputIndex - bufferIndex
  {
    var blocks := (length + inputIndex - bufferIndex) / 64;
    hide Whole;
    assert length + inputIndex - bufferIndex == 64 * blocks;
    WholeIs(length + inputIndex + (n - bufferIndex), blocks, n);
  }

  /** What the buffer holds once the tail of the input has been copied into it. */
  lemma Remainder(m: Str, input: Str, bufferIndex: nat, inputIndex: nat, buffer: Str)
    requires |buffer| == 64 && inputIndex <= |input| && bufferIndex + (|input| - inputIndex) < 64
    requires buffer[bufferIndex..bufferIndex + (|input| - inputIndex)] == input[inputIndex..]
    requires (inputIndex == 0 && bufferIndex == |m| % 64 && buffer[..bufferIndex] == m[Whole(|m|)..])
      || (bufferIndex == 0 && (|m| + inputIndex) % 64 == 0)
    ensures var all := m + input;
      var w := Whole(|all|);
      w == |m| + inputIndex - bufferIndex && buffer[..|all| - w] == all[w..]
      && (inputIndex == 0 ==> all[..w] == m[..Whole(|m|)])
  {
    var all := m + input;
    var n := bufferIndex + (|input| - inputIndex);
    var w := |all| - n;
    WholeFrom(|m|, inputIndex, bufferIndex, n);
    assert buffer[..n] == buffer[..bufferIndex] + buffer[bufferIndex..n];
  }

  // ---------- any way of cutting a message into pieces ----------

  function Concat(chunks: seq<Str>): Str {
    if chunks == [] then [] else chunks[0] + Concat(chunks[1..])
  }

  lemma ConcatStep(done: Str, chunks: seq<Str>, i: nat)
    requires i < |chunks|
    ensures done + Concat(chunks[i..]) == done + chunks[i] + Concat(chunks[i + 1..])
  {
    assert chunks[i..][0] == chunks[i] && chunks[i..][1..] == chunks[i + 1..];
    Reassociate(done, chunks[i], Concat(chunks[i + 1..]));
  }

  /** However the message is cut, the digest is the one-shot digest of the whole. */
  method HashPieces(transform: Compress, chunks: seq<Str>) returns (digest: Str)
    requires forall i :: 0 <= i < |chunks| ==> |chunks[i]| + 63 < WORD
    ensures digest == Digest(transform, Concat(chunks))
  {
    hide Digest, Fold;
    var context := new Context(transform);
    assert chunks[0..] == chunks;
    for i := 0 to |chunks|
      invariant context.Valid() && fresh(context) && fresh(context.buffer) && !context.finalized
      invariant context.transform == transform
      invariant context.message + Concat(chunks[i..]) == Concat(chunks)
    {
      ConcatStep(context.message, chunks, i);
      context.Update(chunks[i]);
    }
    assert chunks[|chunks|..] == [] && context.message + [] == context.message;
    context.Finalize();
    digest := context.digest;
  }
}
