/** Items of indefinite length, which the encoder never writes, and maps that repeat a key (RFC 7049, section 2.2). */
module CborIndefinite {
  import opened Binary
  import opened Bytes
  import opened Cbor
  import opened Doubles
  import opened Insertions
  import opened Jsons
  import opened Wrappers

  /** No item starts with the byte that ends the indefinite ones. */
  lemma NoBreakFirst(j: Json)
    ensures Encode(j)[0] != 0xFF
  {
    hide EncodeElems, EncodeMembers, BigEndian;
    match j
    case Integer(i) => HeadStarts(if i >= 0 then 0x00 else 0x20, if i >= 0 then i else -1 - i);
    case Unsigned(u) => HeadStarts(0x00, u);
    case Text(s) => HeadStarts(0x60, |s|);
    case Array(a) => HeadStarts(0x80, |a|);
    case Object(m) => HeadStarts(0xA0, |m|);
    case _ =>
  }

  lemma HeadStarts(base: byte, n: nat)
    requires base <= 0xE0
    ensures base <= Head(base, n)[0] <= base + 0x1B
  {
    hide BigEndian;
  }

  lemma AtStarts(v: Str, idx: nat, s: Str)
    requires At(v, idx, s) && s != []
    ensures idx < |v| && v[idx] == s[0]
  {
    assert v[idx..idx + |s|][0] == v[idx];
  }

  // ---------- strings ----------

  function ChunksText(chunks: seq<Str>): Str {
    if chunks == [] then [0xFF] else Head(0x60, |chunks[0]|) + chunks[0] + ChunksText(chunks[1..])
  }

  function Joined(chunks: seq<Str>): Str {
    if chunks == [] then [] else chunks[0] + Joined(chunks[1..])
  }

  lemma {:induction false} ChunksDecode(v: Str, idx: nat, chunks: seq<Str>, text: Str)
    requires |v| <= MAX_VECTOR && At(v, idx, ChunksText(chunks))
    ensures DecodeChunks(v, idx, text) == Ok((Text(text + Joined(chunks)), idx + |ChunksText(chunks)|))
    decreases |chunks|
  {
    hide Decode, Head;
    AtStarts(v, idx, ChunksText(chunks));
    if chunks == [] {
      assert text + [] == text;
    } else {
      var c := chunks[0];
      AtSplit(v, idx, Head(0x60, |c|) + c, ChunksText(chunks[1..]));
      HeadStarts(0x60, |c|);
      DecodeHeadText(v, idx, c);
      ChunksDecode(v, idx + |Head(0x60, |c|) + c|, chunks[1..], text + c);
      Reassociate(text, c, Joined(chunks[1..]));
    }
  }

  /** A string in chunks is their concatenation. */
  lemma StringUntilBreak(v: Str, idx: nat, chunks: seq<Str>)
    requires |v| <= MAX_VECTOR && At(v, idx, [0x7F] + ChunksText(chunks))
    ensures Decode(v, idx) == Ok((Text(Joined(chunks)), idx + 1 + |ChunksText(chunks)|))
  {
    hide DecodeChunks, ChunksText;
    AtFirst(v, idx, 0x7F, ChunksText(chunks));
    Dispatch(v, idx);
    ChunksDecode(v, idx + 1, chunks, []);
    assert [] + Joined(chunks) == Joined(chunks);
  }

  // ---------- arrays ----------

  lemma {:induction false} ItemsDecode(v: Str, idx: nat, j: Json, i: nat)
    requires |v| <= MAX_VECTOR && j.Array? && i <= |j.elems| && At(v, idx, EncodeElems(j, i) + [0xFF])
    ensures DecodeItemsUntilBreak(v, idx, CanonicalAll(j.elems)[..i])
      == Ok((Array(CanonicalAll(j.elems)), idx + |EncodeElems(j, i)| + 1))
    decreases |j.elems| - i
  {
    hide Decode, Encode, Canonical;
    var all := CanonicalAll(j.elems);
    if i == |j.elems| {
      assert all[..i] == all && [] + [0xFF as byte] == [0xFF];
      AtStarts(v, idx, [0xFF]);
    } else {
      var (e, rest) := (Encode(j.elems[i]), EncodeElems(j, i + 1));
      Reassociate(e, rest, [0xFF]);
      AtSplit(v, idx, e, rest + [0xFF]);
      AtStarts(v, idx, e);
      NoBreakFirst(j.elems[i]);
      DecodeEncoded(v, idx, j.elems[i]);
      ItemsDecode(v, idx + |e|, j, i + 1);
      assert all[..i] + [all[i]] == all[..i + 1];
    }
  }

  /** An array of indefinite length holds its elements in order. */
  lemma ArrayUntilBreak(v: Str, idx: nat, j: Json)
    requires |v| <= MAX_VECTOR && j.Array? && At(v, idx, [0x9F] + (EncodeElems(j, 0) + [0xFF]))
    ensures Decode(v, idx) == Ok((Canonical(j), idx + |EncodeElems(j, 0)| + 2))
  {
    hide DecodeItemsUntilBreak, EncodeElems;
    AtFirst(v, idx, 0x9F, EncodeElems(j, 0) + [0xFF]);
    Dispatch(v, idx);
    ItemsDecode(v, idx + 1, j, 0);
    assert CanonicalAll(j.elems)[..0] == [];
  }

  // ---------- maps ----------

  /** Keys and values in any order, possibly repeated. */
  function PairsText(pairs: seq<(Str, Json)>): Str {
    if pairs == [] then [] else
      Head(0x60, |pairs[0].0|) + pairs[0].0 + (Encode(pairs[0].1) + PairsText(pairs[1..]))
  }

  /** What the pairs decode to. */
  function CanonicalPairs(pairs: seq<(Str, Json)>): seq<(Str, Json)> {
    if pairs == [] then [] else [(pairs[0].0, Canonical(pairs[0].1))] + CanonicalPairs(pairs[1..])
  }

  lemma InsertedStep(members: map<Str, Json>, pairs: seq<(Str, Json)>)
    requires pairs != []
    ensures Inserted(members, CanonicalPairs(pairs))
      == Inserted(members[pairs[0].0 := Canonical(pairs[0].1)], CanonicalPairs(pairs[1..]))
  {
    assert CanonicalPairs(pairs)[1..] == CanonicalPairs(pairs[1..]);
  }

  lemma OnePair(v: Str, idx: nat, k: Str, j: Json, rest: Str)
    requires |v| <= MAX_VECTOR && At(v, idx, Head(0x60, |k|) + k + (Encode(j) + rest))
    ensures var next := idx + |Head(0x60, |k|)| + |k| + |Encode(j)|;
      DecodePair(v, idx) == Ok((k, Canonical(j), next)) && At(v, next, rest) && idx < |v| && v[idx] != 0xFF
  {
    hide Decode, Encode, Head, Canonical;
    var mid := idx + |Head(0x60, |k|)| + |k|;
    AtStarts(v, idx, Head(0x60, |k|) + k + (Encode(j) + rest));
    HeadStarts(0x60, |k|);
    AtSplit(v, idx, Head(0x60, |k|) + k, Encode(j) + rest);
    AtSplit(v, mid, Encode(j), rest);
    DecodeHeadText(v, idx, k);
    DecodeEncoded(v, mid, j);
    DecodePairStep(v, idx, mid, mid + |Encode(j)|, k, Canonical(j));
  }

  lemma {:induction false} PairsUntilBreak(v: Str, idx: nat, pairs: seq<(Str, Json)>, members: map<Str, Json>)
    requires |v| <= MAX_VECTOR && At(v, idx, PairsText(pairs) + [0xFF])
    ensures DecodePairsUntilBreak(v, idx, members) == Ok((Object(Inserted(members, CanonicalPairs(pairs))), idx + |PairsText(pairs)| + 1))
    decreases |pairs|
  {
    hide Decode, DecodePair, Encode, Head, Canonical;
    if pairs == [] {
      assert [] + [0xFF as byte] == [0xFF];
      AtStarts(v, idx, [0xFF]);
    } else {
      var (k, j, rest) := (pairs[0].0, pairs[0].1, PairsText(pairs[1..]));
      Reassociate(Head(0x60, |k|) + k, Encode(j) + rest, [0xFF]);
      Reassociate(Encode(j), rest, [0xFF]);
      OnePair(v, idx, k, j, rest + [0xFF]);
      InsertedStep(members, pairs);
      PairsUntilBreak(v, idx + |Head(0x60, |k|)| + |k| + |Encode(j)|, pairs[1..], members[k := Canonical(j)]);
    }
  }

  lemma {:induction false} PairsCounted(v: Str, idx: nat, pairs: seq<(Str, Json)>, members: map<Str, Json>)
    requires |v| <= MAX_VECTOR && At(v, idx, PairsText(pairs))
    ensures idx <= |v| && DecodePairs(v, idx, |pairs|, members) == Ok((Object(Inserted(members, CanonicalPairs(pairs))), idx + |PairsText(pairs)|))
    decreases |pairs|
  {
    hide Decode, DecodePair, Encode, Head, Canonical;
    if pairs != [] {
      var (k, j, rest) := (pairs[0].0, pairs[0].1, PairsText(pairs[1..]));
      OnePair(v, idx, k, j, rest);
      InsertedStep(members, pairs);
      PairsCounted(v, idx + |Head(0x60, |k|)| + |k| + |Encode(j)|, pairs[1..], members[k := Canonical(j)]);
    }
  }

  /** A map of indefinite length holds its pairs, the later of equal keys. */
  lemma MapUntilBreak(v: Str, idx: nat, pairs: seq<(Str, Json)>)
    requires |v| <= MAX_VECTOR && At(v, idx, [0xBF] + (PairsText(pairs) + [0xFF]))
    ensures Decode(v, idx) == Ok((Object(Inserted(map[], CanonicalPairs(pairs))), idx + |PairsText(pairs)| + 2))
  {
    hide DecodePairsUntilBreak, PairsText;
    AtFirst(v, idx, 0xBF, PairsText(pairs) + [0xFF]);
    Dispatch(v, idx);
    PairsUntilBreak(v, idx + 1, pairs, map[]);
  }

  /** So does a map with a count. */
  lemma MapCounted(v: Str, idx: nat, pairs: seq<(Str, Json)>)
    requires |v| <= MAX_VECTOR && |pairs| <= SIZE_MAX && At(v, idx, Head(0xA0, |pairs|) + PairsText(pairs))
    ensures Decode(v, idx) == Ok((Object(Inserted(map[], CanonicalPairs(pairs))), idx + |Head(0xA0, |pairs|)| + |PairsText(pairs)|))
  {
    hide DecodePairs, PairsText, Head;
    AtSplit(v, idx, Head(0xA0, |pairs|), PairsText(pairs));
    ArgumentOfHead(v, idx, 0xA0, |pairs|);
    Dispatch(v, idx);
    PairsCounted(v, idx + |Head(0xA0, |pairs|)|, pairs, map[]);
  }
}
