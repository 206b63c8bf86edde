/** CBOR (RFC 7049, sections 2.1 and 2.2): to_cbor_internal, from_cbor_internal, and the round trip between them. */
module Cbor {
  import opened Binary
  import opened Bytes
  import opened Doubles
  import opened Jsons
  import opened Wrappers

  const BREAK: byte := 0xFF

  // ---------- encoding ----------

  /** The initial bytes of an item: its major type in `base`, and the argument n in the shortest form. */
  function Head(base: byte, n: nat): (h: Str)
    requires base <= 0xE0
    ensures |h| > 0
  {
    if n <= 0x17 then [base + n as byte]
    else if n <= 0xFF then [base + 0x18] + BigEndian(n, 1)
    else if n <= 0xFFFF then [base + 0x19] + BigEndian(n, 2)
    else if n <= 0xFFFF_FFFF then [base + 0x1A] + BigEndian(n, 4)
    else [base + 0x1B] + BigEndian(n, 8)
  }

  function Encode(j: Json): (e: Str)
    ensures |e| > 0
    decreases j, 1
  {
    match j
    case Null => [0xF6]
    case Boolean(b) => [if b then 0xF5 else 0xF4]
    case Integer(i) => if i >= 0 then Head(0x00, i) else Head(0x20, -1 - i)
    case Unsigned(u) => Head(0x00, u)
    case Float(bits) => [0xFB] + BigEndian(bits, 8)
    case Text(s) => Head(0x60, |s|) + s
    case Array(a) => Head(0x80, |a|) + EncodeElems(j, 0)
    case Object(m) => Head(0xA0, |m|) + EncodeMembers(j, SortedKeys(m.Keys))
  }

  function EncodeElems(j: Json, i: nat): Str
    requires j.Array? && i <= |j.elems|
    decreases j, 0, |j.elems| - i
  {
    if i == |j.elems| then [] else Encode(j.elems[i]) + EncodeElems(j, i + 1)
  }

  function EncodeMembers(j: Json, keys: seq<Str>): Str
    requires j.Object? && forall k :: k in keys ==> k in j.members
    decreases j, 0, |keys|
  {
    if keys == [] then []
    else Head(0x60, |keys[0]|) + keys[0] + (Encode(j.members[keys[0]]) + EncodeMembers(j, keys[1..]))
  }

  method WriteHead(v: ByteVector, base: byte, n: nat)
    requires base <= 0xE0
    modifies v
    ensures v.data == old(v.data) + Head(base, n)
  {
    hide BigEndian;
    if n <= 0x17 {
      v.PushBack(base + n as byte);
    } else if n <= 0xFF {
      WriteSized(v, base + 0x18, 1, n);
    } else if n <= 0xFFFF {
      WriteSized(v, base + 0x19, 2, n);
    } else if n <= 0xFFFF_FFFF {
      WriteSized(v, base + 0x1A, 4, n);
    } else {
      WriteSized(v, base + 0x1B, 8, n);
    }
  }

  /** to_cbor_internal: the encoding is appended to the vector. */
  method ToCbor(j: Json, v: ByteVector)
    modifies v
    ensures v.data == old(v.data) + Encode(j)
    decreases j, 1
  {
    hide Head, EncodeElems, EncodeMembers;
    match j
    case Null => v.PushBack(0xF6);
    case Boolean(b) => v.PushBack(if b then 0xF5 else 0xF4);
    case Integer(i) =>
      if i >= 0 { WriteHead(v, 0x00, i); } else { WriteHead(v, 0x20, -1 - i); }
    case Unsigned(u) => WriteHead(v, 0x00, u);
    case Float(bits) => WriteSized(v, 0xFB, 8, bits);
    case Text(s) =>
      Reassociate(v.data, Head(0x60, |s|), s);
      WriteHead(v, 0x60, |s|);
      v.Append(s);
    case Array(a) =>
      Reassociate(v.data, Head(0x80, |a|), EncodeElems(j, 0));
      WriteHead(v, 0x80, |a|);
      WriteElems(j, v);
    case Object(m) =>
      var keys := SortedKeys(m.Keys);
      Reassociate(v.data, Head(0xA0, |m|), EncodeMembers(j, keys));
      WriteHead(v, 0xA0, |m|);
      WriteMembers(j, keys, v);
  }

  method WriteElems(j: Json, v: ByteVector)
    requires j.Array?
    modifies v
    ensures v.data == old(v.data) + EncodeElems(j, 0)
    decreases j, 0
  {
    ghost var whole := v.data + EncodeElems(j, 0);
    for i := 0 to |j.elems|
      invariant v.data + EncodeElems(j, i) == whole
    {
      Reassociate(v.data, Encode(j.elems[i]), EncodeElems(j, i + 1));
      ToCbor(j.elems[i], v);
    }
  }

  method WriteMembers(j: Json, keys: seq<Str>, v: ByteVector)
    requires j.Object? && forall k :: k in keys ==> k in j.members
    modifies v
    ensures v.data == old(v.data) + EncodeMembers(j, keys)
    decreases j, 0
  {
    ghost var whole := v.data + EncodeMembers(j, keys);
    assert keys[0..] == keys;
    for i := 0 to |keys|
      invariant v.data + EncodeMembers(j, keys[i..]) == whole
    {
      var k := keys[i];
      ghost var rest := EncodeMembers(j, keys[i + 1..]);
      EncodeMembersStep(j, keys, i);
      FourParts(v.data, Head(0x60, |k|), k, Encode(j.members[k]), rest);
      WriteHead(v, 0x60, |k|);
      v.Append(k);
      ToCbor(j.members[k], v);
    }
    assert keys[|keys|..] == [];
  }

  // ---------- decoding ----------

  /** The argument of the item at idx, and where its initial bytes end. */
  function Argument(v: Str, idx: nat, base: int): (r: Result<(nat, nat)>)
    requires idx < |v| && base <= v[idx] as int
    ensures r.Ok? ==> idx < r.value.1 <= |v|
  {
    var info := v[idx] as int - base;
    if info <= 0x17 then Ok((info, idx + 1))
    else if info == 0x18 then Sized(v, idx, 1)
    else if info == 0x19 then Sized(v, idx, 2)
    else if info == 0x1A then Sized(v, idx, 4)
    else if info == 0x1B then Sized(v, idx, 8)
    else Err(InvalidArgument)
  }

  function DecodeUnsigned(v: Str, idx: nat): (r: Result<(Json, nat)>)
    requires idx < |v|
    ensures r.Ok? ==> idx < r.value.1 <= |v|
  {
    var (n, next) :- Argument(v, idx, 0x00);
    assert n <= SIZE_MAX by { ArgumentBound(v, idx, 0x00); }
    Ok((Unsigned(n), next))
  }

  /** -1 - n, where n is first converted to a signed 64-bit number. */
  function DecodeNegative(v: Str, idx: nat): (r: Result<(Json, nat)>)
    requires idx < |v| && 0x20 <= v[idx]
    ensures r.Ok? ==> idx < r.value.1 <= |v|
  {
    var (n, next) :- Argument(v, idx, 0x20);
    assert n <= SIZE_MAX by { ArgumentBound(v, idx, 0x20); }
    Ok((Integer(-1 - ToSigned(n)), next))
  }

  lemma ArgumentBound(v: Str, idx: nat, base: int)
    requires idx < |v| && base <= v[idx] as int && Argument(v, idx, base).Ok?
    ensures Argument(v, idx, base).value.0 <= SIZE_MAX
  {
    SizedBound(v, idx);
  }

  function DecodeText(v: Str, idx: nat): (r: Result<(Json, nat)>)
    requires idx < |v| && 0x60 <= v[idx]
    ensures r.Ok? ==> idx < r.value.1 <= |v|
    decreases |v| - idx, 0
  {
    if v[idx] == 0x7F then DecodeChunks(v, idx + 1, []) else
      var (len, offset) :- Argument(v, idx, 0x60);
      TextAt(v, len, offset)
  }

  /** The chunks of a string of indefinite length, up to the break. */
  function DecodeChunks(v: Str, idx: nat, text: Str): (r: Result<(Json, nat)>)
    ensures r.Ok? ==> idx < r.value.1 <= |v|
    decreases |v| - idx, 2
  {
    if idx >= |v| then Err(OutOfRange)
    else if v[idx] == BREAK then Ok((Text(text), idx + 1))
    else
      var (chunk, next) :- Decode(v, idx);
      if chunk.Text? then DecodeChunks(v, next, text + chunk.text) else Err(DomainError)
  }

  function DecodeArray(v: Str, idx: nat): (r: Result<(Json, nat)>)
    requires idx < |v| && 0x80 <= v[idx]
    ensures r.Ok? ==> idx < r.value.1 <= |v|
    decreases |v| - idx, 0
  {
    if v[idx] == 0x9F then DecodeItemsUntilBreak(v, idx + 1, []) else
      var (len, next) :- Argument(v, idx, 0x80);
      DecodeItems(v, next, len, [])
  }

  function DecodeItems(v: Str, idx: nat, len: nat, elems: seq<Json>): (r: Result<(Json, nat)>)
    requires idx <= |v|
    ensures r.Ok? ==> idx <= r.value.1 <= |v|
    decreases |v| - idx, 2
  {
    if len == 0 then Ok((Array(elems), idx)) else
      var (item, next) :- Decode(v, idx);
      DecodeItems(v, next, len - 1, elems + [item])
  }

  function DecodeItemsUntilBreak(v: Str, idx: nat, elems: seq<Json>): (r: Result<(Json, nat)>)
    ensures r.Ok? ==> idx < r.value.1 <= |v|
    decreases |v| - idx, 2
  {
    if idx >= |v| then Err(OutOfRange)
    else if v[idx] == BREAK then Ok((Array(elems), idx + 1))
    else
      var (item, next) :- Decode(v, idx);
      DecodeItemsUntilBreak(v, next, elems + [item])
  }

  function DecodeMap(v: Str, idx: nat): (r: Result<(Json, nat)>)
    requires idx < |v| && 0xA0 <= v[idx]
    ensures r.Ok? ==> idx < r.value.1 <= |v|
    decreases |v| - idx, 0
  {
    if v[idx] == 0xBF then DecodePairsUntilBreak(v, idx + 1, map[]) else
      var (len, next) :- Argument(v, idx, 0xA0);
      DecodePairs(v, next, len, map[])
  }

  /** A key, which must be a string, and its value. */
  function DecodePair(v: Str, idx: nat): (r: Result<(Str, Json, nat)>)
    ensures r.Ok? ==> idx < r.value.2 <= |v|
    decreases |v| - idx, 2
  {
    var (key, next) :- Decode(v, idx);
    if !key.Text? then Err(DomainError) else
      var (value, end) :- Decode(v, next);
      Ok((key.text, value, end))
  }

  function DecodePairs(v: Str, idx: nat, len: nat, members: map<Str, Json>): (r: Result<(Json, nat)>)
    requires idx <= |v|
    ensures r.Ok? ==> idx <= r.value.1 <= |v|
    decreases |v| - idx, 3
  {
    if len == 0 then Ok((Object(members), idx)) else
      var (key, value, next) :- DecodePair(v, idx);
      DecodePairs(v, next, len - 1, members[key := value])
  }

  function DecodePairsUntilBreak(v: Str, idx: nat, members: map<Str, Json>): (r: Result<(Json, nat)>)
    ensures r.Ok? ==> idx < r.value.1 <= |v|
    decreases |v| - idx, 3
  {
    if idx >= |v| then Err(OutOfRange)
    else if v[idx] == BREAK then Ok((Object(members), idx + 1))
    else
      var (key, value, next) :- DecodePair(v, idx);
      DecodePairsUntilBreak(v, next, members[key := value])
  }

  /** Literals and floating-point numbers. */
  function DecodeSimple(v: Str, idx: nat): (r: Result<(Json, nat)>)
    requires idx < |v|
    ensures r.Ok? ==> idx < r.value.1 <= |v|
  {
    if v[idx] == 0xF4 then Ok((Boolean(false), idx + 1))
    else if v[idx] == 0xF5 then Ok((Boolean(true), idx + 1))
    else if v[idx] == 0xF6 then Ok((Null, idx + 1))
    else if v[idx] == 0xF9 then
      var (half, next) :- Sized(v, idx, 2);
      assert half < 0x1_0000 by { SizedBound(v, idx); }
      Ok((Float(FromHalf(half)), next))
    else if v[idx] == 0xFA then
      var (single, next) :- Sized(v, idx, 4);
      assert single < 0x1_0000_0000 by { SizedBound(v, idx); }
      Ok((Float(FromSingle(single)), next))
    else if v[idx] == 0xFB then
      var (bits, next) :- Sized(v, idx, 8);
      assert bits <= SIZE_MAX by { SizedBound(v, idx); }
      Ok((Float(bits), next))
    else Err(InvalidArgument)
  }

  /**
    from_cbor_internal on every byte vector: it terminates, reads only inside the vector, and either fails or
    moves the index forward, at most to the end.
  */
  function Decode(v: Str, idx: nat): (r: Result<(Json, nat)>)
    ensures r.Ok? ==> idx < r.value.1 <= |v|
    decreases |v| - idx, 1
  {
    if idx >= |v| then Err(OutOfRange)
    else if v[idx] < 0x20 then DecodeUnsigned(v, idx)
    else if v[idx] < 0x40 then DecodeNegative(v, idx)
    else if v[idx] < 0x60 then Err(InvalidArgument)
    else if v[idx] < 0x80 then DecodeText(v, idx)
    else if v[idx] < 0xA0 then DecodeArray(v, idx)
    else if v[idx] < 0xC0 then DecodeMap(v, idx)
    else DecodeSimple(v, idx)
  }

  /** from_cbor_internal(v, idx), with the index returned. */
  method FromCbor(v: Str, start: nat) returns (r: Result<Json>, idx: nat)
    ensures Agrees(Decode(v, start), r, idx)
    decreases |v| - start, 1
  {
    idx := start;
    if idx >= |v| { return Err(OutOfRange), idx; }
    var b := v[idx];
    if 0x60 <= b < 0xC0 {
      if b == 0x7F {
        r, idx := ReadChunks(v, idx + 1);
      } else if b == 0x9F {
        r, idx := ReadItemsUntilBreak(v, idx + 1);
      } else if b == 0xBF {
        r, idx := ReadPairsUntilBreak(v, idx + 1);
      } else {
        var argument := Argument(v, idx, if b < 0x80 then 0x60 else if b < 0xA0 then 0x80 else 0xA0);
        if argument.Err? { return Err(argument.error), idx; }
        var (len, next) := argument.value;
        if b < 0x80 {
          var text := TextAt(v, len, next);
          if text.Err? { return Err(text.error), idx; }
          return Ok(text.value.0), text.value.1;
        } else if b < 0xA0 {
          r, idx := ReadItems(v, next, len);
        } else {
          r, idx := ReadPairs(v, next, len);
        }
      }
    } else {
      var item :=
        if b < 0x20 then DecodeUnsigned(v, idx)
        else if b < 0x40 then DecodeNegative(v, idx)
        else if b < 0x60 then Err(InvalidArgument)
        else DecodeSimple(v, idx);
      if item.Err? { return Err(item.error), idx; }
      return Ok(item.value.0), item.value.1;
    }
  }

  method ReadChunks(v: Str, start: nat) returns (r: Result<Json>, idx: nat)
    ensures Agrees(DecodeChunks(v, start, []), r, idx)
    decreases |v| - start, 2
  {
    idx := start;
    var result := [];
    while idx < |v| && v[idx] != BREAK
      invariant start <= idx && DecodeChunks(v, start, []) == DecodeChunks(v, idx, result)
      decreases |v| - idx
    {
      var chunk;
      chunk, idx := FromCbor(v, idx);
      if chunk.Err? { return Err(chunk.error), idx; }
      if !chunk.value.Text? { return Err(DomainError), idx; }
      result := result + chunk.value.text;
    }
    if idx >= |v| { return Err(OutOfRange), idx; }
    return Ok(Text(result)), idx + 1;
  }

  method ReadItems(v: Str, start: nat, len: nat) returns (r: Result<Json>, idx: nat)
    requires start <= |v|
    ensures Agrees(DecodeItems(v, start, len, []), r, idx)
    decreases |v| - start, 2
  {
    idx := start;
    var result := [];
    for i := 0 to len
      invariant start <= idx <= |v| && DecodeItems(v, start, len, []) == DecodeItems(v, idx, len - i, result)
    {
      var item;
      item, idx := FromCbor(v, idx);
      if item.Err? { return Err(item.error), idx; }
      result := result + [item.value];
    }
    return Ok(Array(result)), idx;
  }

  method ReadItemsUntilBreak(v: Str, start: nat) returns (r: Result<Json>, idx: nat)
    ensures Agrees(DecodeItemsUntilBreak(v, start, []), r, idx)
    decreases |v| - start, 2
  {
    idx := start;
    var result := [];
    while idx < |v| && v[idx] != BREAK
      invariant start <= idx && DecodeItemsUntilBreak(v, start, []) == DecodeItemsUntilBreak(v, idx, result)
      decreases |v| - idx
    {
      var item;
      item, idx := FromCbor(v, idx);
      if item.Err? { return Err(item.error), idx; }
      result := result + [item.value];
    }
    if idx >= |v| { return Err(OutOfRange), idx; }
    return Ok(Array(result)), idx + 1;
  }

  method ReadPair(v: Str, start: nat) returns (key: Result<Str>, value: Json, idx: nat)
    ensures match DecodePair(v, start)
      case Ok((k, j, next)) => key == Ok(k) && value == j && idx == next
      case Err(e) => key == Err(e)
    decreases |v| - start, 2
  {
    value, idx := Null, start;
    var first, second;
    first, idx := FromCbor(v, idx);
    if first.Err? { return Err(first.error), value, idx; }
    if !first.value.Text? { return Err(DomainError), value, idx; }
    second, idx := FromCbor(v, idx);
    if second.Err? { return Err(second.error), value, idx; }
    return Ok(first.value.text), second.value, idx;
  }

  method ReadPairs(v: Str, start: nat, len: nat) returns (r: Result<Json>, idx: nat)
    requires start <= |v|
    ensures Agrees(DecodePairs(v, start, len, map[]), r, idx)
    decreases |v| - start, 3
  {
    idx := start;
    var result: map<Str, Json> := map[];
    for i := 0 to len
      invariant start <= idx <= |v| && DecodePairs(v, start, len, map[]) == DecodePairs(v, idx, len - i, result)
    {
      var key, value;
      key, value, idx := ReadPair(v, idx);
      if key.Err? { return Err(key.error), idx; }
      result := result[key.value := value];
    }
    return Ok(Object(result)), idx;
  }

  method ReadPairsUntilBreak(v: Str, start: nat) returns (r: Result<Json>, idx: nat)
    ensures Agrees(DecodePairsUntilBreak(v, start, map[]), r, idx)
    decreases |v| - start, 3
  {
    idx := start;
    var result: map<Str, Json> := map[];
    while idx < |v| && v[idx] != BREAK
      invariant start <= idx && DecodePairsUntilBreak(v, start, map[]) == DecodePairsUntilBreak(v, idx, result)
      decreases |v| - idx
    {
      var key, value;
      key, value, idx := ReadPair(v, idx);
      if key.Err? { return Err(key.error), idx; }
      result := result[key.value := value];
    }
    if idx >= |v| { return Err(OutOfRange), idx; }
    return Ok(Object(result)), idx + 1;
  }

  // ---------- round trip ----------

  /** The marker of a number of k bytes is 0x18 + log2(k) above the major type. */
  predicate MarkerOf(info: byte, k: nat) {
    (info == 0x18 && k == 1) || (info == 0x19 && k == 2) || (info == 0x1A && k == 4) || (info == 0x1B && k == 8)
  }

  lemma ArgumentOfSized(v: Str, idx: nat, base: byte, info: byte, n: nat, k: nat)
    requires base <= 0xE0 && MarkerOf(info, k) && FitsBytes(n, k)
    requires At(v, idx, [base + info] + BigEndian(n, k))
    ensures idx < |v| && v[idx] == base + info
    ensures Argument(v, idx, base as int) == Ok((n, idx + k + 1))
  {
    Pow256Values();
    SizedAt(v, idx, base + info, n, k);
  }

  lemma ArgumentOfHead(v: Str, idx: nat, base: byte, n: nat)
    requires base <= 0xE0 && At(v, idx, Head(base, n)) && n <= SIZE_MAX
    ensures idx < |v| && base <= v[idx] <= base + 0x1B
    ensures Argument(v, idx, base as int) == Ok((n, idx + |Head(base, n)|))
  {
    hide BigEndian;
    if n <= 0x17 {
      assert [base + n as byte] + [] == [base + n as byte];
      AtFirst(v, idx, base + n as byte, []);
    } else if n <= 0xFF {
      ArgumentOfSized(v, idx, base, 0x18, n, 1);
    } else if n <= 0xFFFF {
      ArgumentOfSized(v, idx, base, 0x19, n, 2);
    } else if n <= 0xFFFF_FFFF {
      ArgumentOfSized(v, idx, base, 0x1A, n, 4);
    } else {
      ArgumentOfSized(v, idx, base, 0x1B, n, 8);
    }
  }

  lemma DecodeHeadText(v: Str, idx: nat, s: Str)
    requires |v| <= MAX_VECTOR && At(v, idx, Head(0x60, |s|) + s)
    ensures Decode(v, idx) == Ok((Text(s), idx + |Head(0x60, |s|)| + |s|))
  {
    AtSplit(v, idx, Head(0x60, |s|), s);
    ArgumentOfHead(v, idx, 0x60, |s|);
  }

  /** Which decoder the first byte selects. */
  lemma Dispatch(v: Str, idx: nat)
    requires idx < |v|
    ensures v[idx] < 0x20 ==> Decode(v, idx) == DecodeUnsigned(v, idx)
    ensures 0x20 <= v[idx] < 0x40 ==> Decode(v, idx) == DecodeNegative(v, idx)
    ensures 0x60 <= v[idx] < 0x80 ==> Decode(v, idx) == DecodeText(v, idx)
    ensures 0x80 <= v[idx] < 0xA0 ==> Decode(v, idx) == DecodeArray(v, idx)
    ensures 0xA0 <= v[idx] < 0xC0 ==> Decode(v, idx) == DecodeMap(v, idx)
    ensures 0xC0 <= v[idx] ==> Decode(v, idx) == DecodeSimple(v, idx)
  {
  }

  lemma DecodeHeadUnsigned(v: Str, idx: nat, n: uint64)
    requires At(v, idx, Head(0x00, n))
    ensures Decode(v, idx) == Ok((Unsigned(n), idx + |Head(0x00, n)|))
  {
    ArgumentOfHead(v, idx, 0x00, n);
    Dispatch(v, idx);
  }

  lemma DecodeHeadNegative(v: Str, idx: nat, i: int64)
    requires i < 0 && At(v, idx, Head(0x20, -1 - i))
    ensures Decode(v, idx) == Ok((Integer(i), idx + |Head(0x20, -1 - i)|))
  {
    ArgumentOfHead(v, idx, 0x20, -1 - i);
    Dispatch(v, idx);
  }

  lemma DecodeFloat(v: Str, idx: nat, bits: uint64)
    requires At(v, idx, [0xFB] + BigEndian(bits, 8))
    ensures Decode(v, idx) == Ok((Float(bits), idx + 9))
  {
    Pow256Values();
    SizedAt(v, idx, 0xFB, bits, 8);
    Dispatch(v, idx);
  }

  lemma DecodeLiteral(v: Str, idx: nat, j: Json)
    requires (j.Null? || j.Boolean?) && At(v, idx, Encode(j))
    ensures Decode(v, idx) == Ok((j, idx + 1)) && |Encode(j)| == 1
  {
    AtFirst(v, idx, Encode(j)[0], []);
    Dispatch(v, idx);
  }

  lemma {:induction false} DecodeEncoded(v: Str, idx: nat, j: Json)
    requires |v| <= MAX_VECTOR && At(v, idx, Encode(j))
    ensures Decode(v, idx) == Ok((Canonical(j), idx + |Encode(j)|))
    decreases j, 2
  {
    hide Decode, Head, EncodeElems, EncodeMembers, BigEndian;
    match j
    case Integer(i) => if i >= 0 { DecodeHeadUnsigned(v, idx, i); } else { DecodeHeadNegative(v, idx, i); }
    case Unsigned(u) => DecodeHeadUnsigned(v, idx, u);
    case Float(bits) => DecodeFloat(v, idx, bits);
    case Text(s) => DecodeHeadText(v, idx, s);
    case Array(_) => DecodeEncodedArray(v, idx, j);
    case Object(_) => DecodeEncodedObject(v, idx, j);
    case _ => DecodeLiteral(v, idx, j);
  }

  lemma {:induction false} DecodeEncodedArray(v: Str, idx: nat, j: Json)
    requires |v| <= MAX_VECTOR && j.Array? && At(v, idx, Encode(j))
    ensures Decode(v, idx) == Ok((Canonical(j), idx + |Encode(j)|))
    decreases j, 1
  {
    hide Decode, DecodeItems, EncodeElems, Head;
    Dispatch(v, idx);
    var head := Head(0x80, |j.elems|);
    AtSplit(v, idx, head, EncodeElems(j, 0));
    EncodeElemsLength(j, 0);
    ArgumentOfHead(v, idx, 0x80, |j.elems|);
    DecodeEncodedElems(v, idx + |head|, j, 0);
    assert CanonicalAll(j.elems)[..0] == [];
  }

  lemma {:induction false} DecodeEncodedObject(v: Str, idx: nat, j: Json)
    requires |v| <= MAX_VECTOR && j.Object? && At(v, idx, Encode(j))
    ensures Decode(v, idx) == Ok((Canonical(j), idx + |Encode(j)|))
    decreases j, 1, 1
  {
    hide Decode, EncodeMembers, Head, Canonical;
    SortedKeysDistinct(j.members.Keys);
    DecodeEncodedKeys(v, idx, j, SortedKeys(j.members.Keys));
  }

  lemma {:induction false} DecodeEncodedKeys(v: Str, idx: nat, j: Json, keys: seq<Str>)
    requires |v| <= MAX_VECTOR && j.Object? && (forall k :: k in keys <==> k in j.members) && |keys| == |j.members|
    requires forall p, q :: 0 <= p < q < |keys| ==> keys[p] != keys[q]
    requires At(v, idx, Head(0xA0, |keys|) + EncodeMembers(j, keys))
    ensures Decode(v, idx) == Ok((Canonical(j), idx + |Head(0xA0, |keys|)| + |EncodeMembers(j, keys)|))
    decreases j, 1, 0
  {
    hide Decode, DecodePairs, EncodeMembers, CanonicalFirst, Head;
    var head := Head(0xA0, |keys|);
    AtSplit(v, idx, head, EncodeMembers(j, keys));
    EncodeMembersLength(j, keys);
    ArgumentOfHead(v, idx, 0xA0, |keys|);
    Dispatch(v, idx);
    assert keys[0..] == keys;
    DecodeEncodedMembers(v, idx + |head|, j, keys, 0);
    CanonicalNone(j, keys);
  }

  lemma {:induction false} EncodeElemsLength(j: Json, i: nat)
    requires j.Array? && i <= |j.elems|
    ensures |EncodeElems(j, i)| >= |j.elems| - i
    decreases |j.elems| - i
  {
    if i < |j.elems| { EncodeElemsLength(j, i + 1); }
  }

  lemma {:induction false} EncodeMembersLength(j: Json, keys: seq<Str>)
    requires j.Object? && forall k :: k in keys ==> k in j.members
    ensures |EncodeMembers(j, keys)| >= |keys|
    decreases |keys|
  {
    if keys != [] { EncodeMembersLength(j, keys[1..]); }
  }

  /** The elements from i on are decoded behind those already found. */
  lemma {:induction false} DecodeEncodedElems(v: Str, idx: nat, j: Json, i: nat)
    requires |v| <= MAX_VECTOR && j.Array? && i <= |j.elems| && At(v, idx, EncodeElems(j, i))
    ensures DecodeItems(v, idx, |j.elems| - i, CanonicalAll(j.elems)[..i]) ==
      Ok((Array(CanonicalAll(j.elems)), idx + |EncodeElems(j, i)|))
    decreases j, 0, |j.elems| - i
  {
    hide Decode, Encode, DecodeItems, Canonical;
    var all := CanonicalAll(j.elems);
    if i == |j.elems| {
      assert all[..i] == all;
      DecodeNoItems(v, idx, all);
    } else {
      AtSplit(v, idx, Encode(j.elems[i]), EncodeElems(j, i + 1));
      DecodeEncoded(v, idx, j.elems[i]);
      var next := idx + |Encode(j.elems[i])|;
      DecodeEncodedElems(v, next, j, i + 1);
      DecodeItemsStep(v, idx, |j.elems| - i, all[..i], all[i], next);
      assert all[..i] + [all[i]] == all[..i + 1];
    }
  }

  lemma DecodeNoItems(v: Str, idx: nat, elems: seq<Json>)
    requires idx <= |v|
    ensures DecodeItems(v, idx, 0, elems) == Ok((Array(elems), idx))
  {
  }

  lemma DecodeItemsStep(v: Str, idx: nat, len: nat, elems: seq<Json>, item: Json, next: nat)
    requires idx <= |v| && len > 0 && Decode(v, idx) == Ok((item, next))
    ensures DecodeItems(v, idx, len, elems) == DecodeItems(v, next, len - 1, elems + [item])
  {
  }

  lemma DecodePairStep(v: Str, idx: nat, mid: nat, next: nat, key: Str, value: Json)
    requires Decode(v, idx) == Ok((Text(key), mid)) && Decode(v, mid) == Ok((value, next))
    ensures DecodePair(v, idx) == Ok((key, value, next))
  {
  }

  lemma DecodePairsStep(v: Str, idx: nat, len: nat, members: map<Str, Json>, key: Str, value: Json, next: nat)
    requires idx <= |v| && len > 0 && DecodePair(v, idx) == Ok((key, value, next))
    ensures DecodePairs(v, idx, len, members) == DecodePairs(v, next, len - 1, members[key := value])
  {
  }

  /** The pair of key k at idx, followed by `rest`. */
  lemma {:induction false} DecodeEncodedPair(v: Str, idx: nat, j: Json, k: Str, rest: Str)
    requires |v| <= MAX_VECTOR && j.Object? && k in j.members
    requires At(v, idx, Head(0x60, |k|) + k + (Encode(j.members[k]) + rest))
    ensures var next := idx + |Head(0x60, |k|)| + |k| + |Encode(j.members[k])|;
      DecodePair(v, idx) == Ok((k, Canonical(j.members[k]), next)) && At(v, next, rest)
    decreases j, 0, 0
  {
    hide Decode, Encode, Head, Canonical;
    var mid := idx + |Head(0x60, |k|)| + |k|;
    AtSplit(v, idx, Head(0x60, |k|) + k, Encode(j.members[k]) + rest);
    AtSplit(v, mid, Encode(j.members[k]), rest);
    DecodeHeadText(v, idx, k);
    DecodeEncoded(v, mid, j.members[k]);
    DecodePairStep(v, idx, mid, mid + |Encode(j.members[k])|, k, Canonical(j.members[k]));
  }

  lemma {:induction false} DecodeEncodedMembers(v: Str, idx: nat, j: Json, keys: seq<Str>, i: nat)
    requires |v| <= MAX_VECTOR && j.Object? && (forall k :: k in keys <==> k in j.members) && i <= |keys|
    requires forall p, q :: 0 <= p < q < |keys| ==> keys[p] != keys[q]
    requires At(v, idx, EncodeMembers(j, keys[i..]))
    ensures DecodePairs(v, idx, |keys| - i, CanonicalFirst(j, keys, i)) ==
      Ok((Canonical(j), idx + |EncodeMembers(j, keys[i..])|))
    decreases j, 0, |keys| - i + 1
  {
    hide Decode, DecodePair, DecodePairs, Encode, EncodeMembers, Head, CanonicalFirst, Canonical;
    if i == |keys| {
      DecodeNoPairs(v, idx, j, keys);
    } else {
      var k := keys[i];
      var rest := EncodeMembers(j, keys[i + 1..]);
      EncodeMembersStep(j, keys, i);
      DecodeEncodedPair(v, idx, j, k, rest);
      var next := idx + |Head(0x60, |k|)| + |k| + |Encode(j.members[k])|;
      DecodeEncodedMembers(v, next, j, keys, i + 1);
      CanonicalNext(j, keys, i);
      DecodePairsStep(v, idx, |keys| - i, CanonicalFirst(j, keys, i), k, Canonical(j.members[k]), next);
    }
  }

  lemma DecodeNoPairs(v: Str, idx: nat, j: Json, keys: seq<Str>)
    requires idx <= |v| && j.Object? && (forall k :: k in keys <==> k in j.members)
    ensures DecodePairs(v, idx, 0, CanonicalFirst(j, keys, |keys|)) == Ok((Canonical(j), idx))
    ensures |EncodeMembers(j, keys[|keys|..])| == 0
  {
    assert keys[|keys|..] == [];
    CanonicalWhole(j, keys);
  }

  lemma EncodeMembersStep(j: Json, keys: seq<Str>, i: nat)
    requires j.Object? && (forall k :: k in keys ==> k in j.members) && i < |keys|
    ensures var k := keys[i];
      EncodeMembers(j, keys[i..]) == Head(0x60, |k|) + k + (Encode(j.members[k]) + EncodeMembers(j, keys[i + 1..]))
  {
    assert keys[i..][0] == keys[i] && keys[i..][1..] == keys[i + 1..];
  }

  /**
    Decoding prefix ++ to_cbor(j) ++ suffix behind the prefix yields a value equal to j, unless j holds a NaN
    and is equal to nothing, and leaves the index at the start of the suffix.
  */
  lemma DecodeInvertsEncode(prefix: Str, j: Json, suffix: Str)
    requires |prefix + Encode(j) + suffix| <= MAX_VECTOR
    ensures var r := Decode(prefix + Encode(j) + suffix, |prefix|);
      r.Ok? && r.value.1 == |prefix| + |Encode(j)| && (Equal(r.value.0, j) <==> NanFree(j))
  {
    AtMiddle(prefix, Encode(j), suffix);
    DecodeEncoded(prefix + Encode(j) + suffix, |prefix|, j);
    CanonicalEqual(j);
  }

  method RoundTrip(prefix: Str, j: Json, suffix: Str) returns (r: Result<Json>, idx: nat)
    requires |prefix + Encode(j) + suffix| <= MAX_VECTOR
    ensures r.Ok? && idx == |prefix + Encode(j)| && (Equal(r.value, j) <==> NanFree(j))
  {
    DecodeInvertsEncode(prefix, j, suffix);
    var v := new ByteVector();
    v.Append(prefix);
    assert v.data == prefix;
    ToCbor(j, v);
    v.Append(suffix);
    r, idx := FromCbor(v.data, |prefix|);
  }
}
