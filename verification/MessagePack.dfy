/** MessagePack: to_msgpack_internal, from_msgpack_internal, and the round trip between them. */
module MessagePack {
  import opened Binary
  import opened Bytes
  import opened Doubles
  import opened Jsons
  import opened Wrappers

  // ---------- encoding ----------

  function EncodeUnsigned(n: nat): (h: Str)
    ensures |h| > 0
  {
    if n < 128 then BigEndian(n, 1)
    else if n <= 0xFF then [0xCC] + BigEndian(n, 1)
    else if n <= 0xFFFF then [0xCD] + BigEndian(n, 2)
    else if n <= 0xFFFF_FFFF then [0xCE] + BigEndian(n, 4)
    else [0xCF] + BigEndian(n, 8)
  }

  function EncodeNegative(i: int): (h: Str)
    ensures |h| > 0
  {
    if i >= -32 then BigEndian(i, 1)
    else if i >= -0x80 then [0xD0] + BigEndian(i, 1)
    else if i >= -0x8000 then [0xD1] + BigEndian(i, 2)
    else if i >= -0x8000_0000 then [0xD2] + BigEndian(i, 4)
    else [0xD3] + BigEndian(i, 8)
  }

  /** The header of a string; one longer than 2^32 - 1 bytes gets none. */
  function TextHead(n: nat): Str {
    if n <= 31 then [0xA0 + n as byte]
    else if n <= 0xFF then [0xD9] + BigEndian(n, 1)
    else if n <= 0xFFFF then [0xDA] + BigEndian(n, 2)
    else if n <= 0xFFFF_FFFF then [0xDB] + BigEndian(n, 4)
    else []
  }

  /** The header of an array (fix 0x90, wide 0xDC) or of a map (fix 0x80, wide 0xDE). */
  function ContainerHead(fix: byte, wide: byte, n: nat): Str
    requires fix <= 0x90 && wide <= 0xDE
  {
    if n <= 15 then [fix + n as byte]
    else if n <= 0xFFFF then [wide] + BigEndian(n, 2)
    else if n <= 0xFFFF_FFFF then [wide + 1] + BigEndian(n, 4)
    else []
  }

  function Encode(j: Json): Str
    decreases j, 1
  {
    match j
    case Null => [0xC0]
    case Boolean(b) => [if b then 0xC3 else 0xC2]
    case Integer(i) => if i >= 0 then EncodeUnsigned(i) else EncodeNegative(i)
    case Unsigned(u) => EncodeUnsigned(u)
    case Float(bits) => [0xCB] + BigEndian(bits, 8)
    case Text(s) => TextHead(|s|) + s
    case Array(a) => ContainerHead(0x90, 0xDC, |a|) + EncodeElems(j, 0)
    case Object(m) => ContainerHead(0x80, 0xDE, |m|) + EncodeMembers(j, SortedKeys(m.Keys))
  }

  function EncodeElems(j: Json, i: nat): Str
    requires j.Array? && i <= |j.elems|
    decreases j, 0, |j.elems| - i
  {
    if i == |j.elems| then [] else Encode(j.elems[i]) + EncodeElems(j, i + 1)
  }

  function EncodeMembers(j: Json, keys: seq<Str>): Str
    requires j.Object? && forall k :: k in keys ==> k in j.members
    decreases j, 0, |keys|
  {
    if keys == [] then []
    else TextHead(|keys[0]|) + keys[0] + (Encode(j.members[keys[0]]) + EncodeMembers(j, keys[1..]))
  }

  method WriteUnsigned(v: ByteVector, n: nat)
    modifies v
    ensures v.data == old(v.data) + EncodeUnsigned(n)
  {
    hide BigEndian;
    if n < 128 {
      v.AddToVector(1, n);
    } else if n <= 0xFF {
      WriteSized(v, 0xCC, 1, n);
    } else if n <= 0xFFFF {
      WriteSized(v, 0xCD, 2, n);
    } else if n <= 0xFFFF_FFFF {
      WriteSized(v, 0xCE, 4, n);
    } else {
      WriteSized(v, 0xCF, 8, n);
    }
  }

  method WriteNegative(v: ByteVector, i: int)
    modifies v
    ensures v.data == old(v.data) + EncodeNegative(i)
  {
    hide BigEndian;
    if i >= -32 {
      v.AddToVector(1, i);
    } else if i >= -0x80 {
      WriteSized(v, 0xD0, 1, i);
    } else if i >= -0x8000 {
      WriteSized(v, 0xD1, 2, i);
    } else if i >= -0x8000_0000 {
      WriteSized(v, 0xD2, 4, i);
    } else {
      WriteSized(v, 0xD3, 8, i);
    }
  }

  method WriteText(v: ByteVector, s: Str)
    modifies v
    ensures v.data == old(v.data) + (TextHead(|s|) + s)
  {
    hide BigEndian;
    Reassociate(v.data, TextHead(|s|), s);
    var n := |s|;
    if n <= 31 {
      v.PushBack(0xA0 + n as byte);
    } else if n <= 0xFF {
      WriteSized(v, 0xD9, 1, n);
    } else if n <= 0xFFFF {
      WriteSized(v, 0xDA, 2, n);
    } else if n <= 0xFFFF_FFFF {
      WriteSized(v, 0xDB, 4, n);
    } else {
      assert v.data + [] == v.data;
    }
    v.Append(s);
  }

  method WriteContainerHead(v: ByteVector, fix: byte, wide: byte, n: nat)
    requires fix <= 0x90 && wide <= 0xDE
    modifies v
    ensures v.data == old(v.data) + ContainerHead(fix, wide, n)
  {
    hide BigEndian;
    if n <= 15 {
      v.PushBack(fix + n as byte);
    } else if n <= 0xFFFF {
      WriteSized(v, wide, 2, n);
    } else if n <= 0xFFFF_FFFF {
      WriteSized(v, wide + 1, 4, n);
    } else {
      assert v.data + [] == v.data;
    }
  }

  /** to_msgpack_internal: the encoding is appended to the vector. */
  method ToMsgpack(j: Json, v: ByteVector)
    modifies v
    ensures v.data == old(v.data) + Encode(j)
    decreases j, 1
  {
    hide EncodeUnsigned, EncodeNegative, TextHead, ContainerHead, EncodeElems, EncodeMembers;
    match j
    case Null => v.PushBack(0xC0);
    case Boolean(b) => v.PushBack(if b then 0xC3 else 0xC2);
    case Integer(i) =>
      if i >= 0 { WriteUnsigned(v, i); } else { WriteNegative(v, i); }
    case Unsigned(u) => WriteUnsigned(v, u);
    case Float(bits) => WriteSized(v, 0xCB, 8, bits);
    case Text(s) => WriteText(v, s);
    case Array(a) =>
      Reassociate(v.data, ContainerHead(0x90, 0xDC, |a|), EncodeElems(j, 0));
      WriteContainerHead(v, 0x90, 0xDC, |a|);
      WriteElems(j, v);
    case Object(m) =>
      var keys := SortedKeys(m.Keys);
      Reassociate(v.data, ContainerHead(0x80, 0xDE, |m|), EncodeMembers(j, keys));
      WriteContainerHead(v, 0x80, 0xDE, |m|);
      WriteMembers(j, keys, v);
  }

  method WriteElems(j: Json, v: ByteVector)
    requires j.Array?
    modifies v
    ensures v.data == old(v.data) + EncodeElems(j, 0)
    decreases j, 0
  {
    ghost var whole := v.data + EncodeElems(j, 0);
    for i := 0 to |j.elems|
      invariant v.data + EncodeElems(j, i) == whole
    {
      Reassociate(v.data, Encode(j.elems[i]), EncodeElems(j, i + 1));
      ToMsgpack(j.elems[i], v);
    }
  }

  method WriteMembers(j: Json, keys: seq<Str>, v: ByteVector)
    requires j.Object? && forall k :: k in keys ==> k in j.members
    modifies v
    ensures v.data == old(v.data) + EncodeMembers(j, keys)
    decreases j, 0
  {
    ghost var whole := v.data + EncodeMembers(j, keys);
    assert keys[0..] == keys;
    for i := 0 to |keys|
      invariant v.data + EncodeMembers(j, keys[i..]) == whole
    {
      var k := keys[i];
      ghost var rest := EncodeMembers(j, keys[i + 1..]);
      EncodeMembersStep(j, keys, i);
      FourParts(v.data, TextHead(|k|), k, Encode(j.members[k]), rest);
      Reassociate(v.data, TextHead(|k|), k);
      WriteText(v, k);
      ToMsgpack(j.members[k], v);
    }
    assert keys[|keys|..] == [];
  }

  lemma EncodeMembersStep(j: Json, keys: seq<Str>, i: nat)
    requires j.Object? && (forall k :: k in keys ==> k in j.members) && i < |keys|
    ensures var k := keys[i];
      EncodeMembers(j, keys[i..]) == TextHead(|k|) + k + (Encode(j.members[k]) + EncodeMembers(j, keys[i + 1..]))
  {
    assert keys[i..][0] == keys[i] && keys[i..][1..] == keys[i + 1..];
  }

  // ---------- decoding ----------

  function DecodeUnsigned(v: Str, idx: nat, k: nat): (r: Result<(Json, nat)>)
    requires k == 1 || k == 2 || k == 4 || k == 8
    ensures r.Ok? ==> idx < r.value.1 <= |v|
  {
    var (n, next) :- Sized(v, idx, k);
    SizedBound(v, idx);
    Ok((Unsigned(n), next))
  }

  function DecodeSigned(v: Str, idx: nat, k: nat): (r: Result<(Json, nat)>)
    requires k == 1 || k == 2 || k == 4 || k == 8
    ensures r.Ok? ==> idx < r.value.1 <= |v|
  {
    var (n, next) :- Sized(v, idx, k);
    SizedBound(v, idx);
    Pow256Values();
    Ok((Integer(Signed(n, k)), next))
  }

  function DecodeText(v: Str, idx: nat, k: nat): (r: Result<(Json, nat)>)
    ensures r.Ok? ==> idx < r.value.1 <= |v|
  {
    var (len, offset) :- Sized(v, idx, k);
    TextAt(v, len, offset)
  }

  function DecodeFloat(v: Str, idx: nat): (r: Result<(Json, nat)>)
    requires idx < |v|
    ensures r.Ok? ==> idx < r.value.1 <= |v|
  {
    SizedBound(v, idx);
    if v[idx] == 0xCA then
      var (single, next) :- Sized(v, idx, 4);
      Ok((Float(FromSingle(single)), next))
    else
      var (bits, next) :- Sized(v, idx, 8);
      Ok((Float(bits), next))
  }

  function DecodeItems(v: Str, idx: nat, len: nat, elems: seq<Json>): (r: Result<(Json, nat)>)
    requires idx <= |v|
    ensures r.Ok? ==> idx <= r.value.1 <= |v|
    decreases |v| - idx, 2
  {
    if len == 0 then Ok((Array(elems), idx)) else
      var (item, next) :- Decode(v, idx);
      DecodeItems(v, next, len - 1, elems + [item])
  }

  /** A key, which must be a string, and its value. */
  function DecodePair(v: Str, idx: nat): (r: Result<(Str, Json, nat)>)
    ensures r.Ok? ==> idx < r.value.2 <= |v|
    decreases |v| - idx, 2
  {
    var (key, next) :- Decode(v, idx);
    if !key.Text? then Err(DomainError) else
      var (value, end) :- Decode(v, next);
      Ok((key.text, value, end))
  }

  function DecodePairs(v: Str, idx: nat, len: nat, members: map<Str, Json>): (r: Result<(Json, nat)>)
    requires idx <= |v|
    ensures r.Ok? ==> idx <= r.value.1 <= |v|
    decreases |v| - idx, 3
  {
    if len == 0 then Ok((Object(members), idx)) else
      var (key, value, next) :- DecodePair(v, idx);
      DecodePairs(v, next, len - 1, members[key := value])
  }

  /** The items whose first byte is at most 0xBF: the number or the length is part of that byte. */
  function DecodeFix(v: Str, idx: nat): (r: Result<(Json, nat)>)
    requires idx < |v| && v[idx] <= 0xBF
    ensures r.Ok? ==> idx < r.value.1 <= |v|
    decreases |v| - idx, 0
  {
    var b := v[idx];
    if b <= 0x7F then Ok((Unsigned(b as int), idx + 1))
    else if b <= 0x8F then DecodePairs(v, idx + 1, (b - 0x80) as int, map[])
    else if b <= 0x9F then DecodeItems(v, idx + 1, (b - 0x90) as int, [])
    else TextAt(v, (b - 0xA0) as int, idx + 1)
  }

  function DecodeMarked(v: Str, idx: nat): (r: Result<(Json, nat)>)
    requires idx < |v|
    ensures r.Ok? ==> idx < r.value.1 <= |v|
    decreases |v| - idx, 0
  {
    var b := v[idx];
    if b == 0xC0 then Ok((Null, idx + 1))
    else if b == 0xC2 then Ok((Boolean(false), idx + 1))
    else if b == 0xC3 then Ok((Boolean(true), idx + 1))
    else if b == 0xCA || b == 0xCB then DecodeFloat(v, idx)
    else if b == 0xCC then DecodeUnsigned(v, idx, 1)
    else if b == 0xCD then DecodeUnsigned(v, idx, 2)
    else if b == 0xCE then DecodeUnsigned(v, idx, 4)
    else if b == 0xCF then DecodeUnsigned(v, idx, 8)
    else if b == 0xD0 then DecodeSigned(v, idx, 1)
    else if b == 0xD1 then DecodeSigned(v, idx, 2)
    else if b == 0xD2 then DecodeSigned(v, idx, 4)
    else if b == 0xD3 then DecodeSigned(v, idx, 8)
    else if b == 0xD9 then DecodeText(v, idx, 1)
    else if b == 0xDA then DecodeText(v, idx, 2)
    else if b == 0xDB then DecodeText(v, idx, 4)
    else if b == 0xDC || b == 0xDD then
      var (len, next) :- Sized(v, idx, if b == 0xDC then 2 else 4);
      DecodeItems(v, next, len, [])
    else if b == 0xDE || b == 0xDF then
      var (len, next) :- Sized(v, idx, if b == 0xDE then 2 else 4);
      DecodePairs(v, next, len, map[])
    else Err(InvalidArgument)
  }

  /**
    from_msgpack_internal on every byte vector: it terminates, reads only inside the vector, and either fails or
    moves the index forward, at most to the end.
  */
  function Decode(v: Str, idx: nat): (r: Result<(Json, nat)>)
    ensures r.Ok? ==> idx < r.value.1 <= |v|
    decreases |v| - idx, 1
  {
    if !LengthOk(|v|, 1, idx) then Err(OutOfRange)
    else if v[idx] <= 0xBF then DecodeFix(v, idx)
    else if v[idx] >= 0xE0 then Ok((Integer(v[idx] as int - 0x100), idx + 1))
    else DecodeMarked(v, idx)
  }

  /** from_msgpack_internal(v, idx), with the index returned. */
  method FromMsgpack(v: Str, start: nat) returns (r: Result<Json>, idx: nat)
    ensures Agrees(Decode(v, start), r, idx)
    decreases |v| - start, 1
  {
    idx := start;
    if !LengthOk(|v|, 1, idx) { return Err(OutOfRange), idx; }
    var b := v[idx];
    if 0x80 <= b <= 0x8F {
      r, idx := ReadPairs(v, idx + 1, (b - 0x80) as int);
    } else if 0x90 <= b <= 0x9F {
      r, idx := ReadItems(v, idx + 1, (b - 0x90) as int);
    } else if 0xDC <= b <= 0xDF {
      var size := Sized(v, idx, if b == 0xDC || b == 0xDE then 2 else 4);
      if size.Err? { return Err(size.error), idx; }
      var (len, next) := size.value;
      if b <= 0xDD {
        r, idx := ReadItems(v, next, len);
      } else {
        r, idx := ReadPairs(v, next, len);
      }
    } else {
      var item :=
        if b <= 0x7F then Ok((Unsigned(b as int), idx + 1))
        else if b <= 0xBF then TextAt(v, (b - 0xA0) as int, idx + 1)
        else if b >= 0xE0 then Ok((Integer(b as int - 0x100), idx + 1))
        else DecodeMarked(v, idx);
      if item.Err? { return Err(item.error), idx; }
      return Ok(item.value.0), item.value.1;
    }
  }

  method ReadItems(v: Str, start: nat, len: nat) returns (r: Result<Json>, idx: nat)
    requires start <= |v|
    ensures Agrees(DecodeItems(v, start, len, []), r, idx)
    decreases |v| - start, 2
  {
    idx := start;
    var result := [];
    for i := 0 to len
      invariant start <= idx <= |v| && DecodeItems(v, start, len, []) == DecodeItems(v, idx, len - i, result)
    {
      var item;
      item, idx := FromMsgpack(v, idx);
      if item.Err? { return Err(item.error), idx; }
      result := result + [item.value];
    }
    return Ok(Array(result)), idx;
  }

  method ReadPairs(v: Str, start: nat, len: nat) returns (r: Result<Json>, idx: nat)
    requires start <= |v|
    ensures Agrees(DecodePairs(v, start, len, map[]), r, idx)
    decreases |v| - start, 3
  {
    idx := start;
    var result: map<Str, Json> := map[];
    for i := 0 to len
      invariant start <= idx <= |v| && DecodePairs(v, start, len, map[]) == DecodePairs(v, idx, len - i, result)
    {
      var key, value;
      key, idx := FromMsgpack(v, idx);
      if key.Err? { return Err(key.error), idx; }
      if !key.value.Text? { return Err(DomainError), idx; }
      value, idx := FromMsgpack(v, idx);
      if value.Err? { return Err(value.error), idx; }
      result := result[key.value.text := value.value];
    }
    return Ok(Object(result)), idx;
  }

  // ---------- round trip ----------

  /** The sizes the format has headers for. */
  predicate SizesFit(j: Json) {
    match j
    case Text(s) => |s| <= 0xFFFF_FFFF
    case Array(a) => |a| <= 0xFFFF_FFFF && forall i :: 0 <= i < |a| ==> SizesFit(a[i])
    case Object(m) => |m| <= 0xFFFF_FFFF && forall k :: k in m ==> |k| <= 0xFFFF_FFFF && SizesFit(m[k])
    case _ => true
  }

  /** Which decoder the first byte selects. */
  lemma Dispatch(v: Str, idx: nat)
    requires idx < |v| <= MAX_VECTOR
    ensures v[idx] <= 0xBF ==> Decode(v, idx) == DecodeFix(v, idx)
    ensures 0xC0 <= v[idx] < 0xE0 ==> Decode(v, idx) == DecodeMarked(v, idx)
    ensures 0xE0 <= v[idx] ==> Decode(v, idx) == Ok((Integer(v[idx] as int - 0x100), idx + 1))
  {
  }

  lemma OneByteNumber(n: int)
    ensures BigEndian(n, 1) == [(n % 256) as byte]
  {
    assert BigEndian(n / 256, 0) == [];
  }

  lemma DecodeEncodedUnsigned(v: Str, idx: nat, n: uint64)
    requires |v| <= MAX_VECTOR && At(v, idx, EncodeUnsigned(n))
    ensures Decode(v, idx) == Ok((Unsigned(n), idx + |EncodeUnsigned(n)|))
  {
    hide Decode, BigEndian, DecodeSigned, Sized, Pow256;
    if n < 128 {
      OneByteNumber(n);
      AtFirst(v, idx, n as byte, []);
    } else {
      var k := if n <= 0xFF then 1 else if n <= 0xFFFF then 2 else if n <= 0xFFFF_FFFF then 4 else 8;
      var marker: byte := if n <= 0xFF then 0xCC else if n <= 0xFFFF then 0xCD else if n <= 0xFFFF_FFFF then 0xCE else 0xCF;
      FitsPow256(n, k);
      SizedAt(v, idx, marker, n, k);
    }
    Dispatch(v, idx);
  }

  lemma FitsPow256(n: nat, k: nat)
    requires FitsBytes(n, k)
    ensures n < Pow256(k)
  {
    Pow256Values();
  }

  lemma DecodeEncodedNegative(v: Str, idx: nat, i: int64)
    requires |v| <= MAX_VECTOR && i < 0 && At(v, idx, EncodeNegative(i))
    ensures Decode(v, idx) == Ok((Integer(i), idx + |EncodeNegative(i)|))
  {
    hide Decode, BigEndian;
    if i >= -32 {
      OneByteNumber(i);
      AtFirst(v, idx, (i + 256) as byte, []);
      Dispatch(v, idx);
    } else if i >= -0x80 {
      DecodeWideSigned(v, idx, i, 1, 0xD0);
    } else if i >= -0x8000 {
      DecodeWideSigned(v, idx, i, 2, 0xD1);
    } else if i >= -0x8000_0000 {
      DecodeWideSigned(v, idx, i, 4, 0xD2);
    } else {
      DecodeWideSigned(v, idx, i, 8, 0xD3);
    }
  }

  lemma DecodeWideSigned(v: Str, idx: nat, i: int64, k: nat, marker: byte)
    requires |v| <= MAX_VECTOR && FitsSigned(i, k) && At(v, idx, [marker] + BigEndian(i, k))
    requires (k == 1 && marker == 0xD0) || (k == 2 && marker == 0xD1) || (k == 4 && marker == 0xD2) || (k == 8 && marker == 0xD3)
    ensures Decode(v, idx) == Ok((Integer(i), idx + k + 1))
    ensures |[marker] + BigEndian(i, k)| == k + 1
  {
    hide Decode, BigEndian, DecodeSigned;
    SignedAt(v, idx, marker, i, k);
    Dispatch(v, idx);
  }

  predicate FitsSigned(i: int, k: nat) {
    (k == 1 && -0x80 <= i < 0x80) || (k == 2 && -0x8000 <= i < 0x8000) || (k == 4 && -0x8000_0000 <= i < 0x8000_0000)
    || (k == 8 && -SIGN_BIT <= i < SIGN_BIT)
  }

  lemma FitsSignedPow256(i: int, k: nat)
    requires FitsSigned(i, k)
    ensures k > 0 && -(Pow256(k) / 2) <= i < Pow256(k) / 2
  {
    Pow256Values();
  }

  lemma SignedAt(v: Str, idx: nat, marker: byte, i: int64, k: nat)
    requires At(v, idx, [marker] + BigEndian(i, k)) && FitsSigned(i, k)
    ensures idx < |v| && v[idx] == marker && DecodeSigned(v, idx, k) == Ok((Integer(i), idx + k + 1))
  {
    hide BigEndian, FromBigEndian, Pow256, Signed;
    AtFirst(v, idx, marker, BigEndian(i, k));
    FitsSignedPow256(i, k);
    SignedInverts(i, k);
  }

  lemma DecodeEncodedText(v: Str, idx: nat, s: Str)
    requires |v| <= MAX_VECTOR && |s| <= 0xFFFF_FFFF && At(v, idx, TextHead(|s|) + s)
    ensures Decode(v, idx) == Ok((Text(s), idx + |TextHead(|s|)| + |s|))
  {
    hide Decode, BigEndian, DecodeSigned, Sized, Pow256;
    var n := |s|;
    AtSplit(v, idx, TextHead(n), s);
    if n <= 31 {
      AtFirst(v, idx, 0xA0 + n as byte, []);
    } else {
      var k := if n <= 0xFF then 1 else if n <= 0xFFFF then 2 else 4;
      var marker: byte := if n <= 0xFF then 0xD9 else if n <= 0xFFFF then 0xDA else 0xDB;
      FitsPow256(n, k);
      SizedAt(v, idx, marker, n, k);
    }
    Dispatch(v, idx);
  }

  lemma DecodeArrayHead(v: Str, idx: nat, n: nat, rest: Str)
    requires |v| <= MAX_VECTOR && n <= 0xFFFF_FFFF && At(v, idx, ContainerHead(0x90, 0xDC, n) + rest)
    ensures var next := idx + |ContainerHead(0x90, 0xDC, n)|;
      next <= |v| && At(v, next, rest) && Decode(v, idx) == DecodeItems(v, next, n, [])
  {
    hide Decode, BigEndian, DecodeItems, DecodePairs, DecodeSigned, Sized, Pow256;
    AtSplit(v, idx, ContainerHead(0x90, 0xDC, n), rest);
    if n <= 15 {
      AtFirst(v, idx, 0x90 + n as byte, []);
    } else {
      var k := if n <= 0xFFFF then 2 else 4;
      FitsPow256(n, k);
      SizedAt(v, idx, if n <= 0xFFFF then 0xDC else 0xDD, n, k);
    }
    Dispatch(v, idx);
  }

  lemma DecodeMapHead(v: Str, idx: nat, n: nat, rest: Str)
    requires |v| <= MAX_VECTOR && n <= 0xFFFF_FFFF && At(v, idx, ContainerHead(0x80, 0xDE, n) + rest)
    ensures var next := idx + |ContainerHead(0x80, 0xDE, n)|;
      next <= |v| && At(v, next, rest) && Decode(v, idx) == DecodePairs(v, next, n, map[])
  {
    hide Decode, BigEndian, DecodePairs, DecodeItems, DecodeSigned, Sized, Pow256;
    AtSplit(v, idx, ContainerHead(0x80, 0xDE, n), rest);
    if n <= 15 {
      AtFirst(v, idx, 0x80 + n as byte, []);
    } else {
      var k := if n <= 0xFFFF then 2 else 4;
      FitsPow256(n, k);
      SizedAt(v, idx, if n <= 0xFFFF then 0xDE else 0xDF, n, k);
    }
    Dispatch(v, idx);
  }

  lemma DecodeEncodedFloat(v: Str, idx: nat, bits: uint64)
    requires |v| <= MAX_VECTOR && At(v, idx, [0xCB] + BigEndian(bits, 8))
    ensures Decode(v, idx) == Ok((Float(bits), idx + 9))
  {
    Pow256Values();
    SizedAt(v, idx, 0xCB, bits, 8);
    Dispatch(v, idx);
  }

  lemma DecodeLiteral(v: Str, idx: nat, j: Json)
    requires |v| <= MAX_VECTOR && (j.Null? || j.Boolean?) && At(v, idx, Encode(j))
    ensures Decode(v, idx) == Ok((j, idx + 1)) && |Encode(j)| == 1
  {
    AtFirst(v, idx, Encode(j)[0], []);
    Dispatch(v, idx);
  }

  lemma {:induction false} DecodeEncoded(v: Str, idx: nat, j: Json)
    requires |v| <= MAX_VECTOR && SizesFit(j) && At(v, idx, Encode(j))
    ensures Decode(v, idx) == Ok((Canonical(j), idx + |Encode(j)|))
    decreases j, 2
  {
    hide Decode, EncodeUnsigned, EncodeNegative, TextHead, ContainerHead, EncodeElems, EncodeMembers, BigEndian;
    match j
    case Integer(i) => if i >= 0 { DecodeEncodedUnsigned(v, idx, i); } else { DecodeEncodedNegative(v, idx, i); }
    case Unsigned(u) => DecodeEncodedUnsigned(v, idx, u);
    case Float(bits) => DecodeEncodedFloat(v, idx, bits);
    case Text(s) => DecodeEncodedText(v, idx, s);
    case Array(a) =>
      DecodeArrayHead(v, idx, |a|, EncodeElems(j, 0));
      DecodeEncodedElems(v, idx + |ContainerHead(0x90, 0xDC, |a|)|, j, 0);
      assert CanonicalAll(a)[..0] == [];
    case Object(m) => DecodeEncodedObject(v, idx, j);
    case _ => DecodeLiteral(v, idx, j);
  }

  lemma {:induction false} DecodeEncodedObject(v: Str, idx: nat, j: Json)
    requires |v| <= MAX_VECTOR && SizesFit(j) && j.Object? && At(v, idx, Encode(j))
    ensures Decode(v, idx) == Ok((Canonical(j), idx + |Encode(j)|))
    decreases j, 1, 1
  {
    hide Decode, EncodeMembers, ContainerHead, SizesFit, Canonical;
    SortedKeysDistinct(j.members.Keys);
    DecodeEncodedKeys(v, idx, j, SortedKeys(j.members.Keys));
  }

  lemma {:induction false} DecodeEncodedKeys(v: Str, idx: nat, j: Json, keys: seq<Str>)
    requires |v| <= MAX_VECTOR && j.Object? && SizesFit(j)
    requires (forall k :: k in keys <==> k in j.members) && |keys| == |j.members|
    requires forall p, q :: 0 <= p < q < |keys| ==> keys[p] != keys[q]
    requires At(v, idx, ContainerHead(0x80, 0xDE, |keys|) + EncodeMembers(j, keys))
    ensures Decode(v, idx) == Ok((Canonical(j), idx + |ContainerHead(0x80, 0xDE, |keys|)| + |EncodeMembers(j, keys)|))
    decreases j, 1, 0
  {
    hide Decode, DecodePairs, EncodeMembers, CanonicalFirst, ContainerHead;
    DecodeMapHead(v, idx, |keys|, EncodeMembers(j, keys));
    assert keys[0..] == keys;
    DecodeEncodedMembers(v, idx + |ContainerHead(0x80, 0xDE, |keys|)|, j, keys, 0);
    CanonicalNone(j, keys);
  }

  /** The elements from i on are decoded behind those already found. */
  lemma {:induction false} DecodeEncodedElems(v: Str, idx: nat, j: Json, i: nat)
    requires |v| <= MAX_VECTOR && j.Array? && SizesFit(j) && i <= |j.elems| && At(v, idx, EncodeElems(j, i))
    ensures DecodeItems(v, idx, |j.elems| - i, CanonicalAll(j.elems)[..i]) ==
      Ok((Array(CanonicalAll(j.elems)), idx + |EncodeElems(j, i)|))
    decreases j, 0, |j.elems| - i
  {
    hide Decode, Encode, DecodeItems, Canonical, SizesFit;
    var all := CanonicalAll(j.elems);
    if i == |j.elems| {
      assert all[..i] == all;
      DecodeNoItems(v, idx, all);
    } else {
      ElemFits(j, i);
      AtSplit(v, idx, Encode(j.elems[i]), EncodeElems(j, i + 1));
      DecodeEncoded(v, idx, j.elems[i]);
      var next := idx + |Encode(j.elems[i])|;
      DecodeEncodedElems(v, next, j, i + 1);
      DecodeItemsStep(v, idx, |j.elems| - i, all[..i], all[i], next);
      assert all[..i] + [all[i]] == all[..i + 1];
    }
  }

  lemma ElemFits(j: Json, i: nat)
    requires j.Array? && SizesFit(j) && i < |j.elems|
    ensures SizesFit(j.elems[i])
  {
  }

  lemma DecodeNoItems(v: Str, idx: nat, elems: seq<Json>)
    requires idx <= |v|
    ensures DecodeItems(v, idx, 0, elems) == Ok((Array(elems), idx))
  {
  }

  lemma DecodeItemsStep(v: Str, idx: nat, len: nat, elems: seq<Json>, item: Json, next: nat)
    requires idx <= |v| && len > 0 && Decode(v, idx) == Ok((item, next))
    ensures DecodeItems(v, idx, len, elems) == DecodeItems(v, next, len - 1, elems + [item])
  {
    hide Decode;
  }

  lemma DecodePairStep(v: Str, idx: nat, mid: nat, next: nat, key: Str, value: Json)
    requires Decode(v, idx) == Ok((Text(key), mid)) && Decode(v, mid) == Ok((value, next))
    ensures DecodePair(v, idx) == Ok((key, value, next))
  {
  }

  lemma DecodePairsStep(v: Str, idx: nat, len: nat, members: map<Str, Json>, key: Str, value: Json, next: nat)
    requires idx <= |v| && len > 0 && DecodePair(v, idx) == Ok((key, value, next))
    ensures DecodePairs(v, idx, len, members) == DecodePairs(v, next, len - 1, members[key := value])
  {
  }

  /** The pair of key k at idx, followed by `rest`. */
  lemma {:induction false} DecodeEncodedPair(v: Str, idx: nat, j: Json, k: Str, rest: Str)
    requires |v| <= MAX_VECTOR && j.Object? && SizesFit(j) && k in j.members
    requires At(v, idx, TextHead(|k|) + k + (Encode(j.members[k]) + rest))
    ensures var next := idx + |TextHead(|k|)| + |k| + |Encode(j.members[k])|;
      DecodePair(v, idx) == Ok((k, Canonical(j.members[k]), next)) && At(v, next, rest)
    decreases j, 0, 0
  {
    hide Decode, Encode, TextHead, Canonical;
    var mid := idx + |TextHead(|k|)| + |k|;
    AtSplit(v, idx, TextHead(|k|) + k, Encode(j.members[k]) + rest);
    AtSplit(v, mid, Encode(j.members[k]), rest);
    DecodeEncodedText(v, idx, k);
    DecodeEncoded(v, mid, j.members[k]);
    DecodePairStep(v, idx, mid, mid + |Encode(j.members[k])|, k, Canonical(j.members[k]));
  }

  lemma {:induction false} DecodeEncodedMembers(v: Str, idx: nat, j: Json, keys: seq<Str>, i: nat)
    requires |v| <= MAX_VECTOR && j.Object? && SizesFit(j) && (forall k :: k in keys <==> k in j.members) && i <= |keys|
    requires forall p, q :: 0 <= p < q < |keys| ==> keys[p] != keys[q]
    requires At(v, idx, EncodeMembers(j, keys[i..]))
    ensures DecodePairs(v, idx, |keys| - i, CanonicalFirst(j, keys, i)) ==
      Ok((Canonical(j), idx + |EncodeMembers(j, keys[i..])|))
    decreases j, 0, |keys| - i + 1
  {
    hide Decode, DecodePair, DecodePairs, Encode, EncodeMembers, TextHead, CanonicalFirst, Canonical, SizesFit;
    if i == |keys| {
      DecodeNoPairs(v, idx, j, keys);
    } else {
      var k := keys[i];
      var rest := EncodeMembers(j, keys[i + 1..]);
      EncodeMembersStep(j, keys, i);
      DecodeEncodedPair(v, idx, j, k, rest);
      var next := idx + |TextHead(|k|)| + |k| + |Encode(j.members[k])|;
      DecodeEncodedMembers(v, next, j, keys, i + 1);
      CanonicalNext(j, keys, i);
      DecodePairsStep(v, idx, |keys| - i, CanonicalFirst(j, keys, i), k, Canonical(j.members[k]), next);
    }
  }

  lemma DecodeNoPairs(v: Str, idx: nat, j: Json, keys: seq<Str>)
    requires idx <= |v| && j.Object? && (forall k :: k in keys <==> k in j.members)
    ensures DecodePairs(v, idx, 0, CanonicalFirst(j, keys, |keys|)) == Ok((Canonical(j), idx))
    ensures |EncodeMembers(j, keys[|keys|..])| == 0
  {
    assert keys[|keys|..] == [];
    CanonicalWhole(j, keys);
  }

  /**
    Decoding prefix ++ to_msgpack(j) ++ suffix behind the prefix yields a value equal to j, unless j holds a NaN
    and is equal to nothing, and leaves the index at the start of the suffix.
  */
  lemma DecodeInvertsEncode(prefix: Str, j: Json, suffix: Str)
    requires SizesFit(j) && |prefix + Encode(j) + suffix| <= MAX_VECTOR
    ensures var r := Decode(prefix + Encode(j) + suffix, |prefix|);
      r.Ok? && r.value.1 == |prefix| + |Encode(j)| && (Equal(r.value.0, j) <==> NanFree(j))
  {
    AtMiddle(prefix, Encode(j), suffix);
    DecodeEncoded(prefix + Encode(j) + suffix, |prefix|, j);
    CanonicalEqual(j);
  }

  method RoundTrip(prefix: Str, j: Json, suffix: Str) returns (r: Result<Json>, idx: nat)
    requires SizesFit(j) && |prefix + Encode(j) + suffix| <= MAX_VECTOR
    ensures r.Ok? && idx == |prefix + Encode(j)| && (Equal(r.value, j) <==> NanFree(j))
  {
    DecodeInvertsEncode(prefix, j, suffix);
    var v := new ByteVector();
    v.Append(prefix);
    assert v.data == prefix;
    ToMsgpack(j, v);
    v.Append(suffix);
    r, idx := FromMsgpack(v.data, |prefix|);
  }
}
