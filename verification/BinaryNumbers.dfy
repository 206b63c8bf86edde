/** Numbers the encoders never write: wider than needed, or of half and single precision (RFC 7049, section 2). */
module BinaryNumbers {
  import opened Binary
  import opened Bytes
  import opened Doubles
  import opened Jsons
  import opened Wrappers
  import Cbor
  import MessagePack
  import Widening

  lemma TwoBytes(a: byte, b: byte)
    ensures BigEndian(a as int * 0x100 + b as int, 2) == [a, b]
  {
    var n := a as int * 0x100 + b as int;
    assert n / 256 == a as int && n % 256 == b as int;
    assert BigEndian(n / 256, 1) == [] + [a];
  }

  lemma FourBytes(a: byte, b: byte, c: byte, d: byte)
    ensures BigEndian(((a as int * 0x100 + b as int) * 0x100 + c as int) * 0x100 + d as int, 4) == [a, b, c, d]
  {
    var two := a as int * 0x100 + b as int;
    var three := two * 0x100 + c as int;
    var n := three * 0x100 + d as int;
    TwoBytes(a, b);
    assert n / 256 == three && n % 256 == d as int && three / 256 == two && three % 256 == c as int;
    assert BigEndian(three, 3) == [a, b] + [c];
  }

  /** 0xF9 and two bytes: the double with the value of the half-precision number. */
  lemma HalfIsRead(v: Str, idx: nat, a: byte, b: byte)
    requires At(v, idx, [0xF9, a, b])
    ensures Cbor.Decode(v, idx) == Ok((Float(FromHalf(a as int * 0x100 + b as int)), idx + 3))
  {
    hide BigEndian, Pow256, FromHalf;
    var half := a as int * 0x100 + b as int;
    TwoBytes(a, b);
    Pow256Values();
    assert [0xF9, a, b] == [0xF9] + BigEndian(half, 2);
    SizedAt(v, idx, 0xF9, half, 2);
    Cbor.Dispatch(v, idx);
  }

  /** 0xFA, or in MessagePack 0xCA, and four bytes: the double with the value of the single-precision number. */
  lemma SingleIsRead(v: Str, idx: nat, marker: byte, a: byte, b: byte, c: byte, d: byte)
    requires |v| <= MAX_VECTOR && At(v, idx, [marker, a, b, c, d])
    ensures var n := ((a as int * 0x100 + b as int) * 0x100 + c as int) * 0x100 + d as int;
      && (marker == 0xFA ==> Cbor.Decode(v, idx) == Ok((Float(FromSingle(n)), idx + 5)))
      && (marker == 0xCA ==> MessagePack.Decode(v, idx) == Ok((Float(FromSingle(n)), idx + 5)))
  {
    hide BigEndian, Pow256, FromSingle, Cbor.Decode, MessagePack.Decode, FromBigEndian;
    var n := ((a as int * 0x100 + b as int) * 0x100 + c as int) * 0x100 + d as int;
    FourBytes(a, b, c, d);
    Pow256Values();
    assert [marker, a, b, c, d] == [marker] + BigEndian(n, 4);
    SizedAt(v, idx, marker, n, 4);
    Cbor.Dispatch(v, idx);
    MessagePack.Dispatch(v, idx);
  }

  /** An argument of any width is read, however short it could have been. */
  lemma WideArgument(v: Str, idx: nat, n: nat, k: nat, info: byte)
    requires Cbor.MarkerOf(info, k) && FitsBytes(n, k)
    ensures At(v, idx, [info] + BigEndian(n, k)) ==> Cbor.Decode(v, idx) == Ok((Unsigned(n), idx + k + 1))
    ensures At(v, idx, [0x20 + info] + BigEndian(n, k)) && n < SIGN_BIT ==>
      Cbor.Decode(v, idx) == Ok((Integer(-1 - n), idx + k + 1))
  {
    hide BigEndian, Cbor.Decode, FromBigEndian, Pow256;
    if At(v, idx, [info] + BigEndian(n, k)) {
      Cbor.ArgumentOfSized(v, idx, 0, info, n, k);
      Cbor.Dispatch(v, idx);
    }
    if At(v, idx, [0x20 + info] + BigEndian(n, k)) && n < SIGN_BIT {
      Cbor.ArgumentOfSized(v, idx, 0x20, info, n, k);
      Cbor.Dispatch(v, idx);
    }
  }

  /** The markers 0xCC to 0xCF and 0xD0 to 0xD3 of MessagePack, whatever the size of the number. */
  lemma WideNumber(v: Str, idx: nat, n: nat, i: int, k: nat, marker: byte)
    requires |v| <= MAX_VECTOR && FitsBytes(n, k) && MessagePack.FitsSigned(i, k)
    requires (marker, k) in {(0, 1), (1, 2), (2, 4), (3, 8)}
    ensures At(v, idx, [0xCC + marker] + BigEndian(n, k)) ==> MessagePack.Decode(v, idx) == Ok((Unsigned(n), idx + k + 1))
    ensures At(v, idx, [0xD0 + marker] + BigEndian(i, k)) ==> MessagePack.Decode(v, idx) == Ok((Integer(i), idx + k + 1))
  {
    hide BigEndian, MessagePack.Decode, FromBigEndian, Pow256, MessagePack.DecodeSigned, Sized;
    Pow256Values();
    if At(v, idx, [0xCC + marker] + BigEndian(n, k)) {
      SizedAt(v, idx, 0xCC + marker, n, k);
      MessagePack.Dispatch(v, idx);
    }
    if At(v, idx, [0xD0 + marker] + BigEndian(i, k)) {
      MessagePack.SignedAt(v, idx, 0xD0 + marker, i, k);
      MessagePack.Dispatch(v, idx);
    }
  }

  /** The bytes that start no item are errors. */
  lemma NoItem(v: Str, idx: nat)
    requires idx < |v|
    ensures 0x40 <= v[idx] < 0x60 || (0xC0 <= v[idx] && v[idx] !in {0xF4, 0xF5, 0xF6, 0xF9, 0xFA, 0xFB}) ==>
      Cbor.Decode(v, idx) == Err(InvalidArgument)
    ensures |v| <= MAX_VECTOR && v[idx] in {0xC1, 0xC4, 0xC5, 0xC6, 0xC7, 0xC8, 0xC9, 0xD4, 0xD5, 0xD6, 0xD7, 0xD8} ==>
      MessagePack.Decode(v, idx) == Err(InvalidArgument)
  {
    hide Sized;
    if |v| <= MAX_VECTOR { MessagePack.Dispatch(v, idx); }
  }
}
