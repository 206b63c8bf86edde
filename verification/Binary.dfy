/** Byte vectors and the big-endian numbers CBOR and MessagePack put into them. */
module Binary {
  import opened Bytes
  import opened Jsons
  import opened Wrappers

  /** std::vector<uint8_t> as an output buffer. */
  class ByteVector {
    var data: Str

    constructor ()
      ensures data == []
    {
      data := [];
    }

    method PushBack(b: byte)
      modifies this
      ensures data == old(data) + [b]
    {
      data := data + [b];
    }

    method Append(s: Str)
      modifies this
      ensures data == old(data) + s
    {
      var i := 0;
      while i < |s|
        invariant i <= |s| && data == old(data) + s[..i]
      {
        PushBack(s[i]);
        assert s[..i + 1] == s[..i] + [s[i]];
        i := i + 1;
      }
      assert s[..|s|] == s;
    }

    /** add_to_vector: the low `bytes` bytes of the number, most significant first. */
    method AddToVector(bytes: nat, number: int)
      requires bytes == 1 || bytes == 2 || bytes == 4 || bytes == 8
      modifies this
      ensures data == old(data) + BigEndian(number, bytes)
    {
      ghost var whole := old(data) + BigEndian(number, bytes);
      var i := bytes;
      while i > 0
        invariant 0 <= i <= bytes
        invariant data + BigEndian(number, i) == whole
      {
        BigEndianFirst(number, i);
        i := i - 1;
        var next := (number / Pow256(i) % 256) as byte;
        Reassociate(data, [next], BigEndian(number, i));
        PushBack(next);
      }
    }
  }

  /** A marker byte followed by a number of k bytes. */
  method WriteSized(v: ByteVector, marker: byte, k: nat, n: int)
    requires k == 1 || k == 2 || k == 4 || k == 8
    modifies v
    ensures v.data == old(v.data) + ([marker] + BigEndian(n, k))
  {
    Reassociate(v.data, [marker], BigEndian(n, k));
    v.PushBack(marker);
    v.AddToVector(k, n);
  }

  function Pow256(k: nat): (p: nat)
    ensures p > 0
  {
    if k == 0 then 1 else 256 * Pow256(k - 1)
  }

  /** The k lowest bytes of n in two's complement, most significant first. */
  function BigEndian(n: int, k: nat): (s: Str)
    ensures |s| == k
    decreases k
  {
    if k == 0 then [] else BigEndian(n / 256, k - 1) + [(n % 256) as byte]
  }

  lemma {:induction false} BigEndianFirst(n: int, k: nat)
    requires k > 0
    ensures BigEndian(n, k) == [(n / Pow256(k - 1) % 256) as byte] + BigEndian(n, k - 1)
    decreases k
  {
    if k == 1 {
      assert BigEndian(n, 1) == [] + [(n % 256) as byte];
    } else {
      BigEndianFirst(n / 256, k - 1);
      DivDiv(n, Pow256(k - 2));
      var last := [(n % 256) as byte];
      Reassociate([(n / Pow256(k - 1) % 256) as byte], BigEndian(n / 256, k - 2), last);
    }
  }

  lemma DivDiv(n: int, p: nat)
    requires p > 0
    ensures n / 256 / p == n / (256 * p)
  {
    var q := n / 256 / p;
    var r := n - q * (256 * p);
    assert n == 256 * (n / 256) + n % 256;
    assert n / 256 == p * q + n / 256 % p;
    assert r == 256 * (n / 256 % p) + n % 256 by {
      assert 256 * (p * q) == q * (256 * p);
    }
    assert 0 <= r < 256 * p;
    QuotientUnique(n, 256 * p, q, r);
  }

  lemma QuotientUnique(n: int, d: nat, q: int, r: int)
    requires d > 0 && n == q * d + r && 0 <= r < d
    ensures n / d == q && n % d == r
  {
    var q' := n / d;
    assert (q - q') * d == n % d - r;
    MulSize(q - q', d);
  }

  lemma MulSize(x: int, d: int)
    requires d > 0
    ensures x >= 1 ==> x * d >= d
    ensures x <= -1 ==> x * d <= -d
  {
  }

  /** The number a run of bytes denotes. */
  function FromBigEndian(s: Str): nat {
    if s == [] then 0 else 256 * FromBigEndian(s[..|s| - 1]) + s[|s| - 1] as int
  }

  lemma {:induction false} FromBigEndianInverts(n: nat, k: nat)
    requires n < Pow256(k)
    ensures FromBigEndian(BigEndian(n, k)) == n
    decreases k
  {
    if k > 0 {
      FromBigEndianInverts(n / 256, k - 1);
      var s := BigEndian(n, k);
      assert s[..|s| - 1] == BigEndian(n / 256, k - 1);
    }
  }

  lemma {:induction false} FromBigEndianBound(s: Str)
    ensures FromBigEndian(s) < Pow256(|s|)
  {
    if s != [] { FromBigEndianBound(s[..|s| - 1]); }
  }

  lemma Pow256Values()
    ensures Pow256(1) == 0x100 && Pow256(2) == 0x1_0000 && Pow256(4) == 0x1_0000_0000
    ensures Pow256(8) == 0x1_0000_0000_0000_0000
  {
  }

  predicate FitsBytes(n: nat, k: nat) {
    (k == 1 && n <= 0xFF) || (k == 2 && n <= 0xFFFF) || (k == 4 && n <= 0xFFFF_FFFF) || (k == 8 && n <= SIZE_MAX)
  }

  /** Two's complement reading of a k-byte number. */
  function Signed(u: nat, k: nat): int
    requires k > 0
  {
    if u < Pow256(k) / 2 then u else u - Pow256(k)
  }

  lemma SignedInverts(n: int, k: nat)
    requires k > 0 && -(Pow256(k) / 2) <= n < Pow256(k) / 2
    ensures Signed(FromBigEndian(BigEndian(n, k)), k) == n
  {
    hide BigEndian, FromBigEndian;
    var p := Pow256(k);
    assert p == 256 * Pow256(k - 1);
    if n >= 0 {
      FromBigEndianInverts(n, k);
    } else {
      FromBigEndianInverts(n + p, k);
      WrapsAround(n, k);
    }
  }

  lemma {:induction false} WrapsAround(n: int, k: nat)
    ensures BigEndian(n + Pow256(k), k) == BigEndian(n, k)
    decreases k
  {
    if k > 0 {
      var p := Pow256(k - 1);
      assert (n + 256 * p) / 256 == n / 256 + p && (n + 256 * p) % 256 == n % 256;
      WrapsAround(n / 256, k - 1);
    }
  }

  /** get_from_vector: the k bytes behind position i. */
  function Read(v: Str, i: nat, k: nat): (r: Result<nat>)
    ensures r.Ok? ==> i + k < |v|
  {
    if i + k + 1 > |v| then Err(OutOfRange) else Ok(FromBigEndian(v[i + 1..i + 1 + k]))
  }

  lemma LowestByte(field: Str, n: nat, weight: int)
    requires 0 < n <= |field|
    ensures weight * FromBigEndian(field[..n])
      == weight * field[n - 1] as int + 256 * weight * FromBigEndian(field[..n - 1])
  {
    assert field[..n][..n - 1] == field[..n - 1];
    Distribute(weight, FromBigEndian(field[..n - 1]), field[n - 1] as int);
  }

  lemma Distribute(weight: int, high: int, low: int)
    ensures weight * (256 * high + low) == weight * low + 256 * weight * high
  {
  }

  lemma FromBigEndianOfNone(s: Str)
    requires s == []
    ensures FromBigEndian(s) == 0
  {
  }

  /** The bytes are copied in reverse order into the object representation of a little-endian number. */
  method GetFromVector(v: Str, i: nat, k: nat) returns (r: Result<nat>)
    ensures r == Read(v, i, k)
  {
    if i + k + 1 > |v| { return Err(OutOfRange); }
    hide FromBigEndian;
    var result := 0;
    var n := 0;
    var weight := 1;
    ghost var field := v[i + 1..i + 1 + k];
    assert field[..k] == field;
    while n < k
      invariant 0 <= n <= k
      invariant result + weight * FromBigEndian(field[..k - n]) == FromBigEndian(field)
    {
      LowestByte(field, k - n, weight);
      assert field[k - n - 1] == v[i + k - n];
      result := result + weight * v[i + k - n] as int;
      weight := 256 * weight;
      n := n + 1;
    }
    FromBigEndianOfNone(field[..0]);
    return Ok(result);
  }

  const SIZE_MAX: int := 0xFFFF_FFFF_FFFF_FFFF

  /** check_length(size, len, offset) does not throw. */
  predicate LengthOk(size: nat, len: nat, offset: nat) {
    len <= size && offset <= size && size <= SIZE_MAX - offset && len + offset <= size
  }

  /** No vector of bytes can be longer than this. */
  const MAX_VECTOR: int := 0x7FFF_FFFF_FFFF_FFFF

  // ---------- reading one field of an item ----------

  /** A number of k bytes behind idx, and where it ends. */
  function Sized(v: Str, idx: nat, k: nat): (r: Result<(nat, nat)>)
    ensures r.Ok? ==> idx + k + 1 == r.value.1 <= |v|
  {
    var n :- Read(v, idx, k);
    Ok((n, idx + k + 1))
  }

  /** The bytes of a string of the given length at `offset`. */
  function TextAt(v: Str, len: nat, offset: nat): (r: Result<(Json, nat)>)
    ensures r.Ok? ==> offset + len == r.value.1 <= |v| && r.value.0 == Text(v[offset..offset + len])
  {
    if LengthOk(|v|, len, offset) then Ok((Text(v[offset..offset + len]), offset + len)) else Err(OutOfRange)
  }

  lemma SizedBound(v: Str, idx: nat)
    ensures Sized(v, idx, 1).Ok? ==> Sized(v, idx, 1).value.0 < 0x100
    ensures Sized(v, idx, 2).Ok? ==> Sized(v, idx, 2).value.0 < 0x1_0000
    ensures Sized(v, idx, 4).Ok? ==> Sized(v, idx, 4).value.0 < 0x1_0000_0000
    ensures Sized(v, idx, 8).Ok? ==> Sized(v, idx, 8).value.0 <= SIZE_MAX
  {
    Pow256Values();
    if idx + 1 < |v| { FromBigEndianBound(v[idx + 1..idx + 2]); }
    if idx + 2 < |v| { FromBigEndianBound(v[idx + 1..idx + 3]); }
    if idx + 4 < |v| { FromBigEndianBound(v[idx + 1..idx + 5]); }
    if idx + 8 < |v| { FromBigEndianBound(v[idx + 1..idx + 9]); }
  }

  /** The decoder's result and final index, as the specification gives them. */
  ghost predicate Agrees(spec: Result<(Json, nat)>, r: Result<Json>, idx: nat) {
    match spec
    case Ok((j, next)) => r == Ok(j) && idx == next
    case Err(e) => r == Err(e)
  }

  lemma SizedAt(v: Str, idx: nat, marker: byte, n: nat, k: nat)
    requires At(v, idx, [marker] + BigEndian(n, k)) && n < Pow256(k)
    ensures v[idx] == marker && Sized(v, idx, k) == Ok((n, idx + k + 1))
  {
    AtFirst(v, idx, marker, BigEndian(n, k));
    FromBigEndianInverts(n, k);
  }
}
