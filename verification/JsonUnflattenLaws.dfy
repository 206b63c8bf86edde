/** What one assignment of unflatten does to any value, told by what at() finds before and after. */
module JsonUnflattenLaws {
  import opened Bytes
  import opened Decimals
  import opened JsonFlatten
  import opened JsonPatchLaws
  import opened JsonPointers
  import opened Jsons
  import opened Wrappers

  /** at() refuses longer numbers that start with a zero; std::stoi does not. */
  predicate NoLeadingZeros(ts: seq<Str>) {
    forall i :: 0 <= i < |ts| && |ts[i]| > 1 ==> ts[i][0] != 0x30
  }

  lemma NoZerosBehind(ts: seq<Str>)
    requires NoLeadingZeros(ts) && ts != []
    ensures NoLeadingZeros(ts[1..]) && (|ts[0]| > 1 ==> ts[0][0] != ZERO)
  {
    forall i | 0 <= i < |ts[1..]| && |ts[1..][i]| > 1 ensures ts[1..][i][0] != 0x30 { assert ts[1..][i] == ts[i + 1]; }
  }

  lemma IndexIsChecked(size: nat, token: Str)
    requires (|token| > 1 ==> token[0] != ZERO) && Stoi(token).Ok? && Stoi(token).value >= 0
    ensures token != [MINUS] && CheckedIndex(size, token) == if Stoi(token).value < size then Ok(Stoi(token).value) else Err(OutOfRange)
    ensures UncheckedIndex(size, token) == Ok(Stoi(token).value)
  {
    assert Stoi([MINUS]).Err?;
  }

  /** The assigned value is found at its place. */
  lemma {:induction false} CreatedIsFound(j: Json, ts: seq<Str>, v: Json)
    requires Create(j, ts, v).Ok? && NoLeadingZeros(ts)
    ensures GetChecked(Create(j, ts, v).value, ts) == Ok(v)
    decreases |ts|
  {
    hide CheckedIndex, Stoi;
    if ts != [] {
      NoZerosBehind(ts);
      match j
      case Null =>
        CreatedIsFound(Null, ts[1..], v);
        if ts[0] == [ZERO] { ZeroIsFirst(1); }
      case Object(m) => CreatedIsFound(if ts[0] in m then m[ts[0]] else Null, ts[1..], v);
      case Array(a) =>
        var i := Stoi(ts[0]).value;
        IndexIsChecked(|Padded(a, i)|, ts[0]);
        CreatedIsFound(Padded(a, i)[i], ts[1..], v);
      case _ =>
    }
  }

  lemma ZeroIsFirst(size: nat)
    requires size > 0
    ensures CheckedIndex(size, [ZERO]) == Ok(0)
  {
    IndexToken(0, size);
    assert Decimal(0) == [ZERO];
  }

  /** Everything apart from its place stays as it is. */
  lemma {:induction false} CreateKeepsApart(j: Json, ts: seq<Str>, v: Json, t: seq<Str>)
    requires Apart(j, ts, t) && Create(j, ts, v).Ok? && NoLeadingZeros(ts)
    ensures GetChecked(Create(j, ts, v).value, t) == GetChecked(j, t)
    decreases |ts|
  {
    hide CheckedIndex, UncheckedIndex, Stoi;
    NoZerosBehind(ts);
    match j
    case Object(m) =>
      if ts[0] == t[0] { CreateKeepsApart(m[ts[0]], ts[1..], v, t[1..]); }
    case Array(a) =>
      var i := Stoi(ts[0]).value;
      IndexIsChecked(|a|, ts[0]);
      var (x, y) := (CheckedIndex(|a|, ts[0]), CheckedIndex(|a|, t[0]));
      if x == y { CreateKeepsApart(a[i], ts[1..], v, t[1..]); } else { OtherIndex(a, i, t[0], x); }
    case _ =>
  }

  /** Nothing can be assigned below a primitive value that is there already. */
  lemma {:induction false} NothingBelowPrimitives(j: Json, p: seq<Str>, ts: seq<Str>, v: Json)
    requires GetChecked(j, p).Ok? && IsPrimitive(GetChecked(j, p).value) && GetChecked(j, p).value != Null && ts != []
    ensures Create(j, p + ts, v) == Err(DomainError)
    decreases |p|
  {
    hide CheckedIndex, Stoi;
    if p == [] {
      assert p + ts == ts;
    } else {
      assert (p + ts)[0] == p[0] && (p + ts)[1..] == p[1..] + ts;
      NothingBelowPrimitives(Child(j, p[0]).value, p[1..], ts, v);
      if j.Array? { CheckedIsStoi(|j.elems|, p[0]); }
    }
  }

  lemma CheckedIsStoi(size: nat, token: Str)
    requires CheckedIndex(size, token).Ok?
    ensures Stoi(token) == CheckedIndex(size, token)
  {
  }

  /** An array grows with nulls up to the new element. */
  lemma ArraysGrow(a: seq<Json>, i: nat, v: Json)
    requires i <= INT_MAX
    ensures var r := Create(Array(a), [Decimal(i)], v);
      && r.Ok? && r.value.Array? && |r.value.elems| == (if i < |a| then |a| else i + 1) && r.value.elems[i] == v
      && (forall k :: 0 <= k < |a| && k != i ==> r.value.elems[k] == a[k])
      && forall k :: |a| <= k < i ==> r.value.elems[k] == Null
  {
    hide Stoi, Decimal;
    IndexToken(i, i);
    assert [Decimal(i)][1..] == [];
  }

  /** A null becomes an array for the token "0", and an object for any other. */
  lemma NullStarts(token: Str, v: Json)
    ensures Create(Null, [token], v) == Ok(if token == Ascii("0") then Array([v]) else Object(map[token := v]))
  {
    assert [token][1..] == [] && Ascii("0") == [ZERO];
  }
}
