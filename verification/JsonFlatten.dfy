/** flatten and unflatten, and exactly when the second restores what the first was given. */
module JsonFlatten {
  import opened Bytes
  import opened Decimals
  import opened JsonPointers
  import opened JsonPointerText
  import opened Jsons
  import opened Wrappers

  // ---------- flatten ----------

  /** The entries flatten adds for a value reached by the pointer text `prefix`. */
  function Flat(prefix: Str, j: Json): map<Str, Json>
    decreases j, 1
  {
    if j.Array? && j.elems != [] then FlatElems(prefix, j, 0)
    else if j.Object? && j.members != map[] then FlatMembers(prefix, j, SortedKeys(j.members.Keys))
    else map[prefix := if IsPrimitive(j) then j else Null]
  }

  function FlatElems(prefix: Str, j: Json, i: nat): map<Str, Json>
    requires j.Array? && i <= |j.elems|
    decreases j, 0, |j.elems| - i
  {
    if i == |j.elems| then map[]
    else Flat(prefix + [SLASH] + Decimal(i), j.elems[i]) + FlatElems(prefix, j, i + 1)
  }

  function FlatMembers(prefix: Str, j: Json, keys: seq<Str>): map<Str, Json>
    requires j.Object? && forall k :: k in keys ==> k in j.members
    decreases j, 0, |keys|
  {
    if keys == [] then map[]
    else Flat(prefix + [SLASH] + Escaped(keys[0]), j.members[keys[0]]) + FlatMembers(prefix, j, keys[1..])
  }

  /** flatten(reference_string, value, result): the entries are added to the object built so far. */
  method Flatten(prefix: Str, j: Json, result: map<Str, Json>) returns (r: map<Str, Json>)
    ensures r == result + Flat(prefix, j)
    decreases j, 1
  {
    if j.Array? && j.elems != [] {
      r := FlattenElems(prefix, j, result);
    } else if j.Object? && j.members != map[] {
      r := FlattenMembers(prefix, j, SortedKeys(j.members.Keys), result);
    } else {
      r := result[prefix := if IsPrimitive(j) then j else Null];
    }
  }

  method FlattenElems(prefix: Str, j: Json, result: map<Str, Json>) returns (r: map<Str, Json>)
    requires j.Array?
    ensures r == result + FlatElems(prefix, j, 0)
    decreases j, 0
  {
    r := result;
    for i := 0 to |j.elems|
      invariant r + FlatElems(prefix, j, i) == result + FlatElems(prefix, j, 0)
    {
      ghost var before := r;
      r := Flatten(prefix + [SLASH] + Decimal(i), j.elems[i], r);
      UnionAssociates(before, Flat(prefix + [SLASH] + Decimal(i), j.elems[i]), FlatElems(prefix, j, i + 1));
    }
  }

  method FlattenMembers(prefix: Str, j: Json, keys: seq<Str>, result: map<Str, Json>) returns (r: map<Str, Json>)
    requires j.Object? && forall k :: k in keys ==> k in j.members
    ensures r == result + FlatMembers(prefix, j, keys)
    decreases j, 0
  {
    r := result;
    ghost var whole := result + FlatMembers(prefix, j, keys);
    assert keys[0..] == keys;
    for i := 0 to |keys|
      invariant r + FlatMembers(prefix, j, keys[i..]) == whole
    {
      FlatMembersStep(prefix, j, keys, i, r);
      var key := Escape(keys[i]);
      r := Flatten(prefix + [SLASH] + key, j.members[keys[i]], r);
    }
    assert keys[|keys|..] == [];
  }

  lemma FlatMembersStep(prefix: Str, j: Json, keys: seq<Str>, i: nat, r: map<Str, Json>)
    requires j.Object? && i < |keys| && forall k :: k in keys ==> k in j.members
    ensures r + FlatMembers(prefix, j, keys[i..]) ==
      r + Flat(prefix + [SLASH] + Escaped(keys[i]), j.members[keys[i]]) + FlatMembers(prefix, j, keys[i + 1..])
  {
    assert keys[i..][0] == keys[i] && keys[i..][1..] == keys[i + 1..];
    UnionAssociates(r, Flat(prefix + [SLASH] + Escaped(keys[i]), j.members[keys[i]]), FlatMembers(prefix, j, keys[i + 1..]));
  }

  lemma UnionAssociates<K, V>(a: map<K, V>, b: map<K, V>, c: map<K, V>)
    ensures (a + b) + c == a + (b + c)
  {
  }

  // ---------- unflatten ----------

  /** The value after an assignment through get_and_create(tokens). */
  function Create(j: Json, tokens: seq<Str>, v: Json): Result<Json>
    decreases |tokens|
  {
    if tokens == [] then Ok(v) else
      match j
      case Null =>
        var c :- Create(Null, tokens[1..], v);
        Ok(if tokens[0] == [ZERO] then Array([c]) else Object(map[tokens[0] := c]))
      case Object(m) =>
        var c :- Create(if tokens[0] in m then m[tokens[0]] else Null, tokens[1..], v);
        Ok(Object(m[tokens[0] := c]))
      case Array(a) =>
        var i :- Stoi(tokens[0]);
        if i < 0 then Err(LengthError) else
          var b := Padded(a, i);
          var c :- Create(b[i], tokens[1..], v);
          Ok(Array(b[i := c]))
      case _ => Err(DomainError)
  }

  function UnflattenFrom(m: map<Str, Json>, keys: seq<Str>, j: Json): Result<Json>
    requires forall k :: k in keys ==> k in m
    decreases |keys|
  {
    if keys == [] then Ok(j)
    else if !IsPrimitive(m[keys[0]]) then Err(DomainError)
    else
      var tokens :- Split(keys[0]);
      var next :- Create(j, tokens, m[keys[0]]);
      UnflattenFrom(m, keys[1..], next)
  }

  method Unflatten(value: Json) returns (r: Result<Json>)
    ensures r == if value.Object? then UnflattenFrom(value.members, SortedKeys(value.members.Keys), Null) else Err(DomainError)
  {
    if !value.Object? { return Err(DomainError); }
    r := UnflattenEntries(value.members, SortedKeys(value.members.Keys));
  }

  method UnflattenEntries(m: map<Str, Json>, keys: seq<Str>) returns (r: Result<Json>)
    requires forall k :: k in keys ==> k in m
    ensures r == UnflattenFrom(m, keys, Null)
  {
    var result := Null;
    assert keys[0..] == keys;
    for i := 0 to |keys|
      invariant UnflattenFrom(m, keys, Null) == UnflattenFrom(m, keys[i..], result)
    {
      assert keys[i..][0] == keys[i] && keys[i..][1..] == keys[i + 1..];
      var element := m[keys[i]];
      if !IsPrimitive(element) { return Err(DomainError); }
      var tokens := SplitPointer(keys[i]);
      if tokens.Err? { return Err(tokens.error); }
      var next := Create(result, tokens.value, element);
      if next.Err? { return Err(next.error); }
      result := next.value;
    }
    return Ok(result);
  }

  // ---------- the leaves of a value ----------

  function IndexOf(token: Str, n: nat): (i: int)
    ensures -1 <= i < n
    ensures i >= 0 ==> Decimal(i) == token
    ensures i == -1 ==> forall k :: 0 <= k < n ==> Decimal(k) != token
  {
    if n == 0 then -1 else if Decimal(n - 1) == token then n - 1 else IndexOf(token, n - 1)
  }

  /** The child that flatten writes `token` for. */
  function Below(j: Json, token: Str): Option<Json> {
    match j
    case Array(a) => if IndexOf(token, |a|) >= 0 then Some(a[IndexOf(token, |a|)]) else None
    case Object(m) => if token in m then Some(m[token]) else None
    case _ => None
  }

  lemma BelowIndex(a: seq<Json>, i: nat)
    requires i < |a|
    ensures Below(Array(a), Decimal(i)) == Some(a[i])
  {
    DecimalInjective(i, IndexOf(Decimal(i), |a|));
  }

  predicate IsNode(j: Json) { (j.Array? && j.elems != []) || (j.Object? && j.members != map[]) }

  /** What flatten stores for the place `ts`, if that is the place of a leaf. */
  function Leaf(j: Json, ts: seq<Str>): Option<Json>
    decreases |ts|
  {
    if ts == [] then (if IsNode(j) then None else Some(if IsPrimitive(j) then j else Null))
    else match Below(j, ts[0])
      case None => None
      case Some(c) => Leaf(c, ts[1..])
  }

  lemma {:induction false} LeafExists(j: Json) returns (ts: seq<Str>)
    ensures Leaf(j, ts).Some?
  {
    if j.Array? && j.elems != [] {
      var rest := LeafExists(j.elems[0]);
      BelowIndex(j.elems, 0);
      ts := [Decimal(0)] + rest;
      assert ts[1..] == rest;
    } else if j.Object? && j.members != map[] {
      var k :| k in j.members;
      var rest := LeafExists(j.members[k]);
      ts := [k] + rest;
      assert ts[1..] == rest;
    } else {
      ts := [];
    }
  }

  lemma PathInjective(a: seq<Str>, b: seq<Str>)
    requires Path(a) == Path(b)
    ensures a == b
  {
    SplitPath(a);
    SplitPath(b);
  }

  lemma PathBehind(prefix: Str, token: Str, ts: seq<Str>)
    ensures prefix + [SLASH] + Escaped(token) + Path(ts) == prefix + Path([token] + ts)
  {
    PathCons(token, ts);
    Reassociate(prefix, [SLASH], Escaped(token));
    Reassociate(prefix, [SLASH] + Escaped(token), Path(ts));
  }
}
