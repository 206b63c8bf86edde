/** diff as json.hpp computes it, and the invariant its documentation promises: source.patch(diff(source, target)) == target. */
module JsonDiff {
  import opened Bytes
  import opened Decimals
  import opened Doubles
  import opened JsonPatches
  import opened JsonPointers
  import opened JsonPointerText
  import opened Jsons
  import opened Wrappers

  // ---------- an operation below a node acts on that node alone ----------

  /** The operations for which a longer path only means a deeper place. */
  predicate Local(op: Op) {
    op.Replace? || ((op.Add? || op.Remove?) && op.path != [])
  }

  lemma ApplyUnder(j: Json, token: Str, op: Op)
    requires Child(j, token).Ok? && Local(op) && Apply(Child(j, token).value, op).Ok?
    ensures Apply(j, Deeper(token, op)) == Ok(WithChild(j, token, Apply(Child(j, token).value, op).value))
  {
    var path := [token] + op.path;
    if op.Replace? {
      assert path[1..] == op.path;
    } else {
      var n := |op.path| - 1;
      assert path[..|path| - 1] == [token] + op.path[..n] && path[|path| - 1] == op.path[n];
      var parents := path[..|path| - 1];
      assert parents[1..] == op.path[..n];
    }
  }

  lemma WithChildTwice(j: Json, token: Str, c: Json, d: Json)
    requires Child(j, token).Ok?
    ensures WithChild(WithChild(j, token, c), token, d) == WithChild(j, token, d)
  {
    if j.Object? {
      assert j.members[token := c][token := d] == j.members[token := d];
    } else {
      var i := CheckedIndex(|j.elems|, token).value;
      assert j.elems[i := c][i := d] == j.elems[i := d];
    }
  }

  lemma {:induction false} ApplyAllUnder(j: Json, token: Str, ops: seq<Op>)
    requires Child(j, token).Ok? && ApplyAll(Child(j, token).value, ops).Ok?
    requires forall i :: 0 <= i < |ops| ==> Local(ops[i])
    ensures ApplyAll(j, Under(token, ops)) == Ok(WithChild(j, token, ApplyAll(Child(j, token).value, ops).value))
    decreases |ops|
  {
    var c := Child(j, token).value;
    if ops == [] {
      WithSameChild(j, token);
    } else {
      var c' := Apply(c, ops[0]).value;
      ApplyUnder(j, token, ops[0]);
      var j' := WithChild(j, token, c');
      ApplyAllUnder(j', token, ops[1..]);
      assert Under(token, ops)[1..] == Under(token, ops[1..]);
      WithChildTwice(j, token, c', ApplyAll(c, ops).value);
    }
  }

  lemma WithSameChild(j: Json, token: Str)
    requires Child(j, token).Ok?
    ensures WithChild(j, token, Child(j, token).value) == j
  {
    if j.Object? {
      assert j.members[token := j.members[token]] == j.members;
    }
  }

  lemma {:induction false} ApplyAllConcat(j: Json, a: seq<Op>, b: seq<Op>)
    requires ApplyAll(j, a).Ok?
    ensures ApplyAll(j, a + b) == ApplyAll(ApplyAll(j, a).value, b)
    decreases |a|
  {
    if a == [] {
      assert a + b == b;
    } else {
      assert (a + b)[1..] == a[1..] + b;
      ApplyAllConcat(Apply(j, a[0]).value, a[1..], b);
    }
  }

  lemma ApplyOne(j: Json, op: Op)
    ensures ApplyAll(j, [op]) == Apply(j, op)
  {
    assert [op][1..] == [];
  }

  lemma ApplyFirst(j: Json, op: Op, rest: seq<Op>)
    requires Apply(j, op).Ok?
    ensures ApplyAll(j, [op] + rest) == ApplyAll(Apply(j, op).value, rest)
  {
    assert ([op] + rest)[1..] == rest;
  }

  lemma OperationAtTop(j: Json, k: Str, v: Json)
    ensures Apply(j, Add([k], v)) == AddChild(j, k, v)
    ensures Apply(j, Remove([k])) == RemoveChild(j, k)
  {
    assert [k][..0] == [];
  }

  // ---------- the operations of a diff are local ----------

  ghost predicate AllLocal(ops: seq<Op>) { forall i :: 0 <= i < |ops| ==> Local(ops[i]) }

  lemma {:induction false} DiffIsLocal(s: Json, t: Json)
    ensures AllLocal(DiffOps(s, t))
    decreases s, 1
  {
    if Equal(s, t) {
    } else if s.Array? && t.Array? {
      var common := if |s.elems| < |t.elems| then |s.elems| else |t.elems|;
      DiffElemsIsLocal(s, t, 0, common);
      RemovedIsLocal(common, |s.elems|);
      AddedIsLocal(t.elems, common);
    } else if s.Object? && t.Object? {
      DiffMembersIsLocal(s, t, SortedKeys(s.members.Keys));
      AddedMembersIsLocal(s.members, t.members, SortedKeys(t.members.Keys));
    }
  }

  lemma {:induction false} DiffElemsIsLocal(s: Json, t: Json, i: nat, n: nat)
    requires s.Array? && t.Array? && i <= n <= |s.elems| && n <= |t.elems|
    ensures AllLocal(DiffElems(s, t, i, n))
    decreases s, 0, n - i
  {
    if i < n {
      DiffIsLocal(s.elems[i], t.elems[i]);
      DiffElemsIsLocal(s, t, i + 1, n);
    }
  }

  lemma {:induction false} RemovedIsLocal(i: nat, n: nat)
    ensures AllLocal(RemovedElems(i, n))
    decreases n - i
  {
    if i < n { RemovedIsLocal(i + 1, n); }
  }

  lemma {:induction false} AddedIsLocal(b: seq<Json>, i: nat)
    requires i <= |b|
    ensures AllLocal(AddedElems(b, i))
    decreases |b| - i
  {
    if i < |b| { AddedIsLocal(b, i + 1); }
  }

  lemma {:induction false} DiffMembersIsLocal(s: Json, t: Json, keys: seq<Str>)
    requires s.Object? && t.Object? && forall k :: k in keys ==> k in s.members
    ensures AllLocal(DiffMembers(s, t, keys))
    decreases s, 0, |keys|
  {
    if keys != [] {
      if keys[0] in t.members { DiffIsLocal(s.members[keys[0]], t.members[keys[0]]); }
      DiffMembersIsLocal(s, t, keys[1..]);
    }
  }

  lemma {:induction false} AddedMembersIsLocal(m: map<Str, Json>, n: map<Str, Json>, keys: seq<Str>)
    requires forall k :: k in keys ==> k in n
    ensures AllLocal(AddedMembers(m, n, keys))
    decreases |keys|
  {
    if keys != [] { AddedMembersIsLocal(m, n, keys[1..]); }
  }

  // ---------- applying a diff yields the target ----------

  /** x stands for target t: equal to it, unless t holds a NaN and is equal to nothing. */
  ghost predicate Reached(x: Json, t: Json) {
    NanFree(t) ==> Equal(x, t)
  }

  lemma {:induction false} DiffReaches(s: Json, t: Json)
    requires IndicesFit(s) && IndicesFit(t)
    ensures ApplyAll(s, DiffOps(s, t)).Ok?
    ensures Reached(ApplyAll(s, DiffOps(s, t)).value, t)
    decreases s, 1
  {
    if Equal(s, t) {
    } else if s.Array? && t.Array? {
      ArrayDiffReaches(s, t);
    } else if s.Object? && t.Object? {
      ObjectDiffReaches(s, t);
    } else {
      ApplyOne(s, Replace([], t));
      EqualReflexive(t);
    }
  }

  lemma {:induction false} ArrayDiffReaches(s: Json, t: Json)
    requires IndicesFit(s) && IndicesFit(t) && s.Array? && t.Array? && !Equal(s, t)
    ensures ApplyAll(s, DiffOps(s, t)).Ok?
    ensures Reached(ApplyAll(s, DiffOps(s, t)).value, t)
    decreases s, 0, |s.elems| + 1
  {
    var (a, b) := (s.elems, t.elems);
    var common := if |a| < |b| then |a| else |b|;
    var x := ElemsReach(s, t, 0, common, a);
    var (first, second, third) := (DiffElems(s, t, 0, common), RemovedElems(common, |a|), AddedElems(b, common));
    ApplyAllConcat(s, first, second);
    RemovalsTruncate(x, common);
    ApplyAllConcat(s, first + second, third);
    AdditionsAppend(x[..common], b, common);
    var y := x[..common] + b[common..];
    assert ApplyAll(s, DiffOps(s, t)) == Ok(Array(y));
    AllElemsReached(x, y, t, common);
  }

  lemma AllElemsReached(x: seq<Json>, y: seq<Json>, t: Json, common: nat)
    requires t.Array? && common <= |x| && common <= |t.elems| && y == x[..common] + t.elems[common..]
    requires forall k :: 0 <= k < common ==> Reached(x[k], t.elems[k])
    ensures Reached(Array(y), t)
  {
    if NanFree(t) {
      forall i | 0 <= i < |y| ensures Equal(y[i], t.elems[i]) {
        if i < common { assert y[i] == x[i] && Reached(x[i], t.elems[i]); } else { EqualReflexive(t.elems[i]); }
      }
    }
  }

  /** First pass: the common elements are diffed in place, one after the other. */
  lemma {:induction false} ElemsReach(s: Json, t: Json, i: nat, n: nat, x: seq<Json>) returns (y: seq<Json>)
    requires IndicesFit(s) && IndicesFit(t) && s.Array? && t.Array? && i <= n <= |s.elems| && n <= |t.elems|
    requires |x| == |s.elems| && forall k :: i <= k < n ==> x[k] == s.elems[k]
    ensures |y| == |x| && ApplyAll(Array(x), DiffElems(s, t, i, n)) == Ok(Array(y))
    ensures forall k :: 0 <= k < i || n <= k < |y| ==> y[k] == x[k]
    ensures forall k :: i <= k < n ==> Reached(y[k], t.elems[k])
    decreases s, 0, n - i
  {
    if i == n {
      y := x;
    } else {
      var ops := DiffOps(s.elems[i], t.elems[i]);
      DiffReaches(s.elems[i], t.elems[i]);
      DiffIsLocal(s.elems[i], t.elems[i]);
      IndexToken(i, |x|);
      ApplyAllUnder(Array(x), Decimal(i), ops);
      var x' := x[i := ApplyAll(x[i], ops).value];
      ApplyAllConcat(Array(x), Under(Decimal(i), ops), DiffElems(s, t, i + 1, n));
      y := ElemsReach(s, t, i + 1, n, x');
    }
  }

  /** Second pass: removing from the back leaves the common prefix. */
  lemma {:induction false} RemovalsTruncate(x: seq<Json>, i: nat)
    requires i <= |x| <= INT_MAX + 1
    ensures ApplyAll(Array(x), RemovedElems(i, |x|)) == Ok(Array(x[..i]))
    decreases |x| - i
  {
    if i == |x| {
      assert x[..i] == x;
    } else {
      RemovalsTruncate(x, i + 1);
      var op := Remove([Decimal(i)]);
      ApplyAllConcat(Array(x), RemovedElems(i + 1, |x|), [op]);
      ApplyOne(Array(x[..i + 1]), op);
      RemoveLast(x, i);
    }
  }

  lemma RemoveLast(x: seq<Json>, i: nat)
    requires i < |x| && i <= INT_MAX
    ensures Apply(Array(x[..i + 1]), Remove([Decimal(i)])) == Ok(Array(x[..i]))
  {
    var a := x[..i + 1];
    IndexToken(i, |a|);
    assert a[..i] + a[i + 1..] == x[..i];
    OperationAtTop(Array(a), Decimal(i), Null);
  }

  lemma {:induction false} AdditionsAppend(x: seq<Json>, b: seq<Json>, i: nat)
    requires i == |x| <= |b| <= INT_MAX + 1
    ensures ApplyAll(Array(x), AddedElems(b, i)) == Ok(Array(x + b[i..]))
    decreases |b| - i
  {
    if i == |b| {
      assert x + b[i..] == x;
    } else {
      AddLast(x, b[i]);
      AdditionsAppend(x + [b[i]], b, i + 1);
      MoveOne(x, b, i);
      ApplyFirst(Array(x), Add([Decimal(i)], b[i]), AddedElems(b, i + 1));
    }
  }

  lemma AddLast(x: seq<Json>, v: Json)
    requires |x| <= INT_MAX
    ensures Apply(Array(x), Add([Decimal(|x|)], v)) == Ok(Array(x + [v]))
  {
    OperationAtTop(Array(x), Decimal(|x|), v);
    IndexToken(|x|, |x|);
    InsertAtEnd(x, Decimal(|x|), v);
  }

  lemma InsertAtEnd(x: seq<Json>, token: Str, v: Json)
    requires Stoi(token) == Ok(|x|) && token != [MINUS]
    ensures AddChild(Array(x), token, v) == Ok(Array(x + [v]))
  {
    assert x[..|x|] + [v] + x[|x|..] == x + [v];
  }

  lemma {:induction false} ObjectDiffReaches(s: Json, t: Json)
    requires IndicesFit(s) && IndicesFit(t) && s.Object? && t.Object? && !Equal(s, t)
    ensures ApplyAll(s, DiffOps(s, t)).Ok?
    ensures Reached(ApplyAll(s, DiffOps(s, t)).value, t)
    decreases s, 0, |s.members| + 1
  {
    var (ks, kt) := (SortedKeys(s.members.Keys), SortedKeys(t.members.Keys));
    SortedKeysDistinct(s.members.Keys);
    var x := MembersReach(s, t, ks, s.members);
    ApplyAllConcat(s, DiffMembers(s, t, ks), AddedMembers(s.members, t.members, kt));
    var y := AdditionsInsert(s.members, t.members, kt, x);
    AllMembersReached(s.members, x, y, t);
  }

  lemma AllMembersReached(m: map<Str, Json>, x: map<Str, Json>, y: map<Str, Json>, t: Json)
    requires t.Object?
    requires forall k :: k in x ==> k in m
    requires forall k :: k in m ==> (k in x <==> k in t.members) && (k in x ==> Reached(x[k], t.members[k]))
    requires forall k :: k in y <==> k in x || (k in t.members && k !in m)
    requires forall k :: k in y ==> y[k] == if k in t.members && k !in m then t.members[k] else x[k]
    ensures Reached(Object(y), t)
  {
    if NanFree(t) {
      forall k | k in y ensures k in t.members && Equal(y[k], t.members[k]) {
        EqualReflexive(t.members[k]);
      }
    }
  }

  /** First pass: each key of the source is diffed or removed; operations on other keys do not disturb it. */
  lemma {:induction false} MembersReach(s: Json, t: Json, keys: seq<Str>, x: map<Str, Json>) returns (y: map<Str, Json>)
    requires IndicesFit(s) && IndicesFit(t) && s.Object? && t.Object?
    requires forall k :: k in keys ==> k in s.members && k in x && x[k] == s.members[k]
    requires forall p, q :: 0 <= p < q < |keys| ==> keys[p] != keys[q]
    ensures ApplyAll(Object(x), DiffMembers(s, t, keys)) == Ok(Object(y))
    ensures forall k :: k !in keys ==> (k in y <==> k in x) && (k in x ==> y[k] == x[k])
    ensures forall k :: k in keys ==> (k in y <==> k in t.members) && (k in y ==> Reached(y[k], t.members[k]))
    decreases s, 0, |keys|
  {
    if keys == [] {
      y := x;
    } else {
      var k := keys[0];
      var ops := if k in t.members then Under(k, DiffOps(s.members[k], t.members[k])) else [Remove([k])];
      var x': map<Str, Json>;
      if k in t.members {
        DiffReaches(s.members[k], t.members[k]);
        DiffIsLocal(s.members[k], t.members[k]);
        ApplyAllUnder(Object(x), k, DiffOps(s.members[k], t.members[k]));
        x' := x[k := ApplyAll(x[k], DiffOps(s.members[k], t.members[k])).value];
      } else {
        ApplyOne(Object(x), Remove([k]));
        OperationAtTop(Object(x), k, Null);
        x' := x - {k};
      }
      assert ApplyAll(Object(x), ops) == Ok(Object(x'));
      ApplyAllConcat(Object(x), ops, DiffMembers(s, t, keys[1..]));
      y := MembersReach(s, t, keys[1..], x');
    }
  }

  /** Second pass: the keys only the target has are added. */
  lemma {:induction false} AdditionsInsert(m: map<Str, Json>, n: map<Str, Json>, keys: seq<Str>, x: map<Str, Json>)
    returns (y: map<Str, Json>)
    requires forall k :: k in keys ==> k in n
    ensures ApplyAll(Object(x), AddedMembers(m, n, keys)) == Ok(Object(y))
    ensures forall k :: k in y <==> k in x || (k in keys && k !in m)
    ensures forall k :: k in y ==> y[k] == if k in keys && k !in m then n[k] else x[k]
    decreases |keys|
  {
    if keys == [] {
      y := x;
    } else if keys[0] in m {
      y := AdditionsInsert(m, n, keys[1..], x);
      assert [] + AddedMembers(m, n, keys[1..]) == AddedMembers(m, n, keys[1..]);
    } else {
      var (k, v) := (keys[0], n[keys[0]]);
      OperationAtTop(Object(x), k, v);
      var ops := AddedMembers(m, n, keys);
      assert ops[1..] == AddedMembers(m, n, keys[1..]);
      y := AdditionsInsert(m, n, keys[1..], x[k := v]);
    }
  }

  // ---------- the patch document ----------

  function Document(prefix: Str, ops: seq<Op>): (doc: seq<Json>)
    requires AllLocal(ops)
    ensures |doc| == |ops|
  {
    seq(|ops|, i requires 0 <= i < |ops| => Rendered(prefix, ops[i]))
  }

  /** Extending the prefix of a nested diff is the same as deepening its operations. */
  lemma DocumentUnder(prefix: Str, token: Str, ops: seq<Op>)
    requires AllLocal(ops)
    ensures AllLocal(Under(token, ops))
    ensures Document(prefix + [SLASH] + Escaped(token), ops) == Document(prefix, Under(token, ops))
  {
    forall i | 0 <= i < |ops|
      ensures Rendered(prefix + [SLASH] + Escaped(token), ops[i]) == Rendered(prefix, Under(token, ops)[i])
    {
      PathCons(token, ops[i].path);
      assert prefix + [SLASH] + Escaped(token) + Path(ops[i].path) == prefix + Path([token] + ops[i].path);
    }
  }

  lemma DocumentConcat(prefix: Str, a: seq<Op>, b: seq<Op>)
    requires AllLocal(a) && AllLocal(b)
    ensures Document(prefix, a + b) == Document(prefix, a) + Document(prefix, b)
  {
    hide Rendered, Local;
    assert forall i :: 0 <= i < |a| ==> (a + b)[i] == a[i];
    assert forall i :: 0 <= i < |b| ==> (a + b)[|a| + i] == b[i];
  }

  lemma RenderedTop(prefix: Str, token: Str)
    ensures prefix + [SLASH] + Escaped(token) == prefix + Path([token])
  {
    assert [token][1..] == [] && Path([token]) == [SLASH] + Escaped(token) + Path([]);
    assert prefix + [SLASH] + Escaped(token) == prefix + ([SLASH] + Escaped(token) + []);
  }

  lemma {:induction false} RemovedElemsSnoc(i: nat, n: nat)
    requires i <= n
    ensures RemovedElems(i, n + 1) == [Remove([Decimal(n)])] + RemovedElems(i, n)
    decreases n - i
  {
    if i < n {
      RemovedElemsSnoc(i + 1, n);
    } else {
      assert RemovedElems(n + 1, n + 1) == [];
    }
  }

  // ---------- what one round of each loop contributes ----------

  lemma ElemsDocument(path: Str, s: Json, t: Json, i: nat, n: nat)
    requires s.Array? && t.Array? && i < n <= |s.elems| && n <= |t.elems|
    ensures AllLocal(DiffElems(s, t, i, n)) && AllLocal(DiffElems(s, t, i + 1, n))
    ensures AllLocal(DiffOps(s.elems[i], t.elems[i]))
    ensures Document(path, DiffElems(s, t, i, n)) ==
      Document(path + [SLASH] + Decimal(i), DiffOps(s.elems[i], t.elems[i])) + Document(path, DiffElems(s, t, i + 1, n))
  {
    var ops := DiffOps(s.elems[i], t.elems[i]);
    DigitsNeedNoEscape(Decimal(i));
    DiffIsLocal(s.elems[i], t.elems[i]);
    DiffElemsIsLocal(s, t, i + 1, n);
    DiffElemsIsLocal(s, t, i, n);
    DocumentUnder(path, Decimal(i), ops);
    DocumentConcat(path, Under(Decimal(i), ops), DiffElems(s, t, i + 1, n));
  }

  lemma RemovalDocument(path: Str, i: nat, n: nat)
    requires i <= n
    ensures AllLocal(RemovedElems(i, n)) && AllLocal(RemovedElems(i, n + 1))
    ensures Document(path, RemovedElems(i, n + 1)) ==
      [RemoveObject(path + [SLASH] + Decimal(n))] + Document(path, RemovedElems(i, n))
  {
    RemovedElemsSnoc(i, n);
    RemovedIsLocal(i, n);
    RemovedIsLocal(i, n + 1);
    DigitsNeedNoEscape(Decimal(n));
    RenderedTop(path, Decimal(n));
    DocumentConcat(path, [Remove([Decimal(n)])], RemovedElems(i, n));
  }

  lemma AdditionDocument(path: Str, b: seq<Json>, i: nat)
    requires i < |b|
    ensures AllLocal(AddedElems(b, i)) && AllLocal(AddedElems(b, i + 1))
    ensures Document(path, AddedElems(b, i)) ==
      [AddObject(path + [SLASH] + Decimal(i), b[i])] + Document(path, AddedElems(b, i + 1))
  {
    AddedIsLocal(b, i);
    AddedIsLocal(b, i + 1);
    DigitsNeedNoEscape(Decimal(i));
    RenderedTop(path, Decimal(i));
    DocumentConcat(path, [Add([Decimal(i)], b[i])], AddedElems(b, i + 1));
  }

  lemma MemberDocument(path: Str, s: Json, t: Json, k: Str)
    requires s.Object? && t.Object? && k in s.members
    ensures AllLocal(MemberOps(s, t, k))
    ensures k in t.members ==> AllLocal(DiffOps(s.members[k], t.members[k]))
    ensures k in t.members ==>
      Document(path, MemberOps(s, t, k)) == Document(path + [SLASH] + Escaped(k), DiffOps(s.members[k], t.members[k]))
    ensures k !in t.members ==> Document(path, MemberOps(s, t, k)) == [RemoveObject(path + [SLASH] + Escaped(k))]
  {
    if k in t.members {
      DiffIsLocal(s.members[k], t.members[k]);
      DocumentUnder(path, k, DiffOps(s.members[k], t.members[k]));
    } else {
      RenderedTop(path, k);
    }
  }

  lemma MembersDocument(path: Str, s: Json, t: Json, keys: seq<Str>)
    requires s.Object? && t.Object? && keys != [] && forall k :: k in keys ==> k in s.members
    ensures AllLocal(MemberOps(s, t, keys[0]))
    ensures AllLocal(DiffMembers(s, t, keys)) && AllLocal(DiffMembers(s, t, keys[1..]))
    ensures Document(path, DiffMembers(s, t, keys)) ==
      Document(path, MemberOps(s, t, keys[0])) + Document(path, DiffMembers(s, t, keys[1..]))
  {
    DiffMembersIsLocal(s, t, keys);
    DiffMembersIsLocal(s, t, keys[1..]);
    MemberDocument(path, s, t, keys[0]);
    DocumentConcat(path, MemberOps(s, t, keys[0]), DiffMembers(s, t, keys[1..]));
  }

  lemma NewMemberDocument(path: Str, m: map<Str, Json>, n: map<Str, Json>, k: Str)
    requires k in n
    ensures AllLocal(NewMemberOps(m, n, k))
    ensures Document(path, NewMemberOps(m, n, k)) == if k in m then [] else [AddObject(path + [SLASH] + Escaped(k), n[k])]
  {
    if k !in m { RenderedTop(path, k); }
  }

  lemma NewMembersDocument(path: Str, m: map<Str, Json>, n: map<Str, Json>, keys: seq<Str>)
    requires keys != [] && forall k :: k in keys ==> k in n
    ensures AllLocal(NewMemberOps(m, n, keys[0]))
    ensures AllLocal(AddedMembers(m, n, keys)) && AllLocal(AddedMembers(m, n, keys[1..]))
    ensures Document(path, AddedMembers(m, n, keys)) ==
      Document(path, NewMemberOps(m, n, keys[0])) + Document(path, AddedMembers(m, n, keys[1..]))
  {
    AddedMembersIsLocal(m, n, keys);
    AddedMembersIsLocal(m, n, keys[1..]);
    NewMemberDocument(path, m, n, keys[0]);
    DocumentConcat(path, NewMemberOps(m, n, keys[0]), AddedMembers(m, n, keys[1..]));
  }

  /** diff(source, target, path): the elements of the patch array. */
  method Diff(s: Json, t: Json, path: Str) returns (result: seq<Json>)
    ensures AllLocal(DiffOps(s, t)) && result == Document(path, DiffOps(s, t))
    decreases s, 2
  {
    DiffIsLocal(s, t);
    result := [];
    if Equal(s, t) { return; }
    assert path + Path([]) == path;
    if !SameType(s, t) {
      result := result + [ReplaceObject(path, t)];
    } else if s.Array? {
      result := DiffArrays(s, t, path);
    } else if s.Object? {
      result := DiffObjects(s, t, path);
    } else {
      result := result + [ReplaceObject(path, t)];
    }
  }

  method DiffArrays(s: Json, t: Json, path: Str) returns (result: seq<Json>)
    requires s.Array? && t.Array? && !Equal(s, t)
    ensures AllLocal(DiffOps(s, t)) && result == Document(path, DiffOps(s, t))
    decreases s, 1
  {
    DiffIsLocal(s, t);
    ghost var common := if |s.elems| < |t.elems| then |s.elems| else |t.elems|;
    ghost var (first, second, third) :=
      (DiffElems(s, t, 0, common), RemovedElems(common, |s.elems|), AddedElems(t.elems, common));
    DiffElemsIsLocal(s, t, 0, common);
    RemovedIsLocal(common, |s.elems|);
    AddedIsLocal(t.elems, common);
    var i;
    i, result := DiffCommonElems(s, t, path);
    result := AppendRemovals(result, path, i, |s.elems|);
    result := AppendAdditions(result, path, i, t.elems);
    DocumentConcat(path, first, second);
    DocumentConcat(path, first + second, third);
  }

  /** First pass: traverse the common elements. */
  method DiffCommonElems(s: Json, t: Json, path: Str) returns (i: nat, result: seq<Json>)
    requires s.Array? && t.Array?
    ensures i == if |s.elems| < |t.elems| then |s.elems| else |t.elems|
    ensures AllLocal(DiffElems(s, t, 0, i)) && result == Document(path, DiffElems(s, t, 0, i))
    decreases s, 0
  {
    hide DiffOps, Document;
    ghost var n := if |s.elems| < |t.elems| then |s.elems| else |t.elems|;
    DiffElemsIsLocal(s, t, 0, n);
    ghost var whole := Document(path, DiffElems(s, t, 0, n));
    i, result := 0, [];
    while i < |s.elems| && i < |t.elems|
      invariant i <= n
      invariant AllLocal(DiffElems(s, t, i, n)) && result + Document(path, DiffElems(s, t, i, n)) == whole
    {
      ElemsDocument(path, s, t, i, n);
      ghost var rest := Document(path, DiffElems(s, t, i + 1, n));
      var nested := Diff(s.elems[i], t.elems[i], path + [SLASH] + Decimal(i));
      Reassociate(result, nested, rest);
      result := result + nested;
      i := i + 1;
    }
  }

  /** Second pass: each removal is inserted in front of the earlier ones. */
  method AppendRemovals(prior: seq<Json>, path: Str, start: nat, size: nat) returns (result: seq<Json>)
    requires start <= size
    ensures AllLocal(RemovedElems(start, size)) && result == prior + Document(path, RemovedElems(start, size))
  {
    result := prior;
    var endIndex := |result|;
    var i := start;
    while i < size
      invariant start <= i <= size && endIndex <= |result|
      invariant AllLocal(RemovedElems(start, i))
      invariant result[..endIndex] == prior && result[endIndex..] == Document(path, RemovedElems(start, i))
    {
      RemovalDocument(path, start, i);
      result := result[..endIndex] + [RemoveObject(path + [SLASH] + Decimal(i))] + result[endIndex..];
      i := i + 1;
    }
    assert result == result[..endIndex] + result[endIndex..];
  }

  method AppendAdditions(prior: seq<Json>, path: Str, start: nat, b: seq<Json>) returns (result: seq<Json>)
    requires start <= |b|
    ensures AllLocal(AddedElems(b, start)) && result == prior + Document(path, AddedElems(b, start))
  {
    result := prior;
    AddedIsLocal(b, start);
    ghost var whole := prior + Document(path, AddedElems(b, start));
    var i := start;
    while i < |b|
      invariant start <= i <= |b|
      invariant AllLocal(AddedElems(b, i)) && result + Document(path, AddedElems(b, i)) == whole
    {
      AdditionDocument(path, b, i);
      var operation := AddObject(path + [SLASH] + Decimal(i), b[i]);
      Reassociate(result, [operation], Document(path, AddedElems(b, i + 1)));
      result := result + [operation];
      i := i + 1;
    }
  }

  method DiffObjects(s: Json, t: Json, path: Str) returns (result: seq<Json>)
    requires s.Object? && t.Object? && !Equal(s, t)
    ensures AllLocal(DiffOps(s, t)) && result == Document(path, DiffOps(s, t))
    decreases s, 1
  {
    DiffIsLocal(s, t);
    ghost var (ks, kt) := (SortedKeys(s.members.Keys), SortedKeys(t.members.Keys));
    result := DiffSourceMembers(s, t, SortedKeys(s.members.Keys), path);
    result := AppendNewMembers(result, path, s.members, t.members, SortedKeys(t.members.Keys));
    DocumentConcat(path, DiffMembers(s, t, ks), AddedMembers(s.members, t.members, kt));
  }

  /** First pass: traverse the keys of the source. */
  method DiffSourceMembers(s: Json, t: Json, ks: seq<Str>, path: Str) returns (result: seq<Json>)
    requires s.Object? && t.Object? && forall k :: k in ks ==> k in s.members
    ensures AllLocal(DiffMembers(s, t, ks)) && result == Document(path, DiffMembers(s, t, ks))
    decreases s, 0
  {
    result := [];
    DiffMembersIsLocal(s, t, ks);
    ghost var whole := Document(path, DiffMembers(s, t, ks));
    assert ks[0..] == ks;
    for i := 0 to |ks|
      invariant AllLocal(DiffMembers(s, t, ks[i..])) && result + Document(path, DiffMembers(s, t, ks[i..])) == whole
    {
      var k := ks[i];
      assert ks[i..][0] == k && ks[i..][1..] == ks[i + 1..];
      MembersDocument(path, s, t, ks[i..]);
      MemberDocument(path, s, t, k);
      ghost var rest := Document(path, DiffMembers(s, t, ks[i + 1..]));
      var key := Escape(k);
      var nested := [RemoveObject(path + [SLASH] + key)];
      if k in t.members {
        nested := Diff(s.members[k], t.members[k], path + [SLASH] + key);
      }
      Reassociate(result, nested, rest);
      result := result + nested;
    }
  }

  /** Second pass: traverse the keys of the target. */
  method AppendNewMembers(prior: seq<Json>, path: Str, m: map<Str, Json>, n: map<Str, Json>, ks: seq<Str>)
    returns (result: seq<Json>)
    requires forall k :: k in ks ==> k in n
    ensures AllLocal(AddedMembers(m, n, ks)) && result == prior + Document(path, AddedMembers(m, n, ks))
  {
    result := prior;
    AddedMembersIsLocal(m, n, ks);
    ghost var whole := prior + Document(path, AddedMembers(m, n, ks));
    assert ks[0..] == ks;
    for i := 0 to |ks|
      invariant AllLocal(AddedMembers(m, n, ks[i..])) && result + Document(path, AddedMembers(m, n, ks[i..])) == whole
    {
      var k := ks[i];
      assert ks[i..][0] == k && ks[i..][1..] == ks[i + 1..];
      NewMembersDocument(path, m, n, ks[i..]);
      NewMemberDocument(path, m, n, k);
      ghost var rest := Document(path, AddedMembers(m, n, ks[i + 1..]));
      Reassociate(result, Document(path, NewMemberOps(m, n, k)), rest);
      if k !in m {
        var key := Escape(k);
        result := result + [AddObject(path + [SLASH] + key, n[k])];
      } else {
        assert result + [] == result;
      }
    }
  }

  // ---------- reading the document back ----------

  lemma NamesDiffer()
    ensures OP != PATH && OP != VALUE && PATH != VALUE
    ensures Ascii("add") != Ascii("remove") && Ascii("add") != Ascii("replace") && Ascii("remove") != Ascii("replace")
  {
    assert |OP| == 2 && |PATH| == 4 && |VALUE| == 5;
    assert |Ascii("add")| == 3 && |Ascii("remove")| == 6 && |Ascii("replace")| == 7;
  }

  lemma ReadRendered(op: Op)
    requires Local(op)
    ensures ReadOp(Rendered([], op)) == Ok(op)
  {
    NamesDiffer();
    assert [] + Path(op.path) == Path(op.path);
    SplitPath(op.path);
  }

  lemma {:induction false} ApplyDocumentIsApplyAll(j: Json, ops: seq<Op>)
    requires AllLocal(ops)
    ensures ApplyDocument(j, Document([], ops)) == ApplyAll(j, ops)
    decreases |ops|
  {
    if ops != [] {
      ReadRendered(ops[0]);
      assert Document([], ops)[1..] == Document([], ops[1..]);
      if Apply(j, ops[0]).Ok? { ApplyDocumentIsApplyAll(Apply(j, ops[0]).value, ops[1..]); }
    }
  }

  /**
    The documented invariant. Patching with the diff never throws, and the result equals the target
    exactly when the target equals itself, that is, when no NaN occurs in it.
  */
  lemma PatchInvertsDiff(source: Json, target: Json)
    requires IndicesFit(source) && IndicesFit(target)
    ensures AllLocal(DiffOps(source, target))
    ensures var r := ApplyDocument(source, Document([], DiffOps(source, target)));
      r.Ok? && (Equal(r.value, target) <==> NanFree(target))
  {
    DiffIsLocal(source, target);
    ApplyDocumentIsApplyAll(source, DiffOps(source, target));
    DiffReaches(source, target);
    var r := ApplyAll(source, DiffOps(source, target)).value;
    if Equal(r, target) { EqualNeedsNoNan(r, target); }
  }

  method PatchWithDiff(source: Json, target: Json) returns (r: Result<Json>)
    requires IndicesFit(source) && IndicesFit(target)
    ensures r.Ok? && (Equal(r.value, target) <==> NanFree(target))
  {
    PatchInvertsDiff(source, target);
    var doc := Diff(source, target, []);
    r := Patch(source, Array(doc));
  }

  /** A NaN in the target: the patch applies, but no value equals the target. */
  lemma NanIsNeverReached()
    ensures var (source, target) := (Null, Float(QUIET_NAN));
      var ops := DiffOps(source, target);
      AllLocal(ops) && ApplyDocument(source, Document([], ops)).Ok?
      && !Equal(ApplyDocument(source, Document([], ops)).value, target)
  {
    PatchInvertsDiff(Null, Float(QUIET_NAN));
  }
}
