/** Why unflatten restores a flattened value, and the exact condition under which it does. */
module JsonUnflatten {
  import opened Bytes
  import opened Decimals
  import opened JsonFlatten
  import opened JsonPointers
  import opened JsonPointerText
  import opened Jsons
  import opened Wrappers

  // ---------- the flattened object holds one entry per leaf ----------

  lemma SamePrefix(prefix: Str, a: Str, b: Str)
    requires prefix + a == prefix + b
    ensures a == b
  {
    assert (prefix + a)[|prefix|..] == a && (prefix + b)[|prefix|..] == b;
  }

  lemma DistinctPlaces(prefix: Str, k: Str, ts: seq<Str>, k': Str, ts': seq<Str>)
    requires prefix + Path([k] + ts) == prefix + Path([k'] + ts')
    ensures k == k'
  {
    SamePrefix(prefix, Path([k] + ts), Path([k'] + ts'));
    PathInjective([k] + ts, [k'] + ts');
    assert ([k] + ts)[0] == ([k'] + ts')[0];
  }

  /** Every key of the flattened object is the text of the place of a leaf. */
  lemma {:induction false} StoredIsLeaf(prefix: Str, j: Json, s: Str) returns (ts: seq<Str>)
    requires s in Flat(prefix, j)
    ensures Leaf(j, ts).Some? && s == prefix + Path(ts)
    decreases j, 1
  {
    if j.Array? && j.elems != [] {
      var i, rest := StoredElemIsLeaf(prefix, j, 0, s);
      BelowIndex(j.elems, i);
      ts := [Decimal(i)] + rest;
      assert ts[1..] == rest;
    } else if j.Object? && j.members != map[] {
      var k, rest := StoredMemberIsLeaf(prefix, j, SortedKeys(j.members.Keys), s);
      ts := [k] + rest;
      assert ts[1..] == rest;
    } else {
      ts := [];
      assert prefix + Path([]) == prefix;
    }
  }

  lemma {:induction false} StoredElemIsLeaf(prefix: Str, j: Json, from: nat, s: Str) returns (i: nat, ts: seq<Str>)
    requires j.Array? && from <= |j.elems| && s in FlatElems(prefix, j, from)
    ensures from <= i < |j.elems| && Leaf(j.elems[i], ts).Some? && s == prefix + Path([Decimal(i)] + ts)
    decreases j, 0, |j.elems| - from
  {
    if s in FlatElems(prefix, j, from + 1) {
      i, ts := StoredElemIsLeaf(prefix, j, from + 1, s);
    } else {
      i := from;
      ts := StoredIsLeaf(prefix + [SLASH] + Decimal(i), j.elems[i], s);
      DigitsNeedNoEscape(Decimal(i));
      PathBehind(prefix, Decimal(i), ts);
    }
  }

  lemma {:induction false} StoredMemberIsLeaf(prefix: Str, j: Json, keys: seq<Str>, s: Str) returns (k: Str, ts: seq<Str>)
    requires j.Object? && (forall k :: k in keys ==> k in j.members) && s in FlatMembers(prefix, j, keys)
    ensures k in keys && Leaf(j.members[k], ts).Some? && s == prefix + Path([k] + ts)
    decreases j, 0, |keys|
  {
    if s in FlatMembers(prefix, j, keys[1..]) {
      k, ts := StoredMemberIsLeaf(prefix, j, keys[1..], s);
    } else {
      k := keys[0];
      ts := StoredIsLeaf(prefix + [SLASH] + Escaped(k), j.members[k], s);
      PathBehind(prefix, k, ts);
    }
  }

  /** Every leaf is stored under the text of its place. */
  lemma {:induction false} LeafIsStored(prefix: Str, j: Json, ts: seq<Str>)
    requires Leaf(j, ts).Some?
    ensures prefix + Path(ts) in Flat(prefix, j) && Flat(prefix, j)[prefix + Path(ts)] == Leaf(j, ts).value
    decreases j, 1
  {
    if j.Array? && j.elems != [] {
      var i := IndexOf(ts[0], |j.elems|);
      assert ts == [Decimal(i)] + ts[1..];
      ElemLeafIsStored(prefix, j, 0, i, ts[1..]);
    } else if j.Object? && j.members != map[] {
      SortedKeysDistinct(j.members.Keys);
      assert ts == [ts[0]] + ts[1..];
      MemberLeafIsStored(prefix, j, SortedKeys(j.members.Keys), ts[0], ts[1..]);
    } else {
      assert prefix + Path([]) == prefix;
    }
  }

  lemma {:induction false} ElemLeafIsStored(prefix: Str, j: Json, from: nat, i: nat, ts: seq<Str>)
    requires j.Array? && from <= i < |j.elems| && Leaf(j.elems[i], ts).Some?
    ensures var s := prefix + Path([Decimal(i)] + ts);
      s in FlatElems(prefix, j, from) && FlatElems(prefix, j, from)[s] == Leaf(j.elems[i], ts).value
    decreases j, 0, |j.elems| - from
  {
    if from < i {
      ElemLeafIsStored(prefix, j, from + 1, i, ts);
    } else {
      var s := prefix + Path([Decimal(i)] + ts);
      LeafIsStored(prefix + [SLASH] + Decimal(i), j.elems[i], ts);
      DigitsNeedNoEscape(Decimal(i));
      PathBehind(prefix, Decimal(i), ts);
      if s in FlatElems(prefix, j, from + 1) {
        var i', ts' := StoredElemIsLeaf(prefix, j, from + 1, s);
        DistinctPlaces(prefix, Decimal(i), ts, Decimal(i'), ts');
        DecimalInjective(i, i');
      }
    }
  }

  lemma {:induction false} MemberLeafIsStored(prefix: Str, j: Json, keys: seq<Str>, k: Str, ts: seq<Str>)
    requires j.Object? && (forall q :: q in keys ==> q in j.members) && k in keys && Leaf(j.members[k], ts).Some?
    requires forall p, q :: 0 <= p < q < |keys| ==> keys[p] != keys[q]
    ensures var s := prefix + Path([k] + ts);
      s in FlatMembers(prefix, j, keys) && FlatMembers(prefix, j, keys)[s] == Leaf(j.members[k], ts).value
    decreases j, 0, |keys|
  {
    if keys[0] != k {
      MemberLeafIsStored(prefix, j, keys[1..], k, ts);
    } else {
      var s := prefix + Path([k] + ts);
      LeafIsStored(prefix + [SLASH] + Escaped(k), j.members[k], ts);
      PathBehind(prefix, k, ts);
      if s in FlatMembers(prefix, j, keys[1..]) {
        var k', ts' := StoredMemberIsLeaf(prefix, j, keys[1..], s);
        DistinctPlaces(prefix, k, ts, k', ts');
      }
    }
  }

  // ---------- the order in which leaves are visited ----------

  /** Leaf a is visited before leaf b. */
  predicate Before(a: seq<Str>, b: seq<Str>) { Less(Path(a), Path(b)) }

  lemma BeforeBelow(k: Str, a: seq<Str>, b: seq<Str>)
    ensures Before([k] + a, [k] + b) == Before(a, b)
  {
    PathCons(k, a);
    PathCons(k, b);
    LessAfterPrefix([SLASH] + Escaped(k), Path(a), Path(b));
  }

  /**
    The keys that are visited before key "0": the empty key, those whose first byte sorts before '/', and, when
    the value of "0" is itself a container, those that continue "0" with a byte that sorts before '/'.
  */
  predicate PrecedesZero(k: Str, zero: Json) {
    k == [] || k[0] < SLASH || (IsNode(zero) && |k| > 1 && k[0] == ZERO && k[1] < SLASH)
  }

  lemma PathStarts(ts: seq<Str>)
    ensures ts != [] ==> Path(ts) != [] && Path(ts)[0] == SLASH
  {
  }

  lemma LessByFirst(c: byte, a: Str, d: byte, b: Str)
    ensures Less([c] + a, [d] + b) == (c < d || (c == d && Less(a, b)))
  {
    assert ([c] + a)[1..] == a && ([d] + b)[1..] == b;
  }

  lemma BeforeByToken(k: Str, a: seq<Str>, k': Str, b: seq<Str>)
    ensures Before([k] + a, [k'] + b) == Less(Escaped(k) + Path(a), Escaped(k') + Path(b))
  {
    PathCons(k, a);
    PathCons(k', b);
    Reassociate([SLASH], Escaped(k), Path(a));
    Reassociate([SLASH], Escaped(k'), Path(b));
    LessByFirst(SLASH, Escaped(k) + Path(a), SLASH, Escaped(k') + Path(b));
  }

  /** The text of a place below key k of an object, compared with one below its key "0". */
  lemma ZeroOrder(k: Str, a: seq<Str>, zero: Json, b: seq<Str>)
    requires k != [ZERO] && Leaf(zero, b).Some?
    ensures PrecedesZero(k, zero) ==> Before([k] + a, [[ZERO]] + b)
    ensures !PrecedesZero(k, zero) ==> Before([[ZERO]] + b, [k] + a)
  {
    BeforeByToken(k, a, [ZERO], b);
    BeforeByToken([ZERO], b, k, a);
    EscapedStarts([ZERO]);
    assert [ZERO][1..] == [] && Escaped([ZERO]) == [ZERO];
    PathStarts(a);
    PathStarts(b);
    if k == [] {
      assert [] + Path(a) == Path(a);
    } else {
      EscapedStarts(k);
      TailOrder(Escaped(k), Path(a), Path(b));
      if k[0] == ZERO { EscapedStarts(k[1..]); }
    }
  }

  /** e + p against "0" + q, where p and q are paths and e is a nonempty escaped token other than "0". */
  lemma TailOrder(e: Str, p: Str, q: Str)
    requires e != [] && e != [ZERO] && SLASH !in e && (q == [] || q[0] == SLASH)
    ensures var before := e[0] < ZERO || (e[0] == ZERO && q != [] && e[1] < SLASH);
      Less(e + p, [ZERO] + q) == before && Less([ZERO] + q, e + p) == !before
  {
    var rest := e[1..] + p;
    assert e + p == [e[0]] + rest;
    LessByFirst(e[0], rest, ZERO, q);
    LessByFirst(ZERO, q, e[0], rest);
    if e[0] == ZERO {
      assert |e| > 1 && rest[0] == e[1] && e[1] in e;
    } else {
      assert e[0] in e;
    }
  }

  lemma EscapedStarts(k: Str)
    requires k != []
    ensures Escaped(k) != [] && Escaped(k)[0] == (if k[0] == SLASH then TILDE else k[0])
    ensures k[0] == ZERO ==> Escaped(k) == [ZERO] + Escaped(k[1..])
  {
  }

  // ---------- what has been restored after some of the leaves ----------

  /** The places below token k, relative to that child. */
  ghost function Rests(done: set<seq<Str>>, k: Str): set<seq<Str>> {
    set d | d in done && d != [] && d[0] == k :: d[1..]
  }

  lemma RestsOf(done: set<seq<Str>>, k: Str, ts: seq<Str>)
    ensures ts in Rests(done, k) <==> [k] + ts in done
  {
    assert ([k] + ts)[1..] == ts;
    if ts in Rests(done, k) {
      var d :| d in done && d != [] && d[0] == k && d[1..] == ts;
      assert d == [k] + ts;
    }
  }

  lemma RestsGrow(done: set<seq<Str>>, ts: seq<Str>, k: Str)
    requires ts != []
    ensures ts[0] == k ==> Rests(done + {ts}, k) == Rests(done, k) + {ts[1..]}
    ensures ts[0] != k ==> Rests(done + {ts}, k) == Rests(done, k)
  {
  }

  /** The first leaf visited below the object lies below key "0", so that unflatten starts an array there. */
  predicate Misread(m: map<Str, Json>) {
    [ZERO] in m && forall k :: k in m && k != [ZERO] ==> !PrecedesZero(k, m[[ZERO]])
  }

  /** acc is what unflatten has built for j once exactly the leaves in `done` have been assigned. */
  ghost predicate Restored(acc: Json, j: Json, done: set<seq<Str>>)
    decreases j, 1
  {
    if done == {} then acc == Null
    else if !IsNode(j) then acc == if IsPrimitive(j) then j else Null
    else if j.Array? then acc.Array? && RestoredElems(acc.elems, j, done)
    else if Misread(j.members) then acc.Array?
    else acc.Object? && RestoredMembers(acc.members, j, done)
  }

  ghost predicate RestoredElems(elems: seq<Json>, j: Json, done: set<seq<Str>>)
    requires j.Array?
    decreases j, 0
  {
    && |elems| <= |j.elems|
    && (forall i :: 0 <= i < |elems| ==> Restored(elems[i], j.elems[i], Rests(done, Decimal(i))))
    && (forall i :: |elems| <= i < |j.elems| ==> Rests(done, Decimal(i)) == {})
  }

  ghost predicate RestoredMembers(members: map<Str, Json>, j: Json, done: set<seq<Str>>)
    requires j.Object?
    decreases j, 0
  {
    && members.Keys <= j.members.Keys
    && (forall k :: k in members ==> Restored(members[k], j.members[k], Rests(done, k)))
    && (forall k :: k in j.members && k !in members ==> Rests(done, k) == {})
  }

  /** Every leaf visited before `ts` is done. */
  ghost predicate UpTo(j: Json, done: set<seq<Str>>, ts: seq<Str>) {
    forall u :: Leaf(j, u).Some? && Before(u, ts) ==> u in done
  }

  lemma UpToBelow(j: Json, done: set<seq<Str>>, ts: seq<Str>)
    requires ts != [] && Below(j, ts[0]).Some? && UpTo(j, done, ts)
    ensures UpTo(Below(j, ts[0]).value, Rests(done, ts[0]), ts[1..])
  {
    var c := Below(j, ts[0]).value;
    forall u | Leaf(c, u).Some? && Before(u, ts[1..]) ensures u in Rests(done, ts[0]) {
      var place := [ts[0]] + u;
      assert place[1..] == u && Leaf(j, place) == Leaf(c, u);
      BeforeBelow(ts[0], u, ts[1..]);
      assert ts == [ts[0]] + ts[1..];
      RestsOf(done, ts[0], u);
    }
  }

  /** The values that survive: no empty container, and no object taken for an array. */
  predicate Restorable(j: Json) {
    match j
    case Array(a) => a != [] && forall i :: 0 <= i < |a| ==> Restorable(a[i])
    case Object(m) => m != map[] && !Misread(m) && forall k :: k in m ==> Restorable(m[k])
    case _ => true
  }

  // ---------- the first assignment below a container ----------

  lemma LeafBeforeIndex(a: seq<Json>, ts: seq<Str>) returns (first: seq<Str>)
    requires Leaf(Array(a), ts).Some? && ts != [] && ts[0] != Decimal(0)
    ensures Leaf(Array(a), first).Some? && Before(first, ts)
  {
    var i := IndexOf(ts[0], |a|);
    var u := LeafExists(a[0]);
    first := [Decimal(0)] + u;
    BelowIndex(a, 0);
    assert first[1..] == u;
    assert ts == [ts[0]] + ts[1..];
    BeforeByToken(Decimal(0), u, ts[0], ts[1..]);
    DigitsNeedNoEscape(Decimal(0));
    DigitsNeedNoEscape(Decimal(i));
    assert (Decimal(0) + Path(u))[0] == ZERO && (Decimal(i) + Path(ts[1..]))[0] == Decimal(i)[0] > ZERO;
  }

  lemma LeafBeforeKey(m: map<Str, Json>, ts: seq<Str>) returns (first: seq<Str>)
    requires Leaf(Object(m), ts).Some? && ts != [] && ts[0] != [ZERO] && Misread(m)
    ensures Leaf(Object(m), first).Some? && Before(first, ts)
  {
    var u := LeafExists(m[[ZERO]]);
    first := [[ZERO]] + u;
    assert first[1..] == u;
    ZeroOrder(ts[0], ts[1..], m[[ZERO]], u);
    assert ts == [ts[0]] + ts[1..];
  }

  lemma LeafBeforeZero(m: map<Str, Json>, ts: seq<Str>) returns (first: seq<Str>)
    requires Leaf(Object(m), ts).Some? && ts != [] && ts[0] == [ZERO] && !Misread(m)
    ensures Leaf(Object(m), first).Some? && Before(first, ts)
  {
    var k :| k in m && k != [ZERO] && PrecedesZero(k, m[[ZERO]]);
    var u := LeafExists(m[k]);
    first := [k] + u;
    assert first[1..] == u;
    ZeroOrder(k, u, m[[ZERO]], ts[1..]);
    assert ts == [[ZERO]] + ts[1..];
  }

  // ---------- one assignment ----------

  lemma {:induction false} CreateStep(acc: Json, j: Json, done: set<seq<Str>>, ts: seq<Str>)
    requires IndicesFit(j) && Restored(acc, j, done) && Leaf(j, ts).Some? && UpTo(j, done, ts)
    ensures var r := Create(acc, ts, Leaf(j, ts).value);
      (r.Ok? ==> Restored(r.value, j, done + {ts})) && (Restorable(j) ==> r.Ok?)
    decreases j, 1
  {
    if ts != [] {
      UpToBelow(j, done, ts);
      if j.Array? {
        CreateInArray(acc, j, done, ts);
      } else if Misread(j.members) {
        if done == {} && ts[0] != [ZERO] { var first := LeafBeforeKey(j.members, ts); }
      } else {
        CreateInObject(acc, j, done, ts);
      }
    }
  }

  lemma {:induction false} CreateInArray(acc: Json, j: Json, done: set<seq<Str>>, ts: seq<Str>)
    requires IndicesFit(j) && Restored(acc, j, done) && Leaf(j, ts).Some? && UpTo(j, done, ts)
    requires j.Array? && ts != [] && UpTo(Below(j, ts[0]).value, Rests(done, ts[0]), ts[1..])
    ensures var r := Create(acc, ts, Leaf(j, ts).value);
      (r.Ok? ==> Restored(r.value, j, done + {ts})) && (Restorable(j) ==> r.Ok?)
    decreases j, 0
  {
    var a := j.elems;
    var i := IndexOf(ts[0], |a|);
    var elems := if done == {} then [] else acc.elems;
    if done == {} && ts[0] != Decimal(0) { var first := LeafBeforeIndex(a, ts); }
    var x := Padded(elems, i)[i];
    CreateStep(x, a[i], Rests(done, ts[0]), ts[1..]);
    var c := Create(x, ts[1..], Leaf(j, ts).value);
    CreateAtIndex(acc, elems, i, ts, Leaf(j, ts).value);
    if c.Ok? { ElemsRestored(elems, j, done, ts, i, c.value); }
  }

  lemma CreateAtIndex(acc: Json, elems: seq<Json>, i: nat, ts: seq<Str>, v: Json)
    requires i <= INT_MAX && ts != [] && ts[0] == Decimal(i)
    requires acc == Array(elems) || (acc == Null && elems == [] && i == 0)
    ensures Create(acc, ts, v) == (var c :- Create(Padded(elems, i)[i], ts[1..], v); Ok(Array(Padded(elems, i)[i := c])))
  {
    StoiInvertsDecimal(i);
    if acc == Null { assert forall c :: Padded([], 0)[0 := c] == [c]; }
  }

  lemma ElemsRestored(elems: seq<Json>, j: Json, done: set<seq<Str>>, ts: seq<Str>, i: nat, c: Json)
    requires j.Array? && i < |j.elems| && ts != [] && ts[0] == Decimal(i)
    requires RestoredElems(elems, j, done) && Restored(c, j.elems[i], Rests(done, ts[0]) + {ts[1..]})
    ensures RestoredElems(Padded(elems, i)[i := c], j, done + {ts})
  {
    var b := Padded(elems, i)[i := c];
    forall k | 0 <= k < |j.elems|
      ensures k < |b| ==> Restored(b[k], j.elems[k], Rests(done + {ts}, Decimal(k)))
      ensures k >= |b| ==> Rests(done + {ts}, Decimal(k)) == {}
    {
      RestsGrow(done, ts, Decimal(k));
      if k != i && Decimal(k) == Decimal(i) { DecimalInjective(k, i); }
    }
  }

  lemma {:induction false} CreateInObject(acc: Json, j: Json, done: set<seq<Str>>, ts: seq<Str>)
    requires IndicesFit(j) && Restored(acc, j, done) && Leaf(j, ts).Some? && UpTo(j, done, ts)
    requires j.Object? && !Misread(j.members) && ts != [] && UpTo(Below(j, ts[0]).value, Rests(done, ts[0]), ts[1..])
    ensures var r := Create(acc, ts, Leaf(j, ts).value);
      (r.Ok? ==> Restored(r.value, j, done + {ts})) && (Restorable(j) ==> r.Ok?)
    decreases j, 0
  {
    var k := ts[0];
    if done == {} && k == [ZERO] { var first := LeafBeforeZero(j.members, ts); }
    var members := if done == {} then map[] else acc.members;
    var x := if k in members then members[k] else Null;
    CreateStep(x, j.members[k], Rests(done, k), ts[1..]);
    var c := Create(x, ts[1..], Leaf(j, ts).value);
    if c.Ok? {
      assert Create(acc, ts, Leaf(j, ts).value) == Ok(Object(members[k := c.value]));
      MembersRestored(members, j, done, ts, c.value);
    }
  }

  lemma MembersRestored(members: map<Str, Json>, j: Json, done: set<seq<Str>>, ts: seq<Str>, c: Json)
    requires j.Object? && ts != [] && ts[0] in j.members
    requires RestoredMembers(members, j, done) && Restored(c, j.members[ts[0]], Rests(done, ts[0]) + {ts[1..]})
    ensures RestoredMembers(members[ts[0] := c], j, done + {ts})
  {
    forall k | k in j.members
      ensures ts[0] == k ==> Rests(done + {ts}, k) == Rests(done, k) + {ts[1..]}
      ensures ts[0] != k ==> Rests(done + {ts}, k) == Rests(done, k)
    {
      RestsGrow(done, ts, k);
    }
  }

  // ---------- when every leaf is done ----------

  ghost predicate AllDone(j: Json, done: set<seq<Str>>) {
    forall u :: Leaf(j, u).Some? ==> u in done
  }

  lemma AllDoneBelow(j: Json, done: set<seq<Str>>, k: Str)
    requires AllDone(j, done) && Below(j, k).Some?
    ensures AllDone(Below(j, k).value, Rests(done, k)) && Rests(done, k) != {}
  {
    var c := Below(j, k).value;
    forall u | Leaf(c, u).Some? ensures u in Rests(done, k) {
      assert ([k] + u)[1..] == u && Leaf(j, [k] + u).Some?;
      RestsOf(done, k, u);
    }
    var u := LeafExists(c);
  }

  /** A completely restored value: equal to j if j is restorable, and distinct from it otherwise. */
  ghost predicate Final(acc: Json, j: Json) {
    (Restorable(j) <==> acc == j) && (Equal(acc, j) ==> Restorable(j))
  }

  lemma {:induction false} RestoredFully(acc: Json, j: Json, done: set<seq<Str>>)
    requires Restored(acc, j, done) && AllDone(j, done)
    ensures Final(acc, j)
    decreases j, 1
  {
    var u := LeafExists(j);
    if j.Array? && j.elems != [] {
      ElemsFully(acc.elems, j, done);
    } else if j.Object? && j.members != map[] && !Misread(j.members) {
      MembersFully(acc.members, j, done);
    }
  }

  lemma {:induction false} ElemsFully(elems: seq<Json>, j: Json, done: set<seq<Str>>)
    requires j.Array? && j.elems != [] && RestoredElems(elems, j, done) && AllDone(j, done)
    ensures Final(Array(elems), j)
    decreases j, 0
  {
    if |elems| < |j.elems| {
      BelowIndex(j.elems, |elems|);
      AllDoneBelow(j, done, Decimal(|elems|));
    }
    forall i | 0 <= i < |elems| ensures Final(elems[i], j.elems[i]) {
      BelowIndex(j.elems, i);
      AllDoneBelow(j, done, Decimal(i));
      RestoredFully(elems[i], j.elems[i], Rests(done, Decimal(i)));
    }
    assert elems == j.elems <==> forall i :: 0 <= i < |elems| ==> elems[i] == j.elems[i];
  }

  lemma {:induction false} MembersFully(members: map<Str, Json>, j: Json, done: set<seq<Str>>)
    requires j.Object? && j.members != map[] && !Misread(j.members) && RestoredMembers(members, j, done) && AllDone(j, done)
    ensures Final(Object(members), j)
    decreases j, 0
  {
    forall k | k in j.members ensures k in members && Final(members[k], j.members[k]) {
      AllDoneBelow(j, done, k);
      RestoredFully(members[k], j.members[k], Rests(done, k));
    }
    assert members.Keys == j.members.Keys;
  }

  // ---------- the loop of unflatten ----------

  lemma {:induction false} UnflattenRun(j: Json, keys: seq<Str>, acc: Json, done: set<seq<Str>>)
    requires IndicesFit(j) && Restored(acc, j, done)
    requires forall k :: k in keys ==> k in Flat([], j)
    requires forall p, q :: 0 <= p < q < |keys| ==> Less(keys[p], keys[q])
    requires forall u :: Leaf(j, u).Some? ==> (u in done <==> Path(u) !in keys)
    ensures var r := UnflattenFrom(Flat([], j), keys, acc);
      (Restorable(j) <==> r == Ok(j)) && (r.Ok? && Equal(r.value, j) ==> Restorable(j))
    decreases |keys|
  {
    if keys == [] {
      RestoredFully(acc, j, done);
    } else {
      var s := keys[0];
      var ts := StoredIsLeaf([], j, s);
      assert [] + Path(ts) == Path(ts);
      LeafIsStored([], j, ts);
      LeafIsPrimitive(j, ts);
      SplitPath(ts);
      forall u | Leaf(j, u).Some? && Before(u, ts) ensures u in done { NotAhead(keys, Path(u)); }
      CreateStep(acc, j, done, ts);
      var next := Create(acc, ts, Leaf(j, ts).value);
      if next.Ok? {
        NotRepeated(keys);
        KeyDone(j, keys, done, ts);
        UnflattenRun(j, keys[1..], next.value, done + {ts});
      }
    }
  }

  lemma KeyDone(j: Json, keys: seq<Str>, done: set<seq<Str>>, ts: seq<Str>)
    requires keys != [] && Path(ts) == keys[0] && keys[0] !in keys[1..]
    requires forall u :: Leaf(j, u).Some? ==> (u in done <==> Path(u) !in keys)
    ensures forall u :: Leaf(j, u).Some? ==> (u in done + {ts} <==> Path(u) !in keys[1..])
  {
    hide Leaf, Path;
    forall u | Leaf(j, u).Some? ensures u in done + {ts} <==> Path(u) !in keys[1..] {
      if Path(u) == keys[0] { PathInjective(u, ts); }
    }
  }

  lemma NotAhead(keys: seq<Str>, s: Str)
    requires keys != [] && Less(s, keys[0]) && forall p, q :: 0 <= p < q < |keys| ==> Less(keys[p], keys[q])
    ensures s !in keys
  {
    forall i | 0 <= i < |keys| ensures keys[i] != s {
      LessIsTotal(s, keys[0]);
      if i > 0 { LessIsTotal(s, keys[0]); }
    }
  }

  lemma NotRepeated(keys: seq<Str>)
    requires keys != [] && forall p, q :: 0 <= p < q < |keys| ==> Less(keys[p], keys[q])
    ensures keys[0] !in keys[1..]
  {
    LessIsTotal(keys[0], keys[0]);
  }

  lemma {:induction false} LeafIsPrimitive(j: Json, ts: seq<Str>)
    requires Leaf(j, ts).Some?
    ensures IsPrimitive(Leaf(j, ts).value)
    decreases |ts|
  {
    if ts != [] { LeafIsPrimitive(Below(j, ts[0]).value, ts[1..]); }
  }

  /**
    unflatten(flatten(j)) is j itself exactly when j is Restorable; under operator== the two are equal exactly
    when, in addition, no NaN occurs in j. The documentation excepts only empty containers.
  */
  lemma UnflattenInvertsFlatten(j: Json)
    requires IndicesFit(j)
    ensures var m := Flat([], j);
      var r := UnflattenFrom(m, SortedKeys(m.Keys), Null);
      (r == Ok(j) <==> Restorable(j)) && (r.Ok? && Equal(r.value, j) <==> Restorable(j) && NanFree(j))
  {
    var m := Flat([], j);
    var keys := SortedKeys(m.Keys);
    AllLeavesAhead(j);
    UnflattenRun(j, keys, Null, {});
    EqualReflexive(j);
    if UnflattenFrom(m, keys, Null).Ok? && Equal(UnflattenFrom(m, keys, Null).value, j) {
      EqualNeedsNoNan(UnflattenFrom(m, keys, Null).value, j);
    }
  }

  /** The same for the code of both directions. */
  method FlattenAndUnflatten(j: Json) returns (r: Result<Json>)
    requires IndicesFit(j)
    ensures (r == Ok(j) <==> Restorable(j)) && (r.Ok? && Equal(r.value, j) <==> Restorable(j) && NanFree(j))
  {
    hide Flat, UnflattenFrom, SortedKeys, Restorable;
    var m := Flatten([], j, map[]);
    assert m == Flat([], j);
    UnflattenInvertsFlatten(j);
    r := Unflatten(Object(m));
  }

  lemma AllLeavesAhead(j: Json)
    ensures forall u :: Leaf(j, u).Some? ==> Path(u) in SortedKeys(Flat([], j).Keys)
  {
    forall u | Leaf(j, u).Some? ensures Path(u) in SortedKeys(Flat([], j).Keys) {
      LeafIsStored([], j, u);
      assert [] + Path(u) == Path(u);
    }
  }

  /** An object whose only key is "0" comes back as something else. */
  lemma KeyZeroIsLost()
    ensures var j := Object(map[[ZERO] := Boolean(true)]);
      var m := Flat([], j);
      UnflattenFrom(m, SortedKeys(m.Keys), Null) != Ok(j)
  {
    var members := map[[ZERO] := Boolean(true)];
    UnflattenInvertsFlatten(Object(members));
    assert Misread(members);
  }
}
