/** What the operations of a JSON Patch do, told by what at() finds before and after (RFC 6902, section 4). */
module JsonPatchLaws {
  import opened Bytes
  import opened Decimals
  import opened JsonPatches
  import opened JsonPointers
  import opened JsonPointerText
  import opened Jsons
  import opened Wrappers

  // ---------- one operation as a document ----------

  function TestObject(path: seq<Str>, v: Json): Json {
    Object(map[Ascii("op") := Text(Ascii("test")), Ascii("path") := Text(ToString(path)), Ascii("value") := v])
  }

  function MoveObject(path: seq<Str>, from: seq<Str>): Json {
    Object(map[Ascii("op") := Text(Ascii("move")), Ascii("path") := Text(ToString(path)), Ascii("from") := Text(ToString(from))])
  }

  function CopyObject(path: seq<Str>, from: seq<Str>): Json {
    Object(map[Ascii("op") := Text(Ascii("copy")), Ascii("path") := Text(ToString(path)), Ascii("from") := Text(ToString(from))])
  }

  lemma NamesDiffer()
    ensures Ascii("op") != Ascii("path") && Ascii("op") != Ascii("value") && Ascii("op") != Ascii("from")
    ensures Ascii("path") != Ascii("value") && Ascii("path") != Ascii("from")
  {
    assert |Ascii("op")| == 2 && |Ascii("path")| == 4 && |Ascii("value")| == 5;
    assert Ascii("path")[0] as int == 'p' as int && Ascii("from")[0] as int == 'f' as int;
  }

  lemma OperationsDiffer()
    ensures Ascii("test") !in {Ascii("add"), Ascii("remove"), Ascii("replace"), Ascii("move"), Ascii("copy")}
    ensures Ascii("move") !in {Ascii("add"), Ascii("remove"), Ascii("replace")}
    ensures Ascii("copy") !in {Ascii("add"), Ascii("remove"), Ascii("replace"), Ascii("move")}
  {
    assert |Ascii("add")| == 3 && |Ascii("remove")| == 6 && |Ascii("replace")| == 7;
    assert Ascii("test")[0] as int == 't' as int && Ascii("move")[0] as int == 'm' as int && Ascii("copy")[0] as int == 'c' as int;
  }

  lemma TestIsRead(path: seq<Str>, v: Json)
    ensures ReadOp(TestObject(path, v)) == Ok(Test(path, v))
  {
    hide ToString, Split, Ascii;
    NamesDiffer();
    OperationsDiffer();
    SplitInvertsToString(path);
  }

  lemma MoveIsRead(path: seq<Str>, from: seq<Str>)
    ensures ReadOp(MoveObject(path, from)) == Ok(Move(path, from))
  {
    hide ToString, Split, Ascii;
    NamesDiffer();
    OperationsDiffer();
    SplitInvertsToString(path);
    SplitInvertsToString(from);
  }

  lemma CopyIsRead(path: seq<Str>, from: seq<Str>)
    ensures ReadOp(CopyObject(path, from)) == Ok(Copy(path, from))
  {
    hide ToString, Split, Ascii;
    NamesDiffer();
    OperationsDiffer();
    SplitInvertsToString(path);
    SplitInvertsToString(from);
  }

  lemma OneOperation(j: Json, o: Json)
    ensures ApplyDocument(j, [o]) == (var op :- ReadOp(o); Apply(j, op))
  {
    hide Apply, ReadOp;
    assert [o][1..] == [];
  }

  // ---------- whole patches ----------

  /** The first operation that fails decides: nothing behind it is read, and no document is returned. */
  lemma {:induction false} FirstFailureWins(j: Json, before: seq<Json>, o: Json, behind: seq<Json>)
    requires ApplyDocument(j, before).Ok? && ApplyDocument(ApplyDocument(j, before).value, [o]).Err?
    ensures ApplyDocument(j, before + [o] + behind) == Err(ApplyDocument(ApplyDocument(j, before).value, [o]).error)
    decreases |before|
  {
    hide Apply, ReadOp;
    var all := before + [o] + behind;
    if before == [] {
      OneOperation(j, o);
      assert all[0] == o;
    } else {
      assert all[0] == before[0] && all[1..] == before[1..] + [o] + behind;
      FirstFailureWins(Apply(j, ReadOp(before[0]).value).value, before[1..], o, behind);
    }
  }

  // ---------- test ----------

  /** A test leaves the document as it is when the value is there, and fails when it is not. */
  lemma TestLaw(j: Json, path: seq<Str>, v: Json)
    ensures var (r, there) := (ApplyDocument(j, [TestObject(path, v)]), GetChecked(j, path));
      && (r.Ok? <==> there.Ok? && Equal(there.value, v))
      && (r.Ok? ==> r.value == j)
      && (r.Err? ==> r == Err(if there.Err? && there.error != OutOfRange then there.error else DomainError))
  {
    hide Equal, GetChecked, ReadOp;
    OneOperation(j, TestObject(path, v));
    TestIsRead(path, v);
  }

  // ---------- places ----------

  /** Resolving p and t in j separates them: different members, or different elements. Neither is above the other. */
  predicate Apart(j: Json, p: seq<Str>, t: seq<Str>)
    decreases |p|
  {
    p != [] && t != [] &&
      match j
      case Object(m) => p[0] != t[0] || (p[0] in m && Apart(m[p[0]], p[1..], t[1..]))
      case Array(a) =>
        var (x, y) := (CheckedIndex(|a|, p[0]), CheckedIndex(|a|, t[0]));
        x != y || (x.Ok? && Apart(a[x.value], p[1..], t[1..]))
      case _ => false
  }

  lemma {:induction false} ApartIsSymmetric(j: Json, p: seq<Str>, t: seq<Str>)
    ensures Apart(j, p, t) <==> Apart(j, t, p)
    decreases |p|
  {
    if p != [] && t != [] {
      match j
      case Object(m) => if p[0] == t[0] && p[0] in m { ApartIsSymmetric(m[p[0]], p[1..], t[1..]); }
      case Array(a) =>
        var x := CheckedIndex(|a|, p[0]);
        if x == CheckedIndex(|a|, t[0]) && x.Ok? { ApartIsSymmetric(a[x.value], p[1..], t[1..]); }
      case _ =>
    }
  }

  /** An index that operator[] takes is the one at() takes, or lies behind the array. */
  lemma IndicesAgree(size: nat, token: Str)
    ensures CheckedIndex(size, token).Ok? ==> UncheckedIndex(size, token) == CheckedIndex(size, token)
    ensures UncheckedIndex(size, token).Ok? && CheckedIndex(size, token).Err? ==>
      UncheckedIndex(size, token).value >= size && CheckedIndex(size, token).error == OutOfRange
    ensures UncheckedIndex(size, token).Ok? && token != [MINUS] ==>
      forall n :: n > UncheckedIndex(size, token).value ==> CheckedIndex(n, token) == UncheckedIndex(size, token)
  {
  }

  /** An index that is out of no range, or inside the smaller one, is read the same for a longer array. */
  lemma LongerArray(size: nat, longer: nat, token: Str)
    requires size <= longer && CheckedIndex(size, token) != Err(OutOfRange)
    ensures CheckedIndex(longer, token) == CheckedIndex(size, token)
  {
  }

  /** An edit through operator[] changes nothing that is apart from its place. */
  lemma {:induction false} EditKeepsApart(j: Json, p: seq<Str>, edit: Json -> Result<Json>, t: seq<Str>)
    requires Apart(j, p, t) && EditUnchecked(j, p, edit).Ok?
    ensures GetChecked(EditUnchecked(j, p, edit).value, t) == GetChecked(j, t)
    decreases |p|
  {
    hide CheckedIndex, UncheckedIndex;
    match j
    case Object(m) =>
      if p[0] == t[0] { EditKeepsApart(m[p[0]], p[1..], edit, t[1..]); }
    case Array(a) =>
      var (x, y) := (CheckedIndex(|a|, p[0]), CheckedIndex(|a|, t[0]));
      IndicesAgree(|a|, p[0]);
      var i := UncheckedIndex(|a|, p[0]).value;
      var b := Padded(a, i);
      if x == y {
        EditKeepsApart(a[i], p[1..], edit, t[1..]);
      } else {
        OtherIndex(a, i, t[0], x);
      }
  }

  lemma OtherIndex(a: seq<Json>, i: nat, token: Str, x: Result<nat>)
    requires x == (if i < |a| then Ok(i) else Err(OutOfRange)) && CheckedIndex(|a|, token) != x
    ensures var (b, y) := (Padded(a, i), CheckedIndex(|a|, token));
      CheckedIndex(|b|, token) == y && (y.Ok? ==> y.value != i && b[y.value] == a[y.value])
  {
    if CheckedIndex(|a|, token) != Err(OutOfRange) { LongerArray(|a|, |Padded(a, i)|, token); }
  }

  // ---------- copy ----------

  /** On the way to p the token "-" meets an array, or a null that becomes one. */
  predicate Appends(j: Json, p: seq<Str>)
    decreases |p|
  {
    p != [] &&
      match Opened(j, p[0])
      case Object(m) => Appends(if p[0] in m then m[p[0]] else Null, p[1..])
      case Array(a) =>
        p[0] == [MINUS] || var i := UncheckedIndex(|a|, p[0]); i.Ok? && Appends(Padded(a, i.value)[i.value], p[1..])
      case _ => false
  }

  /** at(p) finds the value assigned through operator[](p), unless the value was appended to an array. */
  lemma {:induction false} AssignedIsFound(j: Json, p: seq<Str>, v: Json)
    requires EditUnchecked(j, p, _ => Ok(v)).Ok?
    ensures var r := GetChecked(EditUnchecked(j, p, _ => Ok(v)).value, p);
      r == if Appends(j, p) then Err(OutOfRange) else Ok(v)
    decreases |p|
  {
    hide CheckedIndex, UncheckedIndex;
    if p != [] {
      match Opened(j, p[0])
      case Object(m) => AssignedIsFound(if p[0] in m then m[p[0]] else Null, p[1..], v);
      case Array(a) =>
        IndicesAgree(|a|, p[0]);
        var i := UncheckedIndex(|a|, p[0]).value;
        if p[0] == [MINUS] { MinusIsOutOfRange(|Padded(a, i)|); } else { AssignedIsFound(Padded(a, i)[i], p[1..], v); }
      case _ =>
    }
  }

  lemma MinusIsOutOfRange(size: nat)
    ensures CheckedIndex(size, [MINUS]) == Err(OutOfRange)
  {
  }

  /** After a copy, the place holds what was at `from`, and everything apart from it, such as `from`, is as before. */
  lemma CopyLaw(j: Json, path: seq<Str>, from: seq<Str>)
    ensures var r := ApplyDocument(j, [CopyObject(path, from)]);
      && (GetChecked(j, from).Err? ==> r == Err(GetChecked(j, from).error))
      && (r.Ok? ==> GetChecked(r.value, path) == if Appends(j, path) then Err(OutOfRange) else GetChecked(j, from))
      && (r.Ok? ==> forall t :: Apart(j, path, t) ==> GetChecked(r.value, t) == GetChecked(j, t))
  {
    hide GetChecked, ReadOp, Apart, EditUnchecked;
    OneOperation(j, CopyObject(path, from));
    CopyIsRead(path, from);
    var v := GetChecked(j, from);
    if v.Ok? && EditUnchecked(j, path, _ => Ok(v.value)).Ok? {
      AssignedIsFound(j, path, v.value);
      forall t | Apart(j, path, t)
        ensures GetChecked(EditUnchecked(j, path, _ => Ok(v.value)).value, t) == GetChecked(j, t)
      {
        EditKeepsApart(j, path, _ => Ok(v.value), t);
      }
    }
  }

  /** Setting a member, or a value that is there, always succeeds. */
  lemma {:induction false} SettingSucceeds(j: Json, path: seq<Str>, v: Json)
    requires GetChecked(j, path).Ok? || MemberPlace(j, path)
    ensures EditUnchecked(j, path, _ => Ok(v)).Ok? && !Appends(j, path)
    decreases |path|
  {
    hide CheckedIndex, UncheckedIndex;
    if path != [] {
      match j
      case Object(m) =>
        if |path| == 1 { assert path[1..] == []; } else {
          assert path[1..][..|path| - 2] == path[..|path| - 1][1..];
          SettingSucceeds(m[path[0]], path[1..], v);
        }
      case Array(a) =>
        if |path| > 1 { assert path[1..][..|path| - 2] == path[..|path| - 1][1..]; }
        IndicesAgree(|a|, path[0]);
        MinusIsOutOfRange(|a|);
        SettingSucceeds(a[CheckedIndex(|a|, path[0]).value], path[1..], v);
      case _ =>
    }
  }

  lemma CopySucceeds(j: Json, path: seq<Str>, from: seq<Str>)
    requires GetChecked(j, from).Ok? && (GetChecked(j, path).Ok? || MemberPlace(j, path))
    ensures ApplyDocument(j, [CopyObject(path, from)]).Ok?
    ensures GetChecked(ApplyDocument(j, [CopyObject(path, from)]).value, path) == GetChecked(j, from)
  {
    hide GetChecked, ReadOp, EditUnchecked, Appends, MemberPlace;
    OneOperation(j, CopyObject(path, from));
    CopyIsRead(path, from);
    SettingSucceeds(j, path, GetChecked(j, from).value);
    CopyLaw(j, path, from);
  }

  // ---------- move ----------

  /** A place for a member of an object that is there. */
  predicate MemberPlace(j: Json, path: seq<Str>) {
    path != [] && GetChecked(j, path[..|path| - 1]).Ok? && GetChecked(j, path[..|path| - 1]).value.Object?
  }

  lemma OneMore(j: Json, op: Op)
    ensures ApplyAll(j, [op]) == Apply(j, op)
  {
    hide Apply;
    assert [op][1..] == [];
  }

  lemma TwoOperations(j: Json, from: seq<Str>, path: seq<Str>, v: Json)
    ensures ApplyAll(j, [Remove(from), Add(path, v)]) == (var d :- OperationRemove(j, from); OperationAdd(d, path, v))
  {
    hide OperationRemove, OperationAdd;
    var ops := [Remove(from), Add(path, v)];
    assert ops[0] == Remove(from) && ops[1..] == [Add(path, v)];
    assert ApplyAll(j, ops) == (var d :- OperationRemove(j, from); ApplyAll(d, ops[1..]));
    if OperationRemove(j, from).Ok? { OneMore(OperationRemove(j, from).value, Add(path, v)); }
  }

  /** A move is a removal, followed by adding what was there. */
  lemma MoveIsRemoveThenAdd(j: Json, path: seq<Str>, from: seq<Str>)
    ensures var (r, v) := (ApplyDocument(j, [MoveObject(path, from)]), GetChecked(j, from));
      r == if v.Err? then Err(v.error) else ApplyAll(j, [Remove(from), Add(path, v.value)])
  {
    hide GetChecked, ReadOp, OperationRemove, OperationAdd;
    OneOperation(j, MoveObject(path, from));
    MoveIsRead(path, from);
    if GetChecked(j, from).Ok? { TwoOperations(j, from, path, GetChecked(j, from).value); }
  }

  /** f removes the member k. */
  ghost predicate Removes(f: Json -> Result<Json>, k: Str) {
    forall x :: f(x) == RemoveChild(x, k)
  }

  /** j has an object at p, with a member k. */
  predicate HasMember(j: Json, p: seq<Str>, k: Str) {
    GetChecked(j, p).Ok? && GetChecked(j, p).value.Object? && k in GetChecked(j, p).value.members
  }

  lemma Behind(p: seq<Str>, k: Str)
    ensures p != [] ==> (p + [k])[0] == p[0] && (p + [k])[1..] == p[1..] + [k]
    ensures p == [] ==> (p + [k])[0] == k && (p + [k])[1..] == []
  {
  }

  /** A removed member is not found any more. */
  lemma {:induction false} RemovedIsGone(j: Json, p: seq<Str>, k: Str, f: Json -> Result<Json>)
    requires Removes(f, k) && HasMember(j, p, k)
    ensures EditChecked(j, p, f).Ok? && GetChecked(EditChecked(j, p, f).value, p + [k]) == Err(OutOfRange)
    decreases |p|
  {
    Behind(p, k);
    if p != [] {
      RemovedIsGone(Child(j, p[0]).value, p[1..], k, f);
    }
  }

  /** A removal changes nothing that is apart from the member. */
  lemma {:induction false} RemovalKeepsApart(j: Json, p: seq<Str>, k: Str, f: Json -> Result<Json>, t: seq<Str>)
    requires Removes(f, k) && HasMember(j, p, k) && Apart(j, p + [k], t)
    ensures EditChecked(j, p, f).Ok? && GetChecked(EditChecked(j, p, f).value, t) == GetChecked(j, t)
    decreases |p|
  {
    hide CheckedIndex;
    RemovedIsGone(j, p, k, f);
    Behind(p, k);
    if p != [] {
      var c := Child(j, p[0]).value;
      RemovedIsGone(c, p[1..], k, f);
      if Child(j, t[0]).Ok? && SameChild(j, p[0], t[0]) { RemovalKeepsApart(c, p[1..], k, f, t[1..]); }
    }
  }

  /** The two tokens lead to the same member or element. */
  predicate SameChild(j: Json, k: Str, l: Str) {
    match j
    case Object(m) => k == l
    case Array(a) => CheckedIndex(|a|, k) == CheckedIndex(|a|, l)
    case _ => false
  }

  /** Objects elsewhere, and those above the member, stay objects. */
  lemma {:induction false} RemovalKeepsObjects(j: Json, p: seq<Str>, k: Str, f: Json -> Result<Json>, q: seq<Str>, l: Str)
    requires Removes(f, k) && HasMember(j, p, k) && Apart(j, p + [k], q + [l])
    requires GetChecked(j, q).Ok? && GetChecked(j, q).value.Object?
    ensures var d := EditChecked(j, p, f); d.Ok? && GetChecked(d.value, q).Ok? && GetChecked(d.value, q).value.Object?
    decreases |p|
  {
    hide CheckedIndex;
    RemovedIsGone(j, p, k, f);
    Behind(p, k);
    Behind(q, l);
    if p != [] {
      var c := Child(j, p[0]).value;
      RemovedIsGone(c, p[1..], k, f);
      if q != [] && SameChild(j, p[0], q[0]) { RemovalKeepsObjects(c, p[1..], k, f, q[1..], l); }
    }
  }

  /** Places apart from each other, and one of them from the member, are still apart. */
  lemma {:induction false} RemovalKeepsDistance(j: Json, p: seq<Str>, k: Str, f: Json -> Result<Json>, q: seq<Str>, t: seq<Str>)
    requires Removes(f, k) && HasMember(j, p, k) && Apart(j, p + [k], q) && Apart(j, q, t)
    ensures EditChecked(j, p, f).Ok? && Apart(EditChecked(j, p, f).value, q, t)
    decreases |p|
  {
    hide CheckedIndex;
    RemovedIsGone(j, p, k, f);
    Behind(p, k);
    if p != [] {
      var c := Child(j, p[0]).value;
      RemovedIsGone(c, p[1..], k, f);
      if SameChild(j, p[0], q[0]) && SameChild(j, q[0], t[0]) { RemovalKeepsDistance(c, p[1..], k, f, q[1..], t[1..]); }
    }
  }

  /** Adding to an object that is there is assigning the member. */
  lemma {:induction false} AddingIsAssigning(j: Json, q: seq<Str>, l: Str, v: Json, g: Json -> Result<Json>)
    requires GetChecked(j, q).Ok? && GetChecked(j, q).value.Object? && forall x :: g(x) == AddChild(x, l, v)
    ensures EditUnchecked(j, q, g) == EditUnchecked(j, q + [l], _ => Ok(v))
    decreases |q|
  {
    hide CheckedIndex, UncheckedIndex;
    Behind(q, l);
    if q != [] {
      match j
      case Object(m) => AddingIsAssigning(m[q[0]], q[1..], l, v, g);
      case Array(a) =>
        IndicesAgree(|a|, q[0]);
        AddingIsAssigning(a[CheckedIndex(|a|, q[0]).value], q[1..], l, v, g);
      case _ =>
    }
  }

  lemma AddsMember(j: Json, path: seq<Str>, v: Json)
    requires MemberPlace(j, path)
    ensures OperationAdd(j, path, v) == EditUnchecked(j, path, _ => Ok(v))
  {
    hide EditUnchecked;
    var (q, l) := (path[..|path| - 1], path[|path| - 1]);
    assert q + [l] == path;
    AddingIsAssigning(j, q, l, v, parent => AddChild(parent, l, v));
    if |path| > 1 { assert path[0] == q[0]; }
  }

  /**
    Moving a member of an object to a place for a member that is neither above nor below it: the value is found at the
    new place, no longer at the old one, and everything apart from both is as before.
  */
  lemma MoveLaw(j: Json, path: seq<Str>, from: seq<Str>)
    requires MemberPlace(j, path) && MemberPlace(j, from) && GetChecked(j, from).Ok? && Apart(j, path, from)
    ensures var r := ApplyDocument(j, [MoveObject(path, from)]);
      && r.Ok? && GetChecked(r.value, path) == GetChecked(j, from) && GetChecked(r.value, from) == Err(OutOfRange)
      && forall t :: Apart(j, path, t) && Apart(j, from, t) ==> GetChecked(r.value, t) == GetChecked(j, t)
  {
    hide GetChecked, Apart, EditChecked, EditUnchecked, OperationAdd, OperationRemove, ReadOp, HasMember, Appends;
    var k := from[|from| - 1];
    var v := GetChecked(j, from).value;
    MoveIsRemoveThenAdd(j, path, from);
    TwoOperations(j, from, path, v);
    var f: Json -> Result<Json> := parent => RemoveChild(parent, k);
    RemovingIsEditing(j, from, f);
    var d := MiddleDocument(j, path, from, f);
    AddsMember(d, path, v);
    SettingSucceeds(d, path, v);
    AssignedIsFound(d, path, v);
    EditKeepsApart(d, path, _ => Ok(v), from);
    forall t | Apart(j, path, t) && Apart(j, from, t)
      ensures GetChecked(EditUnchecked(d, path, _ => Ok(v)).value, t) == GetChecked(j, t)
    {
      MiddleKeeps(j, path, from, f, d, t);
      EditKeepsApart(d, path, _ => Ok(v), t);
    }
  }

  lemma RemovingIsEditing(j: Json, from: seq<Str>, f: Json -> Result<Json>)
    requires from != [] && Removes(f, from[|from| - 1])
    ensures OperationRemove(j, from) == EditChecked(j, from[..|from| - 1], f)
  {
    SameEdit(j, from[..|from| - 1], f, parent => RemoveChild(parent, from[|from| - 1]));
  }

  lemma {:induction false} SameEdit(j: Json, p: seq<Str>, f: Json -> Result<Json>, g: Json -> Result<Json>)
    requires forall x :: f(x) == g(x)
    ensures EditChecked(j, p, f) == EditChecked(j, p, g)
    decreases |p|
  {
    if p != [] && Child(j, p[0]).Ok? { SameEdit(Child(j, p[0]).value, p[1..], f, g); }
  }

  /** The document between the removal and the addition. */
  lemma MiddleDocument(j: Json, path: seq<Str>, from: seq<Str>, f: Json -> Result<Json>) returns (d: Json)
    requires MemberPlace(j, path) && MemberPlace(j, from) && GetChecked(j, from).Ok? && Apart(j, path, from)
    requires Removes(f, from[|from| - 1])
    ensures EditChecked(j, from[..|from| - 1], f) == Ok(d)
    ensures MemberPlace(d, path) && Apart(d, path, from) && GetChecked(d, from) == Err(OutOfRange)
  {
    hide Apart, EditChecked;
    var (p, k) := (from[..|from| - 1], from[|from| - 1]);
    var (q, l) := (path[..|path| - 1], path[|path| - 1]);
    assert p + [k] == from && q + [l] == path;
    MemberIsThere(j, p, k);
    RemovedIsGone(j, p, k, f);
    d := EditChecked(j, p, f).value;
    ApartIsSymmetric(j, path, from);
    RemovalKeepsObjects(j, p, k, f, q, l);
    RemovalKeepsDistance(j, p, k, f, path, from);
  }

  lemma MiddleKeeps(j: Json, path: seq<Str>, from: seq<Str>, f: Json -> Result<Json>, d: Json, t: seq<Str>)
    requires MemberPlace(j, from) && GetChecked(j, from).Ok? && Apart(j, path, from) && Removes(f, from[|from| - 1])
    requires EditChecked(j, from[..|from| - 1], f) == Ok(d) && Apart(j, path, t) && Apart(j, from, t)
    ensures GetChecked(d, t) == GetChecked(j, t) && Apart(d, path, t)
  {
    hide Apart, EditChecked;
    var (p, k) := (from[..|from| - 1], from[|from| - 1]);
    assert p + [k] == from;
    MemberIsThere(j, p, k);
    RemovalKeepsApart(j, p, k, f, t);
    ApartIsSymmetric(j, path, from);
    RemovalKeepsDistance(j, p, k, f, path, t);
  }

  lemma {:induction false} MemberIsThere(j: Json, p: seq<Str>, k: Str)
    requires GetChecked(j, p + [k]).Ok? && GetChecked(j, p).Ok? && GetChecked(j, p).value.Object?
    ensures HasMember(j, p, k)
    decreases |p|
  {
    Behind(p, k);
    if p != [] { MemberIsThere(Child(j, p[0]).value, p[1..], k); }
  }

  // ---------- inserting into and removing from arrays ----------

  /** An element inserted at i keeps those before it and moves those from i on up by one. */
  lemma InsertionShifts(a: seq<Json>, i: nat, v: Json)
    requires i <= |a| && i <= INT_MAX
    ensures var r := AddChild(Array(a), Decimal(i), v);
      && r.Ok? && r.value.Array? && |r.value.elems| == |a| + 1 && r.value.elems[i] == v
      && (forall k :: 0 <= k < i ==> r.value.elems[k] == a[k]) && forall k :: i <= k < |a| ==> r.value.elems[k + 1] == a[k]
    ensures AddChild(Array(a), [MINUS], v) == Ok(Array(a + [v]))
  {
    hide Stoi, Decimal, CheckedIndex;
    IndexToken(i, i);
  }

  /** The element at i is gone, those before it stay, and those behind it move down by one. */
  lemma RemovalShifts(a: seq<Json>, i: nat)
    requires i < |a| && i <= INT_MAX
    ensures var r := RemoveChild(Array(a), Decimal(i));
      && r.Ok? && r.value.Array? && |r.value.elems| == |a| - 1
      && (forall k :: 0 <= k < i ==> r.value.elems[k] == a[k]) && forall k :: i < k < |a| ==> r.value.elems[k - 1] == a[k]
  {
    hide Stoi, Decimal, CheckedIndex;
    IndexToken(i, |a|);
  }
}
