/** Adding, removing and replacing with a JSON Patch, told by what at() finds before and after; what an operation needs. */
module JsonPatchEdits {
  import opened Bytes
  import opened Decimals
  import opened JsonPatches
  import opened JsonPatchLaws
  import opened JsonPointers
  import opened JsonPointerText
  import opened Jsons
  import opened Wrappers

  // ---------- one operation as a document ----------

  function AddOf(path: seq<Str>, v: Json): Json {
    Object(map[Ascii("op") := Text(Ascii("add")), Ascii("path") := Text(ToString(path)), Ascii("value") := v])
  }

  function RemoveOf(path: seq<Str>): Json {
    Object(map[Ascii("op") := Text(Ascii("remove")), Ascii("path") := Text(ToString(path))])
  }

  function ReplaceOf(path: seq<Str>, v: Json): Json {
    Object(map[Ascii("op") := Text(Ascii("replace")), Ascii("path") := Text(ToString(path)), Ascii("value") := v])
  }

  lemma SixNames()
    ensures |Ascii("add")| == 3 && |Ascii("remove")| == 6 && |Ascii("replace")| == 7 && |Ascii("move")| == 4
    ensures |Ascii("copy")| == 4 && |Ascii("test")| == 4 && Ascii("move")[0] != Ascii("copy")[0]
    ensures Ascii("test")[0] != Ascii("copy")[0] && Ascii("test")[0] != Ascii("move")[0]
  {
    assert Ascii("test")[0] as int == 't' as int && Ascii("move")[0] as int == 'm' as int && Ascii("copy")[0] as int == 'c' as int;
  }

  lemma EditIsRead(path: seq<Str>, v: Json)
    ensures ReadOp(AddOf(path, v)) == Ok(Add(path, v)) && ReadOp(RemoveOf(path)) == Ok(Remove(path))
    ensures ReadOp(ReplaceOf(path, v)) == Ok(Replace(path, v))
  {
    hide ToString, Split, Ascii;
    NamesDiffer();
    SixNames();
    SplitInvertsToString(path);
  }

  /** A member that is a string. */
  predicate HasText(m: map<Str, Json>, key: string)
    requires forall i :: 0 <= i < |key| ==> key[i] as int < 128
  {
    Ascii(key) in m && m[Ascii(key)].Text?
  }

  /** What RFC 6902 requires of an operation: its name, its path, and a value or a second path. */
  predicate IsOperation(o: Json) {
    o.Object? && HasText(o.members, "op") && HasText(o.members, "path") &&
      var name := o.members[Ascii("op")].text;
      && name in {Ascii("add"), Ascii("remove"), Ascii("replace"), Ascii("move"), Ascii("copy"), Ascii("test")}
      && (name in {Ascii("add"), Ascii("replace"), Ascii("test")} ==> Ascii("value") in o.members)
      && (name in {Ascii("move"), Ascii("copy")} ==> HasText(o.members, "from"))
  }

  predicate PointersFit(o: Json)
    requires IsOperation(o)
  {
    && Split(o.members[Ascii("path")].text).Ok?
    && (o.members[Ascii("op")].text in {Ascii("move"), Ascii("copy")} ==> Split(o.members[Ascii("from")].text).Ok?)
  }

  /** Anything else is refused, whatever the document. */
  lemma OperationsNeeded(j: Json, o: Json)
    ensures ReadOp(o).Ok? <==> IsOperation(o) && PointersFit(o)
    ensures ReadOp(o).Err? ==> ApplyDocument(j, [o]) == Err(ReadOp(o).error)
    ensures !(o.Object? && HasText(o.members, "op") && HasText(o.members, "path")) ==> ReadOp(o) == Err(InvalidArgument)
    ensures o.Object? && HasText(o.members, "op") && HasText(o.members, "path") ==>
      (Split(o.members[Ascii("path")].text).Ok? && !IsOperation(o) ==> ReadOp(o) == Err(InvalidArgument))
  {
    hide Split, Ascii;
    OneOperation(j, o);
    SixNames();
  }

  // ---------- edits of a place that is there ----------

  /** Everything apart from p is in d what it is in j. */
  ghost predicate KeptApart(j: Json, p: seq<Str>, d: Json) {
    forall t :: Apart(j, p, t) ==> GetChecked(d, t) == GetChecked(j, t)
  }

  /** Where at() finds a value, operator[] finds the same one. */
  lemma {:induction false} SameReference(j: Json, p: seq<Str>, f: Json -> Result<Json>)
    requires GetChecked(j, p).Ok?
    ensures EditUnchecked(j, p, f) == EditChecked(j, p, f)
    decreases |p|
  {
    hide CheckedIndex, UncheckedIndex;
    if p != [] {
      match j
      case Object(m) => SameReference(m[p[0]], p[1..], f);
      case Array(a) =>
        IndicesAgree(|a|, p[0]);
        SameReference(a[CheckedIndex(|a|, p[0]).value], p[1..], f);
      case _ =>
    }
  }

  /** The edited value is found at its place. */
  lemma {:induction false} EditedIsFound(j: Json, p: seq<Str>, f: Json -> Result<Json>)
    ensures var (r, x) := (EditChecked(j, p, f), GetChecked(j, p));
      if x.Err? then r == Err(x.error)
      else if f(x.value).Err? then r == Err(f(x.value).error)
      else r.Ok? && GetChecked(r.value, p) == f(x.value)
    decreases |p|
  {
    hide CheckedIndex;
    if p != [] && Child(j, p[0]).Ok? { EditedIsFound(Child(j, p[0]).value, p[1..], f); }
  }

  /** An edit that changes nothing gives the same document. */
  lemma {:induction false} NothingEdited(j: Json, p: seq<Str>, f: Json -> Result<Json>)
    requires GetChecked(j, p).Ok? && f(GetChecked(j, p).value) == GetChecked(j, p)
    ensures EditChecked(j, p, f) == Ok(j)
    decreases |p|
  {
    hide CheckedIndex;
    if p != [] {
      NothingEdited(Child(j, p[0]).value, p[1..], f);
      SameChildBack(j, p[0]);
    }
  }

  lemma SameChildBack(j: Json, token: Str)
    requires Child(j, token).Ok?
    ensures WithChild(j, token, Child(j, token).value) == j
  {
    match j
    case Object(m) => assert m[token := m[token]] == m;
    case Array(a) => assert a[CheckedIndex(|a|, token).value := a[CheckedIndex(|a|, token).value]] == a;
    case _ =>
  }

  // ---------- replace ----------

  /** A value that is there is replaced, everything apart from it stays; a missing one is an error. */
  lemma ReplaceLaw(j: Json, path: seq<Str>, v: Json)
    ensures var (r, there) := (ApplyDocument(j, [ReplaceOf(path, v)]), GetChecked(j, path));
      && (there.Err? ==> r == Err(there.error))
      && (there.Ok? ==> r.Ok? && GetChecked(r.value, path) == Ok(v) && KeptApart(j, path, r.value))
  {
    hide GetChecked, ReadOp, Apart, EditChecked, EditUnchecked;
    OneOperation(j, ReplaceOf(path, v));
    EditIsRead(path, v);
    var f: Json -> Result<Json> := _ => Ok(v);
    SameConstantEdit(j, path, v, f);
    EditedIsFound(j, path, f);
    if GetChecked(j, path).Ok? {
      SameReference(j, path, f);
      forall t | Apart(j, path, t) ensures GetChecked(EditChecked(j, path, f).value, t) == GetChecked(j, t) {
        EditKeepsApart(j, path, f, t);
      }
    }
  }

  lemma SameConstantEdit(j: Json, path: seq<Str>, v: Json, f: Json -> Result<Json>)
    requires forall x :: f(x) == Ok(v)
    ensures Apply(j, Replace(path, v)) == EditChecked(j, path, f)
  {
    SameEdit(j, path, f, _ => Ok(v));
  }

  // ---------- add ----------

  lemma ParentOf(q: seq<Str>, l: Str)
    ensures (q + [l])[..|q|] == q && (q + [l])[|q|] == l && (q != [] ==> (q + [l])[0] == q[0])
  {
  }

  lemma FirstIsThere(j: Json, q: seq<Str>)
    requires q != [] && GetChecked(j, q).Ok?
    ensures Child(j, q[0]).Ok?
  {
  }

  ghost predicate Adds(f: Json -> Result<Json>, l: Str, v: Json) {
    forall x :: f(x) == AddChild(x, l, v)
  }

  lemma {:induction false} SameUncheckedEdit(j: Json, p: seq<Str>, f: Json -> Result<Json>, g: Json -> Result<Json>)
    requires forall x :: f(x) == g(x)
    ensures EditUnchecked(j, p, f) == EditUnchecked(j, p, g)
    decreases |p|
  {
    hide CheckedIndex, UncheckedIndex;
    if p != [] {
      match Opened(j, p[0])
      case Object(m) => SameUncheckedEdit(if p[0] in m then m[p[0]] else Null, p[1..], f, g);
      case Array(a) =>
        var i := UncheckedIndex(|a|, p[0]);
        if i.Ok? { SameUncheckedEdit(Padded(a, i.value)[i.value], p[1..], f, g); }
      case _ =>
    }
  }

  lemma AddingIsEditing(j: Json, q: seq<Str>, l: Str, v: Json, f: Json -> Result<Json>)
    requires GetChecked(j, q).Ok? && Adds(f, l, v)
    ensures OperationAdd(j, q + [l], v) == EditChecked(j, q, f) == EditUnchecked(j, q, f)
  {
    hide EditChecked, EditUnchecked, Child;
    ParentOf(q, l);
    if q != [] { FirstIsThere(j, q); }
    SameReference(j, q, f);
    SameUncheckedEdit(j, q, f, parent => AddChild(parent, l, v));
  }

  /** Adding below a parent that is there changes the parent as AddChild says, and nothing apart from it. */
  lemma AddLaw(j: Json, q: seq<Str>, l: Str, v: Json)
    requires GetChecked(j, q).Ok?
    ensures var (r, parent) := (ApplyDocument(j, [AddOf(q + [l], v)]), AddChild(GetChecked(j, q).value, l, v));
      && (parent.Err? ==> r == Err(parent.error))
      && (parent.Ok? ==> r.Ok? && GetChecked(r.value, q) == parent && KeptApart(j, q, r.value))
  {
    hide GetChecked, ReadOp, Apart, EditChecked, EditUnchecked, OperationAdd, AddChild;
    OneOperation(j, AddOf(q + [l], v));
    EditIsRead(q + [l], v);
    var f: Json -> Result<Json> := parent => AddChild(parent, l, v);
    AddingIsEditing(j, q, l, v, f);
    EditedIsFound(j, q, f);
    if f(GetChecked(j, q).value).Ok? {
      forall t | Apart(j, q, t) ensures GetChecked(EditUnchecked(j, q, f).value, t) == GetChecked(j, t) {
        EditKeepsApart(j, q, f, t);
      }
    }
  }

  /** A member, new or replaced, is found at its path, and everything apart from it, its siblings included, stays. */
  lemma AddMemberLaw(j: Json, path: seq<Str>, v: Json)
    requires MemberPlace(j, path)
    ensures var r := ApplyDocument(j, [AddOf(path, v)]);
      r.Ok? && GetChecked(r.value, path) == Ok(v) && KeptApart(j, path, r.value)
  {
    hide GetChecked, ReadOp, Apart, EditUnchecked, OperationAdd, MemberPlace;
    OneOperation(j, AddOf(path, v));
    EditIsRead(path, v);
    AddsMember(j, path, v);
    SettingSucceeds(j, path, v);
    AssignedIsFound(j, path, v);
    forall t | Apart(j, path, t) ensures GetChecked(EditUnchecked(j, path, _ => Ok(v)).value, t) == GetChecked(j, t) {
      EditKeepsApart(j, path, _ => Ok(v), t);
    }
  }

  /** The root is replaced; the first token of a longer path must lead somewhere; a null parent becomes an object. */
  lemma AddElsewhere(j: Json, path: seq<Str>, l: Str, v: Json)
    ensures ApplyDocument(j, [AddOf([], v)]) == Ok(v)
    ensures |path| > 1 && GetChecked(j, [path[0]]).Err? ==>
      ApplyDocument(j, [AddOf(path, v)]) == Err(GetChecked(j, [path[0]]).error)
    ensures AddChild(Null, l, v) == Ok(Object(map[l := v]))
    ensures j != Null && IsPrimitive(j) ==> AddChild(j, l, v) == Err(AssertionFailed)
  {
    hide ReadOp, Child, AddChild, EditUnchecked;
    OneOperation(j, AddOf([], v));
    EditIsRead([], v);
    OneOperation(j, AddOf(path, v));
    EditIsRead(path, v);
    if path != [] { OneToken(j, path[0]); }
    Primitives(j, l, v);
  }

  lemma OneToken(j: Json, token: Str)
    ensures GetChecked(j, [token]) == Child(j, token)
  {
    assert [token][1..] == [];
  }

  lemma Primitives(j: Json, l: Str, v: Json)
    ensures AddChild(Null, l, v) == Ok(Object(map[l := v]))
    ensures j != Null && IsPrimitive(j) ==> AddChild(j, l, v) == Err(AssertionFailed)
  {
  }

  // ---------- remove ----------

  /** A member or element that is there is gone afterwards; one that is not there is an error; a primitive parent stays. */
  lemma RemoveLaw(j: Json, q: seq<Str>, l: Str)
    ensures var (r, there) := (ApplyDocument(j, [RemoveOf(q + [l])]), GetChecked(j, q));
      && (there.Err? ==> r == Err(there.error))
      && (there.Ok? && IsPrimitive(there.value) ==> r == Ok(j))
      && (there.Ok? && there.value.Object? && l !in there.value.members ==> r == Err(OutOfRange))
      && (there.Ok? && there.value.Array? ==> match RemoveChild(there.value, l)
          case Ok(a) => r.Ok? && GetChecked(r.value, q) == Ok(a)
          case Err(e) => r == Err(e))
  {
    hide GetChecked, ReadOp, EditChecked, OperationRemove;
    OneOperation(j, RemoveOf(q + [l]));
    EditIsRead(q + [l], Null);
    ParentOf(q, l);
    var f: Json -> Result<Json> := parent => RemoveChild(parent, l);
    RemovingIsEditing(j, q + [l], f);
    EditedIsFound(j, q, f);
    if GetChecked(j, q).Ok? && IsPrimitive(GetChecked(j, q).value) { NothingEdited(j, q, f); }
  }

  lemma RemoveMemberLaw(j: Json, q: seq<Str>, l: Str)
    requires HasMember(j, q, l)
    ensures var r := ApplyDocument(j, [RemoveOf(q + [l])]);
      r.Ok? && GetChecked(r.value, q + [l]) == Err(OutOfRange) && KeptApart(j, q + [l], r.value)
  {
    hide GetChecked, ReadOp, EditChecked, OperationRemove, Apart, HasMember;
    OneOperation(j, RemoveOf(q + [l]));
    EditIsRead(q + [l], Null);
    ParentOf(q, l);
    var f: Json -> Result<Json> := parent => RemoveChild(parent, l);
    RemovingIsEditing(j, q + [l], f);
    RemovedIsGone(j, q, l, f);
    forall t | Apart(j, q + [l], t) ensures GetChecked(EditChecked(j, q, f).value, t) == GetChecked(j, t) {
      RemovalKeepsApart(j, q, l, f, t);
    }
  }

  lemma RemoveRoot(j: Json)
    ensures ApplyDocument(j, [RemoveOf([])]) == Err(DomainError)
  {
    hide ReadOp;
    OneOperation(j, RemoveOf([]));
    EditIsRead([], Null);
  }

  // ---------- what operator[] makes of null ----------

  /** A number or "-" makes an array of it, and any other token an object. */
  lemma NullBecomes(token: Str, i: nat, v: Json)
    requires i <= INT_MAX
    ensures EditUnchecked(Null, [Decimal(i)], _ => Ok(v)) == Ok(Array(seq(i, _ => Null) + [v]))
    ensures EditUnchecked(Null, [Ascii("-")], _ => Ok(v)) == Ok(Array([v]))
    ensures token != Ascii("-") && (exists k :: 0 <= k < |token| && !(0x30 <= token[k] <= 0x39)) ==>
      EditUnchecked(Null, [token], _ => Ok(v)) == Ok(Object(map[token := v]))
  {
    assert Ascii("-") == [MINUS];
    assert [token][1..] == [] && [Decimal(i)][1..] == [] && [Ascii("-")][1..] == [];
    assert Padded([], 0)[0 := v] == [v];
    IndexToken(i, i);
    NumberSets(i, v);
  }

  lemma NumberSets(i: nat, v: Json)
    requires i <= INT_MAX
    ensures EditUnchecked(Null, [Decimal(i)], _ => Ok(v)) == Ok(Array(seq(i, _ => Null) + [v]))
  {
    IndexToken(i, i + 1);
    IndicesAgree(i + 1, Decimal(i));
    assert [Decimal(i)][1..] == [];
    var b := Padded([], i);
    assert b[i := v] == seq(i, _ => Null) + [v];
  }
}
