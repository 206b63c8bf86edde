/** JSON Patch (RFC 6902): applying a patch document, and computing one with diff. */
module JsonPatches {
  import opened Bytes
  import opened Decimals
  import opened JsonPointers
  import opened JsonPointerText
  import opened Jsons
  import opened Wrappers

  // ---------- the operations ----------

  datatype Op =
    | Add(path: seq<Str>, value: Json)
    | Remove(path: seq<Str>)
    | Replace(path: seq<Str>, value: Json)
    | Move(path: seq<Str>, from: seq<Str>)
    | Copy(path: seq<Str>, from: seq<Str>)
    | Test(path: seq<Str>, value: Json)

  function AddChild(parent: Json, last: Str, v: Json): Result<Json> {
    match parent
    case Null => Ok(Object(map[last := v]))
    case Object(m) => Ok(Object(m[last := v]))
    case Array(a) =>
      if last == [MINUS] then Ok(Array(a + [v])) else
        var i :- Stoi(last);
        if 0 <= i <= |a| then Ok(Array(a[..i] + [v] + a[i..])) else Err(OutOfRange)
    case _ => Err(AssertionFailed)
  }

  /** A primitive parent is left as it is. */
  function RemoveChild(parent: Json, last: Str): Result<Json> {
    match parent
    case Object(m) => if last in m then Ok(Object(m - {last})) else Err(OutOfRange)
    case Array(a) =>
      var i :- Stoi(last);
      if 0 <= i < |a| then Ok(Array(a[..i] + a[i + 1..])) else Err(OutOfRange)
    case _ => Ok(parent)
  }

  function OperationAdd(j: Json, path: seq<Str>, v: Json): Result<Json> {
    if path == [] then Ok(v)
    else if |path| > 1 && Child(j, path[0]).Err? then Err(Child(j, path[0]).error)
    else
      var last := path[|path| - 1];
      EditUnchecked(j, path[..|path| - 1], parent => AddChild(parent, last, v))
  }

  function OperationRemove(j: Json, path: seq<Str>): Result<Json> {
    if path == [] then Err(DomainError) else
      var last := path[|path| - 1];
      EditChecked(j, path[..|path| - 1], parent => RemoveChild(parent, last))
  }

  /** The working copy after one operation. */
  function Apply(j: Json, op: Op): Result<Json> {
    match op
    case Add(path, v) => OperationAdd(j, path, v)
    case Remove(path) => OperationRemove(j, path)
    case Replace(path, v) => EditChecked(j, path, _ => Ok(v))
    case Move(path, from) =>
      var v :- GetChecked(j, from);
      var rest :- OperationRemove(j, from);
      OperationAdd(rest, path, v)
    case Copy(path, from) =>
      var v :- GetChecked(j, from);
      EditUnchecked(j, path, _ => Ok(v))
    case Test(path, v) =>
      match GetChecked(j, path)
      case Ok(w) => if Equal(w, v) then Ok(j) else Err(DomainError)
      case Err(e) => Err(if e == OutOfRange then DomainError else e)
  }

  function ApplyAll(j: Json, ops: seq<Op>): Result<Json>
    decreases |ops|
  {
    if ops == [] then Ok(j) else
      var r :- Apply(j, ops[0]);
      ApplyAll(r, ops[1..])
  }

  // ---------- operations as JSON objects ----------

  const OP: Str := Ascii("op")
  const PATH: Str := Ascii("path")
  const VALUE: Str := Ascii("value")
  const FROM: Str := Ascii("from")

  /** get_value: a member that must be present. */
  function Member(m: map<Str, Json>, key: Str): Result<Json> {
    if key in m then Ok(m[key]) else Err(InvalidArgument)
  }

  function TextMember(m: map<Str, Json>, key: Str): Result<Str> {
    var v :- Member(m, key);
    if v.Text? then Ok(v.text) else Err(InvalidArgument)
  }

  function ReadOp(val: Json): Result<Op> {
    if !val.Object? then Err(InvalidArgument) else
      var op :- TextMember(val.members, OP);
      var text :- TextMember(val.members, PATH);
      var path :- Split(text);
      if op == Ascii("add") then
        var v :- Member(val.members, VALUE);
        Ok(Add(path, v))
      else if op == Ascii("remove") then Ok(Remove(path))
      else if op == Ascii("replace") then
        var v :- Member(val.members, VALUE);
        Ok(Replace(path, v))
      else if op == Ascii("move") then
        var fromText :- TextMember(val.members, FROM);
        var from :- Split(fromText);
        Ok(Move(path, from))
      else if op == Ascii("copy") then
        var fromText :- TextMember(val.members, FROM);
        var from :- Split(fromText);
        Ok(Copy(path, from))
      else if op == Ascii("test") then
        var v :- Member(val.members, VALUE);
        Ok(Test(path, v))
      else Err(InvalidArgument)
  }

  function ApplyDocument(j: Json, doc: seq<Json>): Result<Json>
    decreases |doc|
  {
    if doc == [] then Ok(j) else
      var op :- ReadOp(doc[0]);
      var r :- Apply(j, op);
      ApplyDocument(r, doc[1..])
  }

  /** patch: all operations in order on a working copy; the first failure is thrown. */
  method Patch(j: Json, patch: Json) returns (r: Result<Json>)
    ensures r == if patch.Array? then ApplyDocument(j, patch.elems) else Err(InvalidArgument)
  {
    var result := j;
    if !patch.Array? { return Err(InvalidArgument); }
    for i := 0 to |patch.elems|
      invariant ApplyDocument(j, patch.elems) == ApplyDocument(result, patch.elems[i..])
    {
      assert patch.elems[i..][1..] == patch.elems[i + 1..];
      var op := ReadOp(patch.elems[i]);
      if op.Err? { return Err(op.error); }
      var next := Apply(result, op.value);
      if next.Err? { return Err(next.error); }
      result := next.value;
    }
    return Ok(result);
  }

  // ---------- diff ----------

  function Deeper(token: Str, op: Op): Op {
    match op
    case Add(path, v) => Add([token] + path, v)
    case Remove(path) => Remove([token] + path)
    case Replace(path, v) => Replace([token] + path, v)
    case Move(path, from) => Move([token] + path, from)
    case Copy(path, from) => Copy([token] + path, from)
    case Test(path, v) => Test([token] + path, v)
  }

  /** The operations with `token` in front of their path. */
  function Under(token: Str, ops: seq<Op>): (r: seq<Op>)
    ensures |r| == |ops|
  {
    seq(|ops|, i requires 0 <= i < |ops| => Deeper(token, ops[i]))
  }

  /** The operations diff emits, with their paths relative to the compared values. */
  function DiffOps(s: Json, t: Json): seq<Op>
    decreases s, 2
  {
    if Equal(s, t) then []
    else if s.Array? && t.Array? then
      var common := if |s.elems| < |t.elems| then |s.elems| else |t.elems|;
      DiffElems(s, t, 0, common) + RemovedElems(common, |s.elems|) + AddedElems(t.elems, common)
    else if s.Object? && t.Object? then
      DiffMembers(s, t, SortedKeys(s.members.Keys))
        + AddedMembers(s.members, t.members, SortedKeys(t.members.Keys))
    else [Replace([], t)]
  }

  function DiffElems(s: Json, t: Json, i: nat, n: nat): seq<Op>
    requires s.Array? && t.Array? && i <= n <= |s.elems| && n <= |t.elems|
    decreases s, 0, n - i
  {
    if i == n then [] else Under(Decimal(i), DiffOps(s.elems[i], t.elems[i])) + DiffElems(s, t, i + 1, n)
  }

  /** Highest index first, so that the remaining indices stay valid. */
  function RemovedElems(i: nat, n: nat): seq<Op>
    decreases n - i
  {
    if i >= n then [] else RemovedElems(i + 1, n) + [Remove([Decimal(i)])]
  }

  function AddedElems(b: seq<Json>, i: nat): seq<Op>
    requires i <= |b|
    decreases |b| - i
  {
    if i == |b| then [] else [Add([Decimal(i)], b[i])] + AddedElems(b, i + 1)
  }

  function DiffMembers(s: Json, t: Json, keys: seq<Str>): seq<Op>
    requires s.Object? && t.Object? && forall k :: k in keys ==> k in s.members
    decreases s, 1, |keys|
  {
    if keys == [] then [] else
      MemberOps(s, t, keys[0]) + DiffMembers(s, t, keys[1..])
  }

  function MemberOps(s: Json, t: Json, k: Str): seq<Op>
    requires s.Object? && t.Object? && k in s.members
    decreases s, 0
  {
    if k in t.members then Under(k, DiffOps(s.members[k], t.members[k])) else [Remove([k])]
  }

  function AddedMembers(m: map<Str, Json>, n: map<Str, Json>, keys: seq<Str>): seq<Op>
    requires forall k :: k in keys ==> k in n
    decreases |keys|
  {
    if keys == [] then [] else
      NewMemberOps(m, n, keys[0]) + AddedMembers(m, n, keys[1..])
  }

  function NewMemberOps(m: map<Str, Json>, n: map<Str, Json>, k: Str): seq<Op>
    requires k in n
  {
    if k in m then [] else [Add([k], n[k])]
  }

  function AddObject(path: Str, v: Json): Json {
    Object(map[OP := Text(Ascii("add")), PATH := Text(path), VALUE := v])
  }

  function RemoveObject(path: Str): Json {
    Object(map[OP := Text(Ascii("remove")), PATH := Text(path)])
  }

  function ReplaceObject(path: Str, v: Json): Json {
    Object(map[OP := Text(Ascii("replace")), PATH := Text(path), VALUE := v])
  }

  /** The operation as a member of the patch document, below the pointer text `prefix`. */
  function Rendered(prefix: Str, op: Op): Json
    requires op.Add? || op.Remove? || op.Replace?
  {
    match op
    case Add(path, v) => AddObject(prefix + Path(path), v)
    case Remove(path) => RemoveObject(prefix + Path(path))
    case Replace(path, v) => ReplaceObject(prefix + Path(path), v)
  }
}
