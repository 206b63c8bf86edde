/** Resolving JSON Pointers inside a value: get_checked, get_unchecked and the edits made through the references they return. */
module JsonPointers {
  import opened Bytes
  import opened Decimals
  import opened JsonPointerText
  import opened Jsons
  import opened Wrappers

  /** An index token as at() reads it; a negative number converts to a size beyond any array. */
  function CheckedIndex(size: nat, token: Str): (r: Result<nat>)
    ensures r.Ok? ==> r.value < size
  {
    if token == [MINUS] then Err(OutOfRange)
    else if |token| > 1 && token[0] == ZERO then Err(DomainError)
    else
      var i :- Stoi(token);
      if 0 <= i < size then Ok(i) else Err(OutOfRange)
  }

  /** at(token): one step of get_checked. */
  function Child(j: Json, token: Str): Result<Json> {
    match j
    case Object(m) => if token in m then Ok(m[token]) else Err(OutOfRange)
    case Array(a) =>
      var i :- CheckedIndex(|a|, token);
      Ok(a[i])
    case _ => Err(OutOfRange)
  }

  /** The value after an assignment through the reference at(token) returned. */
  function WithChild(j: Json, token: Str, c: Json): (r: Json)
    requires Child(j, token).Ok?
    ensures Child(r, token) == Ok(c)
  {
    match j
    case Object(m) => Object(m[token := c])
    case Array(a) => Array(a[CheckedIndex(|a|, token).value := c])
  }

  function GetChecked(j: Json, tokens: seq<Str>): Result<Json>
    decreases |tokens|
  {
    if tokens == [] then Ok(j) else
      var c :- Child(j, tokens[0]);
      GetChecked(c, tokens[1..])
  }

  method At(j: Json, tokens: seq<Str>) returns (r: Result<Json>)
    ensures r == GetChecked(j, tokens)
  {
    var ptr := j;
    for i := 0 to |tokens|
      invariant GetChecked(j, tokens) == GetChecked(ptr, tokens[i..])
    {
      assert tokens[i..][1..] == tokens[i + 1..];
      var c := Child(ptr, tokens[i]);
      if c.Err? { return Err(c.error); }
      ptr := c.value;
    }
    return Ok(ptr);
  }

  /** The whole value after an edit of the node that at(tokens) refers to. */
  function EditChecked(j: Json, tokens: seq<Str>, edit: Json -> Result<Json>): Result<Json>
    decreases |tokens|
  {
    if tokens == [] then edit(j) else
      var c :- Child(j, tokens[0]);
      var r :- EditChecked(c, tokens[1..], edit);
      Ok(WithChild(j, tokens[0], r))
  }

  // ---------- get_unchecked: missing nodes are created ----------

  predicate LooksNumeric(token: Str) {
    token == [MINUS] || forall i :: 0 <= i < |token| ==> IsDigit(token[i])
  }

  /** A null on the way becomes an array or an object, depending on the token that follows. */
  function Opened(j: Json, token: Str): Json {
    if j != Null then j else if LooksNumeric(token) then Array([]) else Object(map[])
  }

  /** operator[](index) of an array: it grows with nulls up to the index. */
  function Padded(a: seq<Json>, i: nat): (b: seq<Json>)
    ensures i < |b|
    ensures i < |a| ==> b == a
  {
    if i < |a| then a else a + seq(i + 1 - |a|, _ => Null)
  }

  function UncheckedIndex(size: nat, token: Str): (r: Result<nat>)
  {
    if |token| > 1 && token[0] == ZERO then Err(DomainError)
    else if token == [MINUS] then Ok(size)
    else
      var i :- Stoi(token);
      if i < 0 then Err(LengthError) else Ok(i)
  }

  /** The whole value after an edit of the node that operator[](tokens) refers to. */
  function EditUnchecked(j: Json, tokens: seq<Str>, edit: Json -> Result<Json>): Result<Json>
    decreases |tokens|
  {
    if tokens == [] then edit(j) else
      match Opened(j, tokens[0])
      case Object(m) =>
        var r :- EditUnchecked(if tokens[0] in m then m[tokens[0]] else Null, tokens[1..], edit);
        Ok(Object(m[tokens[0] := r]))
      case Array(a) =>
        var i :- UncheckedIndex(|a|, tokens[0]);
        var b := Padded(a, i);
        var r :- EditUnchecked(b[i], tokens[1..], edit);
        Ok(Array(b[i := r]))
      case _ => Err(OutOfRange)
  }

  // ---------- index tokens printed by to_string(i) ----------

  lemma IndexToken(i: nat, size: nat)
    requires i <= INT_MAX
    ensures CheckedIndex(size, Decimal(i)) == if i < size then Ok(i) else Err(OutOfRange)
    ensures Stoi(Decimal(i)) == Ok(i) && Decimal(i) != [MINUS]
  {
    StoiInvertsDecimal(i);
    assert IsDigit(Decimal(i)[0]);
  }

  lemma {:induction false} DigitsNeedNoEscape(s: Str)
    requires AllDigits(s)
    ensures Escaped(s) == s
  {
    if s != [] { DigitsNeedNoEscape(s[1..]); }
  }

  /** Every array is short enough for its indices to survive std::stoi. */
  predicate IndicesFit(j: Json) {
    match j
    case Array(a) => |a| <= INT_MAX + 1 && forall i :: 0 <= i < |a| ==> IndicesFit(a[i])
    case Object(m) => forall k :: k in m ==> IndicesFit(m[k])
    case _ => true
  }
}
