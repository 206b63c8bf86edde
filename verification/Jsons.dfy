/** JSON values, and the equality json.hpp defines on them. */
module Jsons {
  import opened Bytes
  import opened Doubles

  /** basic_json without the discarded marker. Number widths are those of the default instantiation. */
  datatype Json =
    | Null
    | Boolean(b: bool)
    | Integer(i: int64)
    | Unsigned(u: uint64)
    | Float(bits: uint64)
    | Text(text: Str)
    | Array(elems: seq<Json>)
    | Object(members: map<Str, Json>)

  /** type() == type(). */
  predicate SameType(x: Json, y: Json) {
    match x
    case Null => y.Null?
    case Boolean(_) => y.Boolean?
    case Integer(_) => y.Integer?
    case Unsigned(_) => y.Unsigned?
    case Float(_) => y.Float?
    case Text(_) => y.Text?
    case Array(_) => y.Array?
    case Object(_) => y.Object?
  }

  predicate IsPrimitive(j: Json) { !j.Array? && !j.Object? }

  /** static_cast<int64_t> of a uint64_t. */
  function ToSigned(u: uint64): int64 {
    if u < SIGN_BIT then u else u - 2 * SIGN_BIT
  }

  /** operator==: numbers of different types are converted before they are compared. */
  predicate Equal(x: Json, y: Json) {
    match (x, y)
    case (Array(a), Array(b)) => |a| == |b| && forall i :: 0 <= i < |a| ==> Equal(a[i], b[i])
    case (Object(m), Object(n)) => m.Keys == n.Keys && forall k :: k in m ==> Equal(m[k], n[k])
    case (Float(a), Float(b)) => SameDouble(a, b)
    case (Integer(a), Float(b)) => SameDouble(FromInteger(a), b)
    case (Float(a), Integer(b)) => SameDouble(a, FromInteger(b))
    case (Unsigned(a), Float(b)) => SameDouble(FromInteger(a), b)
    case (Float(a), Unsigned(b)) => SameDouble(a, FromInteger(b))
    case (Unsigned(a), Integer(b)) => ToSigned(a) == b
    case (Integer(a), Unsigned(b)) => a == ToSigned(b)
    case _ => x == y
  }

  /** No NaN occurs in the value: exactly the values that equal themselves. */
  predicate NanFree(j: Json) {
    match j
    case Float(bits) => !IsNaN(bits)
    case Array(a) => forall i :: 0 <= i < |a| ==> NanFree(a[i])
    case Object(m) => forall k :: k in m ==> NanFree(m[k])
    case _ => true
  }

  lemma {:induction false} EqualNeedsNoNan(x: Json, y: Json)
    requires Equal(x, y)
    ensures NanFree(x) && NanFree(y)
  {
    match (x, y)
    case (Array(a), Array(b)) =>
      forall i | 0 <= i < |a| ensures NanFree(a[i]) && NanFree(b[i]) { EqualNeedsNoNan(a[i], b[i]); }
    case (Object(m), Object(n)) =>
      forall k | k in m ensures NanFree(m[k]) && NanFree(n[k]) { EqualNeedsNoNan(m[k], n[k]); }
    case _ =>
  }

  lemma {:induction false} EqualReflexive(j: Json)
    ensures Equal(j, j) <==> NanFree(j)
  {
    match j
    case Array(a) => forall i | 0 <= i < |a| ensures Equal(a[i], a[i]) <==> NanFree(a[i]) { EqualReflexive(a[i]); }
    case Object(m) => forall k | k in m ensures Equal(m[k], m[k]) <==> NanFree(m[k]) { EqualReflexive(m[k]); }
    case _ =>
  }

  // ---------- what a format without signed non-negative numbers gives back ----------

  /** The value with non-negative signed numbers turned into unsigned ones. */
  function Canonical(j: Json): Json
    decreases j, 1
  {
    match j
    case Integer(i) => if i >= 0 then Unsigned(i) else j
    case Array(a) => Array(CanonicalAll(a))
    case Object(m) => Object(map k | k in m :: Canonical(m[k]))
    case _ => j
  }

  function CanonicalAll(a: seq<Json>): (r: seq<Json>)
    ensures |r| == |a| && forall i :: 0 <= i < |a| ==> r[i] == Canonical(a[i])
    decreases a, 0
  {
    seq(|a|, i requires 0 <= i < |a| => Canonical(a[i]))
  }

  lemma {:induction false} CanonicalEqual(j: Json)
    ensures Equal(Canonical(j), j) <==> NanFree(j)
  {
    match j
    case Array(a) =>
      forall i | 0 <= i < |a| ensures Equal(Canonical(a[i]), a[i]) <==> NanFree(a[i]) { CanonicalEqual(a[i]); }
    case Object(m) =>
      forall k | k in m ensures Equal(Canonical(m[k]), m[k]) <==> NanFree(m[k]) { CanonicalEqual(m[k]); }
    case _ =>
  }

  /** The members whose keys are among the first i. */
  ghost function CanonicalFirst(j: Json, keys: seq<Str>, i: nat): map<Str, Json>
    requires j.Object? && (forall k :: k in keys <==> k in j.members) && i <= |keys|
  {
    map k | k in j.members && k in keys[..i] :: Canonical(j.members[k])
  }

  lemma CanonicalNone(j: Json, keys: seq<Str>)
    requires j.Object? && (forall k :: k in keys <==> k in j.members)
    ensures CanonicalFirst(j, keys, 0) == map[]
  {
  }

  lemma CanonicalNext(j: Json, keys: seq<Str>, i: nat)
    requires j.Object? && (forall k :: k in keys <==> k in j.members) && i < |keys|
    ensures CanonicalFirst(j, keys, i)[keys[i] := Canonical(j.members[keys[i]])] == CanonicalFirst(j, keys, i + 1)
  {
    assert keys[..i + 1] == keys[..i] + [keys[i]];
  }

  lemma CanonicalWhole(j: Json, keys: seq<Str>)
    requires j.Object? && (forall k :: k in keys <==> k in j.members)
    ensures Object(CanonicalFirst(j, keys, |keys|)) == Canonical(j)
  {
    assert keys[..|keys|] == keys;
    assert CanonicalFirst(j, keys, |keys|) == map k | k in j.members :: Canonical(j.members[k]);
  }
}
