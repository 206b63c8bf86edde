/** Members inserted into a map one after the other, as result[key] = value does. */
module Insertions {

  function Inserted<K, V>(members: map<K, V>, pairs: seq<(K, V)>): map<K, V>
    decreases |pairs|
  {
    if pairs == [] then members else Inserted(members[pairs[0].0 := pairs[0].1], pairs[1..])
  }

  /** The last pair with key k has value v. */
  ghost predicate LastIs<K, V>(pairs: seq<(K, V)>, k: K, v: V) {
    exists i :: 0 <= i < |pairs| && pairs[i] == (k, v) && forall n :: i < n < |pairs| ==> pairs[n].0 != k
  }

  ghost predicate Occurs<K, V>(pairs: seq<(K, V)>, k: K) {
    exists i :: 0 <= i < |pairs| && pairs[i].0 == k
  }

  /** The later of two equal keys wins. */
  lemma {:induction false} LaterKeyWins<K, V>(members: map<K, V>, pairs: seq<(K, V)>, k: K)
    ensures var r := Inserted(members, pairs);
      && (k in r <==> k in members || Occurs(pairs, k))
      && (k in r ==> if Occurs(pairs, k) then LastIs(pairs, k, r[k]) else r[k] == members[k])
    decreases |pairs|
  {
    hide LastIs, Occurs;
    if pairs == [] {
      NoneOccurs(pairs, k);
    } else {
      LaterKeyWins(members[pairs[0].0 := pairs[0].1], pairs[1..], k);
      OccursFirst(pairs, k);
      if k in Inserted(members, pairs) { LastFirst(pairs, k, Inserted(members, pairs)[k]); }
    }
  }

  lemma NoneOccurs<K, V>(pairs: seq<(K, V)>, k: K)
    requires pairs == []
    ensures !Occurs(pairs, k)
  {
  }

  lemma OccursFirst<K, V>(pairs: seq<(K, V)>, k: K)
    requires pairs != []
    ensures Occurs(pairs, k) <==> pairs[0].0 == k || Occurs(pairs[1..], k)
  {
    if Occurs(pairs, k) {
      var i :| 0 <= i < |pairs| && pairs[i].0 == k;
      if i > 0 { assert pairs[1..][i - 1].0 == k; }
    }
    if Occurs(pairs[1..], k) {
      var i :| 0 <= i < |pairs| - 1 && pairs[1..][i].0 == k;
      assert pairs[i + 1].0 == k;
    }
  }

  lemma LastFirst<K, V>(pairs: seq<(K, V)>, k: K, v: V)
    requires pairs != []
    ensures LastIs(pairs[1..], k, v) ==> LastIs(pairs, k, v)
    ensures pairs[0] == (k, v) && !Occurs(pairs[1..], k) ==> LastIs(pairs, k, v)
  {
    var rest := pairs[1..];
    if LastIs(rest, k, v) {
      var i :| 0 <= i < |rest| && rest[i] == (k, v) && forall n :: i < n < |rest| ==> rest[n].0 != k;
      forall n | i + 1 < n < |pairs| ensures pairs[n].0 != k { assert rest[n - 1].0 != k; }
      assert pairs[i + 1] == (k, v);
    }
    if pairs[0] == (k, v) && !Occurs(rest, k) {
      forall n | 0 < n < |pairs| ensures pairs[n].0 != k { assert rest[n - 1].0 != k; }
    }
  }
}
