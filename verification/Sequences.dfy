/** Sequences without repetitions, and their elements. */
module Sequences {

  predicate Distinct<T(==)>(s: seq<T>) {
    forall i, j :: 0 <= i < j < |s| ==> s[i] != s[j]
  }

  function Elems<T>(s: seq<T>): set<T> { set x | x in s }

  lemma {:induction false} DistinctCount<T>(s: seq<T>)
    requires Distinct(s)
    ensures |Elems(s)| == |s|
  {
    if s != [] {
      var (n, last) := (|s| - 1, s[|s| - 1]);
      DistinctCount(s[..n]);
      assert Elems(s) == Elems(s[..n]) + {last};
    }
  }
}
