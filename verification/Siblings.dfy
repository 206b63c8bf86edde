/** Doubly linked sibling lists as values: the links of all nodes, and the trees they describe. */
module Siblings {
  import opened Sequences
  import opened Wrappers

  datatype Links<T> = Links(parent: Option<T>, first: Option<T>, last: Option<T>, prev: Option<T>, next: Option<T>)

  /** The element of a list at an index, or nothing. */
  function Peek<T>(ks: seq<T>, i: int): Option<T> {
    if 0 <= i < |ks| then Some(ks[i]) else None
  }

  predicate ChildOk<T(==)>(s: map<T, Links<T>>, p: T, ks: seq<T>, i: nat)
    requires i < |ks|
  {
    && ks[i] in s && s[ks[i]].parent == Some(p)
    && s[ks[i]].prev == Peek(ks, i - 1) && s[ks[i]].next == Peek(ks, i + 1)
  }

  /** The children of p are ks, in this order, linked in both directions. */
  predicate ListOk<T(==)>(s: map<T, Links<T>>, p: T, ks: seq<T>) {
    && p in s && s[p].first == Peek(ks, 0) && s[p].last == Peek(ks, |ks| - 1)
    && Distinct(ks)
    && forall i :: 0 <= i < |ks| ==> ChildOk(s, p, ks, i)
  }

  /** A node without a parent has no siblings; one with a parent is in its list. */
  predicate PlaceOk<T(==)>(s: map<T, Links<T>>, kids: map<T, seq<T>>, n: T)
    requires n in s
  {
    match s[n].parent
    case None => s[n].prev == None && s[n].next == None
    case Some(p) => p in kids && n in kids[p]
  }

  predicate WellLinked<T(==)>(s: map<T, Links<T>>, kids: map<T, seq<T>>) {
    && s.Keys == kids.Keys
    && (forall p :: p in kids ==> ListOk(s, p, kids[p]))
    && forall n :: n in s ==> PlaceOk(s, kids, n)
  }

  /** No node is its own descendant: there is a rank that grows from parent to child. */
  predicate Ranked<T(==)>(s: map<T, Links<T>>, rank: map<T, nat>) {
    && s.Keys == rank.Keys
    && forall n :: n in s && s[n].parent.Some? ==> s[n].parent.value in rank && rank[s[n].parent.value] < rank[n]
  }

  predicate Forest<T(==)>(s: map<T, Links<T>>, kids: map<T, seq<T>>, rank: map<T, nat>) {
    WellLinked(s, kids) && Ranked(s, rank)
  }

  /** n is c or one of its descendants. */
  predicate IsUnder<T(==)>(s: map<T, Links<T>>, rank: map<T, nat>, n: T, c: T)
    requires Ranked(s, rank) && n in s
    decreases rank[n]
  {
    n == c || (s[n].parent.Some? && IsUnder(s, rank, s[n].parent.value, c))
  }

  // ---------- linking and unlinking ----------

  /** Where the list of p is `front + back`, and c stands, or is to stand, between the two. */
  predicate Spliced<T(==)>(s: map<T, Links<T>>, s': map<T, Links<T>>, p: T, front: seq<T>, back: seq<T>, c: T, inside: bool)
  {
    var (left, right) := (Peek(front, |front| - 1), Peek(back, 0));
    && p in s && c in s && s'.Keys == s.Keys
    && s'[c] == (if inside then s[c].(parent := Some(p), prev := left, next := right)
                 else s[c].(parent := None, prev := None, next := None))
    && s'[p] == s[p].(first := if front == [] then (if inside then Some(c) else right) else s[p].first,
                      last := if back == [] then (if inside then Some(c) else left) else s[p].last)
    && (left.Some? ==> left.value in s && s'[left.value] == s[left.value].(next := if inside then Some(c) else right))
    && (right.Some? ==> right.value in s && s'[right.value] == s[right.value].(prev := if inside then Some(c) else left))
    && forall n :: n in s && n != c && n != p && Some(n) != left && Some(n) != right ==> s'[n] == s[n]
  }

  lemma NotOwnChild<T>(s: map<T, Links<T>>, kids: map<T, seq<T>>, rank: map<T, nat>, p: T, n: T)
    requires Forest(s, kids, rank) && p in kids && n in kids[p]
    ensures n != p && n in s && s[n].parent == Some(p) && rank[p] < rank[n]
  {
    var i :| 0 <= i < |kids[p]| && kids[p][i] == n;
    assert ChildOk(s, p, kids[p], i);
  }

  /** The lists of other parents do not change. */
  lemma OtherList<T>(s: map<T, Links<T>>, s': map<T, Links<T>>, q: T, ks: seq<T>)
    requires ListOk(s, q, ks) && s'.Keys == s.Keys
    requires s'[q].first == s[q].first && s'[q].last == s[q].last
    requires forall n :: n in s && s[n].parent == Some(q) ==> s'[n].parent == Some(q) && s'[n].prev == s[n].prev && s'[n].next == s[n].next
    ensures ListOk(s', q, ks)
  {
    forall i | 0 <= i < |ks| ensures ChildOk(s', q, ks, i) {
      assert ChildOk(s, q, ks, i);
    }
  }

  /** The neighbours of c change their links to each other, and nothing else. */
  lemma SpliceEffect<T>(s: map<T, Links<T>>, s': map<T, Links<T>>, p: T, front: seq<T>, back: seq<T>, c: T, inside: bool)
    requires p in s && c in s && c != p
    requires forall n :: n in front || n in back ==> n != p && n in s && s[n].parent == Some(p)
    requires Spliced(s, s', p, front, back, c, inside)
    ensures forall n :: n in s && n != c ==> s'[n].parent == s[n].parent
    ensures forall n :: n in s && n != p ==> s'[n].first == s[n].first && s'[n].last == s[n].last
    ensures forall n :: n in s && n != c && s[n].parent != Some(p) ==> s'[n].prev == s[n].prev && s'[n].next == s[n].next
  {
    assert front != [] ==> front[|front| - 1] in front;
    assert back != [] ==> back[0] in back;
  }

  function Middle<T>(c: T, inside: bool): seq<T> { if inside then [c] else [] }

  lemma FrontChild<T>(s: map<T, Links<T>>, s': map<T, Links<T>>, p: T, front: seq<T>, back: seq<T>, c: T, inside: bool, i: nat)
    requires ListOk(s, p, front + Middle(c, !inside) + back) && Spliced(s, s', p, front, back, c, inside)
    requires p !in front && c !in front && i < |front|
    ensures ChildOk(s', p, front + Middle(c, inside) + back, i)
  {
    var (ks, ks') := (front + Middle(c, !inside) + back, front + Middle(c, inside) + back);
    assert ks[i] == front[i] && ks'[i] == front[i] && ChildOk(s, p, ks, i);
    assert Peek(ks, i - 1) == Peek(ks', i - 1);
    if i < |front| - 1 {
      assert ks[i + 1] == front[i + 1] && ks'[i + 1] == front[i + 1];
      assert front[i] != front[|front| - 1] && ks[|front| - 1] == front[|front| - 1];
      assert back != [] ==> ks[|ks| - |back|] == back[0];
      assert s'[front[i]] == s[front[i]];
    }
  }

  lemma BackChild<T>(s: map<T, Links<T>>, s': map<T, Links<T>>, p: T, front: seq<T>, back: seq<T>, c: T, inside: bool, j: nat)
    requires ListOk(s, p, front + Middle(c, !inside) + back) && Spliced(s, s', p, front, back, c, inside)
    requires p !in back && c !in back && j < |back|
    ensures ChildOk(s', p, front + Middle(c, inside) + back, |front| + |Middle(c, inside)| + j)
  {
    var (ks, ks') := (front + Middle(c, !inside) + back, front + Middle(c, inside) + back);
    var (i, i') := (|ks| - |back| + j, |ks'| - |back| + j);
    assert ks[i] == back[j] && ks'[i'] == back[j] && ChildOk(s, p, ks, i);
    assert Peek(ks, i + 1) == Peek(ks', i' + 1);
    if j > 0 {
      assert ks[i - 1] == back[j - 1] && ks'[i' - 1] == back[j - 1];
      assert ks[|ks| - |back|] == back[0] && back[j] != back[0];
      assert front != [] ==> ks[|front| - 1] == front[|front| - 1];
      assert s'[back[j]] == s[back[j]];
    }
  }

  lemma DropMiddle<T>(front: seq<T>, c: T, back: seq<T>)
    requires Distinct(front + [c] + back)
    ensures c !in front && c !in back && Distinct(front + [] + back)
  {
    var (ks, ks') := (front + [c] + back, front + [] + back);
    var f := |front|;
    assert ks[f] == c;
    assert forall i :: 0 <= i < |front| ==> ks[i] == front[i];
    assert forall i :: 0 <= i < |back| ==> ks[f + 1 + i] == back[i];
    forall i, j | 0 <= i < j < |ks'| ensures ks'[i] != ks'[j] {
      SameWithout(front, c, back, i);
      SameWithout(front, c, back, j);
    }
  }

  lemma SameWithout<T>(front: seq<T>, c: T, back: seq<T>, i: nat)
    requires i < |front| + |back|
    ensures (front + [] + back)[i] == (front + [c] + back)[if i < |front| then i else i + 1]
  {
  }

  lemma AddMiddle<T>(front: seq<T>, c: T, back: seq<T>)
    requires Distinct(front + [] + back) && c !in front && c !in back
    ensures Distinct(front + [c] + back)
  {
    var (ks, ks') := (front + [] + back, front + [c] + back);
    var f := |front|;
    forall i, j | 0 <= i < j < |ks'| ensures ks'[i] != ks'[j] {
      if i == f {
        assert ks'[j] == back[j - f - 1];
      } else if j == f {
        assert ks'[i] == front[i];
      } else {
        SameWithout(front, c, back, if i < f then i else i - 1);
        SameWithout(front, c, back, if j < f then j else j - 1);
      }
    }
  }

  /** The list of p after the splice. */
  lemma SplicedList<T>(s: map<T, Links<T>>, s': map<T, Links<T>>, p: T, front: seq<T>, back: seq<T>, c: T, inside: bool)
    requires c != p
    requires ListOk(s, p, front + Middle(c, !inside) + back) && Spliced(s, s', p, front, back, c, inside)
    requires p !in front && p !in back && (inside ==> c !in front && c !in back)
    ensures ListOk(s', p, front + Middle(c, inside) + back)
  {
    var (ks, ks') := (front + Middle(c, !inside) + back, front + Middle(c, inside) + back);
    if inside { AddMiddle(front, c, back); } else { DropMiddle(front, c, back); }
    forall i | 0 <= i < |ks'| ensures ChildOk(s', p, ks', i) {
      if i < |front| {
        FrontChild(s, s', p, front, back, c, inside, i);
      } else if i >= |ks'| - |back| {
        BackChild(s, s', p, front, back, c, inside, i - (|ks'| - |back|));
      }
    }
  }

  lemma MembersOf<T>(s: map<T, Links<T>>, kids: map<T, seq<T>>, rank: map<T, nat>, p: T, front: seq<T>, back: seq<T>, c: T, inside: bool)
    requires Forest(s, kids, rank) && p in kids && c in s
    requires kids[p] == front + Middle(c, !inside) + back && (inside ==> s[c].parent == None)
    ensures p !in front && p !in back && (inside ==> c !in front && c !in back)
    ensures !inside ==> s[c].parent == Some(p)
    ensures forall n :: n in front || n in back ==> n != p && n in s && s[n].parent == Some(p)
  {
    hide Forest, ListOk, PlaceOk;
    var ks := kids[p];
    if !inside {
      assert ks[|front|] == c;
      NotOwnChild(s, kids, rank, p, c);
    }
    assert forall n :: n in front || n in back ==> n in ks;
    forall n | n in front || n in back ensures n != p && n in s && s[n].parent == Some(p) && (inside ==> n != c) {
      NotOwnChild(s, kids, rank, p, n);
    }
  }

  lemma PlaceKept<T>(s: map<T, Links<T>>, s': map<T, Links<T>>, kids: map<T, seq<T>>,
                     p: T, front: seq<T>, back: seq<T>, c: T, inside: bool, n: T)
    requires s'.Keys == s.Keys == kids.Keys && n in s && p in kids && c in s && PlaceOk(s, kids, n)
    requires kids[p] == front + Middle(c, !inside) + back
    requires if inside then s'[c].parent == Some(p) else s'[c].parent == None && s'[c].prev == None && s'[c].next == None
    requires n != c ==> s'[n].parent == s[n].parent
    requires n != c && s[n].parent != Some(p) ==> s'[n].prev == s[n].prev && s'[n].next == s[n].next
    ensures PlaceOk(s', kids[p := front + Middle(c, inside) + back], n)
  {
    if n == c {
      assert inside ==> (front + [c] + back)[|front|] == c;
    } else if s[n].parent == Some(p) {
      assert n in front || n in back;
    }
  }

  /** A splice keeps all sibling lists well formed; only the list of p changes. */
  lemma SpliceKeepsLinks<T>(s: map<T, Links<T>>, s': map<T, Links<T>>, kids: map<T, seq<T>>, rank: map<T, nat>,
                            p: T, front: seq<T>, back: seq<T>, c: T, inside: bool)
    requires Forest(s, kids, rank) && p in kids && c in s && c != p
    requires kids[p] == front + Middle(c, !inside) + back && (inside ==> s[c].parent == None)
    requires Spliced(s, s', p, front, back, c, inside)
    ensures WellLinked(s', kids[p := front + Middle(c, inside) + back])
  {
    hide ListOk, PlaceOk, Spliced;
    var kids' := kids[p := front + Middle(c, inside) + back];
    MembersOf(s, kids, rank, p, front, back, c, inside);
    SplicedList(s, s', p, front, back, c, inside);
    SpliceEffect(s, s', p, front, back, c, inside);
    SplicedNode(s, s', p, front, back, c, inside);
    forall q | q in kids' ensures ListOk(s', q, kids'[q]) {
      if q != p { OtherList(s, s', q, kids[q]); }
    }
    forall n | n in s' ensures PlaceOk(s', kids', n) {
      PlaceKept(s, s', kids, p, front, back, c, inside, n);
    }
  }

  lemma SplicedNode<T>(s: map<T, Links<T>>, s': map<T, Links<T>>, p: T, front: seq<T>, back: seq<T>, c: T, inside: bool)
    requires Spliced(s, s', p, front, back, c, inside)
    ensures s'.Keys == s.Keys && p in s && c in s
    ensures if inside then s'[c].parent == Some(p) else s'[c].parent == None && s'[c].prev == None && s'[c].next == None
    ensures s'[c].first == s[c].first && s'[c].last == s[c].last
  {
  }

  // ---------- descendants ----------

  /** When c goes below p, everything under c moves up in rank. */
  function Raised<T>(s: map<T, Links<T>>, rank: map<T, nat>, p: T, c: T): map<T, nat>
    requires Ranked(s, rank) && p in rank
  {
    map n | n in rank :: rank[n] + if IsUnder(s, rank, n, c) then rank[p] + 1 else 0
  }

  lemma LinkKeepsRanks<T>(s: map<T, Links<T>>, s': map<T, Links<T>>, rank: map<T, nat>, p: T, c: T)
    requires Ranked(s, rank) && s'.Keys == s.Keys && p in s && c in s
    requires s[c].parent == None && !IsUnder(s, rank, p, c)
    requires s'[c].parent == Some(p) && forall n :: n in s && n != c ==> s'[n].parent == s[n].parent
    ensures Ranked(s', Raised(s, rank, p, c))
  {
    var rank' := Raised(s, rank, p, c);
    forall n | n in s' && s'[n].parent.Some?
      ensures s'[n].parent.value in rank' && rank'[s'[n].parent.value] < rank'[n]
    {
      if n != c { assert IsUnder(s, rank, n, c) <==> IsUnder(s, rank, s[n].parent.value, c); }
    }
  }

  lemma UnlinkKeepsRanks<T>(s: map<T, Links<T>>, s': map<T, Links<T>>, rank: map<T, nat>, c: T)
    requires Ranked(s, rank) && s'.Keys == s.Keys && c in s && s'[c].parent == None
    requires forall n :: n in s && n != c ==> s'[n].parent == s[n].parent
    ensures Ranked(s', rank)
  {
  }

  /** Descent depends on the parent links on the way up to c alone. */
  lemma {:induction false} UnderKept<T>(s: map<T, Links<T>>, rank: map<T, nat>, s': map<T, Links<T>>, rank': map<T, nat>, n: T, c: T)
    requires Ranked(s, rank) && Ranked(s', rank') && n in s' && s'.Keys <= s.Keys
    requires forall m :: m in s' && m != c ==> s'[m].parent == s[m].parent
    ensures IsUnder(s', rank', n, c) <==> IsUnder(s, rank, n, c)
    decreases rank'[n]
  {
    if n != c && s'[n].parent.Some? { UnderKept(s, rank, s', rank', s'[n].parent.value, c); }
  }

  /** A node without children has no descendants. */
  lemma {:induction false} NoneUnder<T>(s: map<T, Links<T>>, kids: map<T, seq<T>>, rank: map<T, nat>, n: T, c: T)
    requires Forest(s, kids, rank) && n in s && c in kids && kids[c] == [] && IsUnder(s, rank, n, c)
    ensures n == c
    decreases rank[n]
  {
    if n != c {
      assert PlaceOk(s, kids, n);
      NoneUnder(s, kids, rank, s[n].parent.value, c);
    }
  }

  /** If every other node has a parent, all nodes are below the root; a root without children is the only node. */
  lemma {:induction false} OnlyRoot<T>(s: map<T, Links<T>>, kids: map<T, seq<T>>, rank: map<T, nat>, root: T, n: T)
    requires Forest(s, kids, rank) && n in s && root in kids && kids[root] == []
    requires forall m :: m in s && m != root ==> s[m].parent.Some?
    ensures n == root
    decreases rank[n]
  {
    if n != root {
      assert PlaceOk(s, kids, n);
      OnlyRoot(s, kids, rank, root, s[n].parent.value);
    }
  }

  lemma RemoveLeaf<T>(s: map<T, Links<T>>, kids: map<T, seq<T>>, rank: map<T, nat>, c: T)
    requires Forest(s, kids, rank) && c in s && s[c].parent == None && kids[c] == []
    ensures Forest(s - {c}, kids - {c}, rank - {c})
  {
    hide ListOk;
    var (s', kids') := (s - {c}, kids - {c});
    forall p | p in kids' ensures ListOk(s', p, kids'[p]) {
      ListWithout(s, p, kids[p], c);
    }
    forall n | n in s' ensures PlaceOk(s', kids', n) {
      assert PlaceOk(s, kids, n);
    }
    forall n | n in s' && s'[n].parent.Some? ensures s'[n].parent.value in rank - {c} {
      assert PlaceOk(s, kids, n);
    }
  }

  lemma ListWithout<T>(s: map<T, Links<T>>, p: T, ks: seq<T>, c: T)
    requires ListOk(s, p, ks) && p != c && c in s && s[c].parent == None
    ensures ListOk(s - {c}, p, ks)
  {
    forall i | 0 <= i < |ks| ensures ChildOk(s - {c}, p, ks, i) {
      assert ChildOk(s, p, ks, i);
    }
  }

  lemma RootAlone<T>(root: T)
    ensures Forest(map[root := Links(None, None, None, None, None)], map[root := []], map[root := 0])
  {
    var none: map<T, Links<T>> := map[];
    AddLeaf(none, map[], map[], root);
    assert none[root := Links(None, None, None, None, None)] == map[root := Links(None, None, None, None, None)];
  }

  lemma AddLeaf<T>(s: map<T, Links<T>>, kids: map<T, seq<T>>, rank: map<T, nat>, c: T)
    requires Forest(s, kids, rank) && c !in s
    ensures Forest(s[c := Links(None, None, None, None, None)], kids[c := []], rank[c := 0])
  {
    hide ListOk;
    var (s', kids') := (s[c := Links(None, None, None, None, None)], kids[c := []]);
    forall p | p in kids' ensures ListOk(s', p, kids'[p]) {
      if p == c { NewList(s', c); } else { ListWith(s, p, kids[p], c); }
    }
    forall n | n in s' ensures PlaceOk(s', kids', n) {
      if n != c { assert PlaceOk(s, kids, n); }
    }
  }

  lemma NewList<T>(s: map<T, Links<T>>, c: T)
    requires c in s && s[c] == Links(None, None, None, None, None)
    ensures ListOk(s, c, [])
  {
  }

  lemma ListWith<T>(s: map<T, Links<T>>, p: T, ks: seq<T>, c: T)
    requires ListOk(s, p, ks) && c !in s
    ensures ListOk(s[c := Links(None, None, None, None, None)], p, ks)
  {
    var s' := s[c := Links(None, None, None, None, None)];
    forall i | 0 <= i < |ks| ensures ChildOk(s', p, ks, i) {
      assert ChildOk(s, p, ks, i);
    }
  }

  /** What the links around a child say. */
  lemma AroundChild<T>(s: map<T, Links<T>>, kids: map<T, seq<T>>, rank: map<T, nat>, p: T, front: seq<T>, back: seq<T>, c: T)
    requires Forest(s, kids, rank) && p in kids && kids[p] == front + [c] + back
    ensures c in s && c != p && s[c].parent == Some(p)
    ensures s[c].prev == Peek(front, |front| - 1) && s[c].next == Peek(back, 0)
    ensures s[p].first == (if front == [] then Some(c) else Some(front[0])) && (front != [] ==> front[0] != c)
    ensures s[p].last == (if back == [] then Some(c) else Some(back[|back| - 1])) && (back != [] ==> back[|back| - 1] != c)
    ensures forall n :: n in front || n in back ==> n in s && n != p && n != c
    ensures front != [] ==> front[|front| - 1] in s && front[|front| - 1] != p && front[|front| - 1] != c
    ensures back != [] ==> back[0] in s && back[0] != p && back[0] != c
    ensures front != [] && back != [] ==> front[|front| - 1] != back[0]
  {
    var ks := kids[p];
    var f := |front|;
    assert ks[f] == c && ChildOk(s, p, ks, f);
    assert forall i :: 0 <= i < f ==> ks[i] == front[i];
    assert forall i :: 0 <= i < |back| ==> ks[f + 1 + i] == back[i];
    NotOwnChild(s, kids, rank, p, c);
    forall n | n in front || n in back ensures n in s && n != p && n != c {
      assert n in ks;
      NotOwnChild(s, kids, rank, p, n);
    }
  }

  // ---------- the lists without a node ----------

  function Without<T(==)>(ks: seq<T>, c: T): seq<T> {
    if ks == [] then [] else if ks[0] == c then ks[1..] else [ks[0]] + Without(ks[1..], c)
  }

  /** All lists, with c taken out of the one it is in. */
  function Detached<T(==)>(kids: map<T, seq<T>>, c: T): map<T, seq<T>> {
    map p | p in kids :: Without(kids[p], c)
  }

  lemma {:induction false} WithoutNone<T>(ks: seq<T>, c: T)
    requires c !in ks
    ensures Without(ks, c) == ks
  {
    if ks != [] { WithoutNone(ks[1..], c); }
  }

  lemma {:induction false} WithoutMiddle<T>(front: seq<T>, c: T, back: seq<T>)
    requires c !in front
    ensures Without(front + [c] + back, c) == front + back
  {
    var ks := front + [c] + back;
    if front == [] {
      assert ks[0] == c && ks[1..] == back;
    } else {
      assert ks[0] == front[0] && ks[1..] == front[1..] + [c] + back;
      WithoutMiddle(front[1..], c, back);
    }
  }

  lemma DetachedFrom<T>(s: map<T, Links<T>>, kids: map<T, seq<T>>, rank: map<T, nat>, p: T, front: seq<T>, c: T, back: seq<T>)
    requires Forest(s, kids, rank) && p in kids && kids[p] == front + [c] + back
    ensures Detached(kids, c) == kids[p := front + [] + back]
  {
    AroundChild(s, kids, rank, p, front, back, c);
    WithoutMiddle(front, c, back);
    assert front + [] + back == front + back;
    forall q | q in kids && q != p ensures Without(kids[q], c) == kids[q] {
      if c in kids[q] { NotOwnChild(s, kids, rank, q, c); }
      WithoutNone(kids[q], c);
    }
  }

  lemma DetachedFromNone<T>(s: map<T, Links<T>>, kids: map<T, seq<T>>, rank: map<T, nat>, c: T)
    requires Forest(s, kids, rank) && c in s && s[c].parent == None
    ensures Detached(kids, c) == kids
  {
    forall q | q in kids ensures Without(kids[q], c) == kids[q] {
      if c in kids[q] { NotOwnChild(s, kids, rank, q, c); }
      WithoutNone(kids[q], c);
    }
  }

  /** Where a child stands in the list of its parent. */
  lemma SplitAt<T>(ks: seq<T>, c: T) returns (front: seq<T>, back: seq<T>)
    requires c in ks
    ensures ks == front + [c] + back
  {
    var i :| 0 <= i < |ks| && ks[i] == c;
    front, back := ks[..i], ks[i + 1..];
  }

  // ---------- one step ----------

  predicate ParentsKept<T(==)>(s: map<T, Links<T>>, s': map<T, Links<T>>, except: T) {
    s'.Keys == s.Keys && forall n :: n in s && n != except ==> s'[n].parent == s[n].parent
  }

  lemma RootStays<T>(s: map<T, Links<T>>, s': map<T, Links<T>>, child: T, root: T)
    requires ParentsKept(s, s', child) && root != child && root in s
    ensures root in s' && s'[root].parent == s[root].parent
  {
  }

  lemma Unlinked<T>(s: map<T, Links<T>>, s': map<T, Links<T>>, kids: map<T, seq<T>>, rank: map<T, nat>,
                    p: T, front: seq<T>, back: seq<T>, c: T)
    requires Forest(s, kids, rank) && p in kids && kids[p] == front + [c] + back
    requires Spliced(s, s', p, front, back, c, false)
    ensures Forest(s', kids[p := front + [] + back], rank) && s'[c].parent == None
    ensures ParentsKept(s, s', c)
  {
    hide WellLinked, ListOk, PlaceOk;
    AroundChild(s, kids, rank, p, front, back, c);
    SpliceKeepsLinks(s, s', kids, rank, p, front, back, c, false);
    MembersOf(s, kids, rank, p, front, back, c, false);
    SpliceEffect(s, s', p, front, back, c, false);
    UnlinkKeepsRanks(s, s', rank, c);
  }

  lemma Linked<T>(s: map<T, Links<T>>, s': map<T, Links<T>>, kids: map<T, seq<T>>, rank: map<T, nat>,
                  p: T, front: seq<T>, back: seq<T>, c: T)
    requires Forest(s, kids, rank) && p in kids && kids[p] == front + [] + back && c in s
    requires s[c].parent == None && !IsUnder(s, rank, p, c)
    requires Spliced(s, s', p, front, back, c, true)
    ensures Forest(s', kids[p := front + [c] + back], Raised(s, rank, p, c))
    ensures ParentsKept(s, s', c) && s'[c].parent == Some(p)
  {
    hide WellLinked, ListOk, PlaceOk;
    MembersOf(s, kids, rank, p, front, back, c, true);
    SpliceKeepsLinks(s, s', kids, rank, p, front, back, c, true);
    SpliceEffect(s, s', p, front, back, c, true);
    SplicedNode(s, s', p, front, back, c, true);
    LinkKeepsRanks(s, s', rank, p, c);
  }

  /** The ends of a list, as its parent holds them. */
  lemma EndsOf<T>(s: map<T, Links<T>>, kids: map<T, seq<T>>, rank: map<T, nat>, p: T)
    requires Forest(s, kids, rank) && p in kids
    ensures p in s && s[p].first == Peek(kids[p], 0) && s[p].last == Peek(kids[p], |kids[p]| - 1)
    ensures forall n :: n in kids[p] ==> n != p && n in s && s[n].parent == Some(p)
  {
    assert ListOk(s, p, kids[p]);
    forall n | n in kids[p] ensures n != p && n in s && s[n].parent == Some(p) { NotOwnChild(s, kids, rank, p, n); }
  }

  /** The neighbour behind a child that is not the last. */
  lemma NextOf<T>(s: map<T, Links<T>>, kids: map<T, seq<T>>, rank: map<T, nat>, p: T, front: seq<T>, back: seq<T>)
    requires Forest(s, kids, rank) && p in kids && kids[p] == front + back && front != []
    ensures var left := front[|front| - 1];
      && left in s && s[left].parent == Some(p) && s[left].next == Peek(back, 0) && left != p
      && (back != [] ==> back[0] in s && back[0] != p && back[0] != left)
  {
    var i := |front| - 1;
    assert kids[p][i] == front[i] && ListOk(s, p, kids[p]) && ChildOk(s, p, kids[p], i);
    NotOwnChild(s, kids, rank, p, front[i]);
    if back != [] {
      assert kids[p][i + 1] == back[0];
      NotOwnChild(s, kids, rank, p, back[0]);
    }
  }

  lemma ForestRanks<T>(s: map<T, Links<T>>, kids: map<T, seq<T>>, rank: map<T, nat>)
    requires Forest(s, kids, rank)
    ensures Ranked(s, rank) && s.Keys == kids.Keys == rank.Keys
  {
  }

  lemma StillNotUnder<T>(s: map<T, Links<T>>, rank: map<T, nat>, s': map<T, Links<T>>, rank': map<T, nat>, n: T, c: T)
    requires Ranked(s, rank) && Ranked(s', rank') && n in s && ParentsKept(s, s', c) && !IsUnder(s, rank, n, c)
    ensures !IsUnder(s', rank', n, c)
  {
    UnderKept(s, rank, s', rank', n, c);
  }

  /** c inserted behind a. */
  function Behind<T(==)>(ks: seq<T>, a: T, c: T): seq<T> {
    if ks == [] then [] else if ks[0] == a then [a, c] + ks[1..] else [ks[0]] + Behind(ks[1..], a, c)
  }

  lemma {:induction false} BehindIs<T>(front: seq<T>, a: T, back: seq<T>, c: T)
    requires a !in front
    ensures Behind(front + [a] + back, a, c) == front + [a] + [c] + back
  {
    var ks := front + [a] + back;
    if front == [] {
      assert ks[0] == a && ks[1..] == back;
      assert [a, c] + back == [] + [a] + [c] + back;
    } else {
      assert ks[0] == front[0] && ks[1..] == front[1..] + [a] + back;
      BehindIs(front[1..], a, back, c);
      assert [front[0]] + (front[1..] + [a] + [c] + back) == front + [a] + [c] + back;
    }
  }

  /** Taking c out leaves the other element a in the list, and something behind it unless there was only c. */
  lemma WithoutAround<T>(front: seq<T>, a: T, back: seq<T>, c: T) returns (front': seq<T>, back': seq<T>)
    requires Distinct(front + [a] + back) && c != a
    ensures Without(front + [a] + back, c) == front' + [a] + back'
    ensures a !in front' && (back' == [] <==> back == [] || back == [c])
  {
    var ks := front + [a] + back;
    assert ks == front + [a] + back && Distinct(ks);
    DropMiddle(front, a, back);
    if c in front {
      var f, g := SplitAt(front, c);
      front', back' := f + g, back;
      assert ks == f + [c] + (g + [a] + back);
      DropMiddle(f, c, g + [a] + back);
      WithoutMiddle(f, c, g + [a] + back);
      assert f + (g + [a] + back) == f + g + [a] + back;
      assert forall n :: n in f + g ==> n in front;
    } else if c in back {
      var f, g := SplitAt(back, c);
      front', back' := front, f + g;
      assert ks == (front + [a] + f) + [c] + g;
      DropMiddle(front + [a] + f, c, g);
      WithoutMiddle(front + [a] + f, c, g);
      assert front + [a] + f + g == front + [a] + (f + g);
    } else {
      front', back' := front, back;
      WithoutNone(ks, c);
    }
  }

  lemma KidsDistinct<T>(s: map<T, Links<T>>, kids: map<T, seq<T>>, rank: map<T, nat>, p: T)
    requires Forest(s, kids, rank) && p in kids
    ensures Distinct(kids[p])
  {
    assert ListOk(s, p, kids[p]);
  }

  /** A child without a next sibling is the last. */
  lemma LastIfNoNext<T>(s: map<T, Links<T>>, kids: map<T, seq<T>>, rank: map<T, nat>, p: T, front: seq<T>, back: seq<T>, a: T)
    requires Forest(s, kids, rank) && p in kids && kids[p] == front + [a] + back
    ensures a in s && (s[a].next == None <==> back == [])
    ensures back != [] ==> s[a].next == Some(back[0]) && back[0] in s && (s[back[0]].next == None <==> |back| == 1)
  {
    AroundChild(s, kids, rank, p, front, back, a);
    if back != [] {
      assert front + [a] + back == (front + [a]) + [back[0]] + back[1..];
      AroundChild(s, kids, rank, p, front + [a], back[1..], back[0]);
    }
  }
}
