/** Taking whole subtrees out of a forest, as destroying a node does. */
module Pruning {
  import opened Siblings
  import opened Wrappers

  /** A forest: the links, the lists of children they form, and the ranks. */
  datatype State<T> = State(s: map<T, Links<T>>, kids: map<T, seq<T>>, rank: map<T, nat>)

  predicate Ok<T(==)>(f: State<T>) {
    Forest(f.s, f.kids, f.rank)
  }

  predicate Under<T(==)>(f: State<T>, n: T, c: T)
    requires Ok(f) && n in f.s
  {
    IsUnder(f.s, f.rank, n, c)
  }

  /** What is left has the parents and ranks it had. */
  predicate Kept<T(==)>(f: State<T>, g: State<T>) {
    && g.s.Keys <= f.s.Keys && Ok(f) && Ok(g)
    && forall n :: n in g.s ==> g.s[n].parent == f.s[n].parent && g.rank[n] == f.rank[n]
  }

  /** Exactly c and what is below it are gone; the other lists are as they were. */
  predicate Cut<T(==)>(f: State<T>, g: State<T>, c: T) {
    && Kept(f, g)
    && (forall n :: n in f.s ==> (n in g.s <==> !Under(f, n, c)))
    && forall n :: n in g.s ==> g.kids[n] == f.kids[n]
  }

  /** The same for a child, which its parent's list has lost. */
  predicate CutChild<T(==)>(f: State<T>, g: State<T>, c: T) {
    && Kept(f, g)
    && (forall n :: n in f.s ==> (n in g.s <==> !Under(f, n, c)))
    && forall n :: n in g.s ==> g.kids[n] == Without(f.kids[n], c)
  }

  /** Some of what is below c is gone. */
  predicate Pruned<T(==)>(f: State<T>, g: State<T>, c: T) {
    && Kept(f, g) && c in g.s
    && (forall n :: n in f.s && n !in g.s ==> Under(f, n, c) && n != c)
    && forall n :: n in g.s && n != c ==> g.kids[n] == f.kids[n]
  }

  lemma UnderIsKept<T>(f: State<T>, g: State<T>, n: T, c: T)
    requires Kept(f, g) && n in g.s
    ensures Under(g, n, c) <==> Under(f, n, c)
  {
    UnderKept(f.s, f.rank, g.s, g.rank, n, c);
  }

  lemma {:induction false} UnderOfUnder<T>(f: State<T>, n: T, c: T, p: T)
    requires Ok(f) && n in f.s && c in f.s && Under(f, n, c) && f.s[c].parent == Some(p)
    ensures Under(f, n, p) && f.rank[p] < f.rank[n]
    decreases f.rank[n]
  {
    assert p in f.s;
    if n == c {
      assert IsUnder(f.s, f.rank, p, p);
    } else {
      UnderOfUnder(f, f.s[n].parent.value, c, p);
    }
  }

  /** When all children of c have been destroyed, everything below it is gone. */
  lemma PrunedToLeaf<T>(f: State<T>, g: State<T>, c: T)
    requires Pruned(f, g, c) && g.kids[c] == []
    ensures forall n :: n in f.s ==> (n in g.s <==> !Under(f, n, c) || n == c)
  {
    hide Forest, IsUnder;
    KeysOf(g);
    forall n | n in f.s ensures n in g.s <==> !Under(f, n, c) || n == c {
      if n in g.s && Under(f, n, c) {
        UnderIsKept(f, g, n, c);
        NoneUnder(g.s, g.kids, g.rank, n, c);
      }
    }
  }

  function Minus<T(==)>(f: State<T>, c: T): State<T> {
    State(f.s - {c}, f.kids - {c}, f.rank - {c})
  }

  /** Freeing a leaf without a parent after its children completes the cut. */
  lemma CutWhole<T>(f: State<T>, g: State<T>, c: T)
    requires Pruned(f, g, c) && g.kids[c] == [] && f.s[c].parent == None
    ensures Cut(f, Minus(g, c), c)
  {
    hide Forest, IsUnder;
    KeysOf(f);
    KeysOf(g);
    PrunedToLeaf(f, g, c);
    RemoveLeaf(g.s, g.kids, g.rank, c);
    assert Under(f, c, c) by { SelfUnder(f, c); }
  }

  lemma SelfUnder<T>(f: State<T>, c: T)
    requires Ok(f) && c in f.s
    ensures Under(f, c, c)
  {
  }

  /** Unlinking a child and cutting it off. */
  lemma CutUnlinked<T>(f: State<T>, g: State<T>, h: State<T>, c: T)
    requires Ok(f) && Ok(g) && c in f.s && ParentsKept(f.s, g.s, c) && g.rank == f.rank && g.kids == Detached(f.kids, c)
    requires Cut(g, h, c)
    ensures CutChild(f, h, c)
  {
    hide Forest, IsUnder;
    forall n | n in f.s ensures n in h.s <==> !Under(f, n, c) {
      assert Ranked(f.s, f.rank) && Ranked(g.s, g.rank) by { RanksOf(f); RanksOf(g); }
      UnderKept(f.s, f.rank, g.s, g.rank, n, c);
    }
    forall n | n in h.s ensures h.s[n].parent == f.s[n].parent {
      if n == c { SelfUnder(g, c); }
    }
    KeysOf(f);
    KeysOf(g);
    KeysOf(h);
  }

  lemma RanksOf<T>(f: State<T>)
    requires Ok(f)
    ensures Ranked(f.s, f.rank)
  {
  }

  lemma KeysOf<T>(f: State<T>)
    requires Ok(f)
    ensures f.s.Keys == f.kids.Keys == f.rank.Keys
  {
  }

  /** One more child of p is gone. */
  lemma PrunedFurther<T>(f: State<T>, g: State<T>, h: State<T>, p: T, c: T)
    requires Pruned(f, g, p) && CutChild(g, h, c) && c in g.s && g.s[c].parent == Some(p)
    ensures Pruned(f, h, p)
  {
    hide Forest, IsUnder;
    KeysOf(f);
    KeysOf(g);
    KeysOf(h);
    forall n | n in g.s && n !in h.s ensures Under(f, n, p) && n != p {
      UnderOfUnder(g, n, c, p);
      UnderIsKept(f, g, n, p);
    }
    forall n | n in h.s && n != p ensures h.kids[n] == f.kids[n] {
      if c in g.kids[n] { NotOwnChild(g.s, g.kids, g.rank, n, c); }
      WithoutNone(g.kids[n], c);
    }
  }

  lemma PrunedNothing<T>(f: State<T>, c: T)
    requires Ok(f) && c in f.s
    ensures Pruned(f, f, c)
  {
  }

  lemma PrunedRanks<T>(f: State<T>, g: State<T>, c: T, height: nat)
    requires Pruned(f, g, c) && forall n :: n in f.rank ==> f.rank[n] <= height
    ensures c in g.s && c in g.rank && g.rank[c] == f.rank[c] && forall n :: n in g.rank ==> g.rank[n] <= height
  {
    hide Forest, IsUnder;
    KeysOf(f);
    KeysOf(g);
  }

  lemma CutIsOk<T>(f: State<T>, g: State<T>, c: T)
    requires Cut(f, g, c)
    ensures Ok(g)
  {
  }

  lemma {:induction false} MaxRank<T>(rank: map<T, nat>) returns (height: nat)
    ensures forall n :: n in rank ==> rank[n] <= height
    decreases |rank|
  {
    height := 0;
    if rank != map[] {
      var n :| n in rank;
      assert |rank - {n}| < |rank| by { assert rank.Keys == (rank - {n}).Keys + {n}; }
      var rest := MaxRank(rank - {n});
      height := if rank[n] > rest then rank[n] else rest;
    }
  }
}
