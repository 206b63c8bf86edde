/** The node tree of a document: sibling links rewired in place, the list of unlinked nodes, and the pools' counters. */
module XmlDom {
  import opened DynArrays
  import opened Pruning
  import opened Sequences
  import opened Siblings
  import opened Wrappers

  /** The pool a node comes from; comments, declarations and unknown nodes share one. */
  datatype Pool = ElementPool | TextPool | CommentPool

  class Node {
    const document: int // the document that owns the node
    const pool: Pool
    var parent: Node?
    var firstChild: Node?
    var lastChild: Node?
    var prev: Node?
    var next: Node?

    constructor (document: int, pool: Pool)
      ensures this.document == document && this.pool == pool
      ensures View(this) == Links(None, None, None, None, None)
    {
      this.document, this.pool := document, pool;
      parent, firstChild, lastChild, prev, next := null, null, null, null, null;
    }
  }

  ghost function Maybe(n: Node?): Option<Node> {
    if n == null then None else Some(n)
  }

  ghost function View(n: Node): Links<Node>
    reads n
  {
    Links(Maybe(n.parent), Maybe(n.firstChild), Maybe(n.lastChild), Maybe(n.prev), Maybe(n.next))
  }

  /** The links of a set of nodes. */
  ghost function Snapshot(all: set<Node>): map<Node, Links<Node>>
    reads all
  {
    map n | n in all :: View(n)
  }

  // ---------- bookkeeping ----------

  /** The list of unlinked nodes holds exactly the given ones, each once. */
  ghost predicate ListIs(list: seq<Node?>, members: set<Node>) {
    && Distinct(list) && (forall n :: n in list ==> n != null && n in members) && forall n :: n in members ==> n in list
  }

  function OfPool(members: set<Node>, pool: Pool): set<Node> {
    set n | n in members && n.pool == pool
  }

  /** A counter for every pool. */
  datatype Counters = Counters(element: int, text: int, comment: int) {
    function Get(pool: Pool): int {
      match pool case ElementPool => element case TextPool => text case CommentPool => comment
    }

    function Add(pool: Pool, n: int): (r: Counters)
      ensures forall p :: r.Get(p) == Get(p) + if p == pool then n else 0
    {
      match pool
      case ElementPool => this.(element := element + n)
      case TextPool => this.(text := text + n)
      case CommentPool => this.(comment := comment + n)
    }
  }

  const NONE: Counters := Counters(0, 0, 0)

  ghost predicate Counts(counters: Counters, members: set<Node>) {
    forall pool :: counters.Get(pool) == |OfPool(members, pool)|
  }

  lemma CountsWithout(counters: Counters, members: set<Node>, n: Node)
    requires Counts(counters, members) && n in members
    ensures Counts(counters.Add(n.pool, -1), members - {n})
  {
    forall pool ensures |OfPool(members - {n}, pool)| == |OfPool(members, pool)| - if pool == n.pool then 1 else 0 {
      if pool == n.pool {
        assert OfPool(members, pool) == OfPool(members - {n}, pool) + {n};
      } else {
        assert OfPool(members, pool) == OfPool(members - {n}, pool);
      }
    }
  }

  lemma CountsWith(counters: Counters, members: set<Node>, n: Node)
    requires Counts(counters, members) && n !in members
    ensures Counts(counters.Add(n.pool, 1), members + {n})
  {
    forall pool ensures |OfPool(members + {n}, pool)| == |OfPool(members, pool)| + if pool == n.pool then 1 else 0 {
      if pool == n.pool {
        assert OfPool(members + {n}, pool) == OfPool(members, pool) + {n};
      } else {
        assert OfPool(members + {n}, pool) == OfPool(members, pool);
      }
    }
  }

  lemma NothingCounts()
    ensures Counts(NONE, {})
  {
    forall pool ensures OfPool({}, pool) == {} {}
  }

  lemma ListWithoutOne(list: seq<Node?>, members: set<Node>, i: nat)
    requires ListIs(list, members) && i < |list|
    ensures list[i] != null && ListIs(SwapRemoved(list, i), members - {list[i]})
  {
    var n: Node? := list[i];
    var rest := SwapRemoved(list, i);
    assert n in list;
    assert forall k :: 0 <= k < |rest| ==> rest[k] == list[if k == i then |list| - 1 else k];
    forall m: Node? | m in rest ensures m != null && m in members && m != n {
      var k :| 0 <= k < |rest| && rest[k] == m;
      assert m == list[if k == i then |list| - 1 else k] && m in list;
    }
    forall m: Node | m in members && m != n ensures m in rest {
      var k :| 0 <= k < |list| && list[k] == m;
      assert rest[if k == |list| - 1 then i else k] == m;
    }
  }

  lemma ListWithOne(list: seq<Node?>, members: set<Node>, n: Node)
    requires ListIs(list, members) && n !in members
    ensures ListIs(list + [n], members + {n})
  {
  }

  lemma NullParents(all: set<Node>)
    ensures forall n :: n in all ==> (Snapshot(all)[n].parent == None <==> n.parent == null)
  {
  }

  class Document {
    const id: int
    const root: Node // the document seen as a node
    const unlinked: DynArray<Node?>
    var currentAllocs: Counters
    var untracked: Counters

    // The live nodes without the root, those of them in the list of unlinked nodes, the children of each, and a
    // rank that grows downwards.
    ghost var nodes: set<Node>
    ghost var orphans: set<Node>
    ghost var kids: map<Node, seq<Node>>
    ghost var rank: map<Node, nat>

    ghost function All(): set<Node>
      reads `nodes
    {
      nodes + {root}
    }

    /** The sibling lists are well formed and the nodes are a forest. */
    ghost predicate Tree()
      reads `nodes, `kids, `rank, All()
    {
      && Forest(Snapshot(All()), kids, rank)
      && root !in nodes && root.parent == null && forall n :: n in All() ==> n.document == id
    }

    ghost predicate Listed()
      reads `orphans, unlinked, unlinked.mem
    {
      unlinked.Valid() && ListIs(unlinked.Contents(), orphans)
    }

    /** The nodes without a parent are the unlinked ones, and those that are just being moved or destroyed. */
    ghost predicate Placed(moving: set<Node>)
      reads `nodes, `orphans, nodes
    {
      && orphans <= nodes && moving <= nodes && moving !! orphans
      && forall n :: n in nodes ==> (n.parent == null <==> n in orphans || n in moving)
    }

    ghost predicate Counted()
      reads `nodes, `orphans, `currentAllocs, `untracked
    {
      Counts(currentAllocs, nodes) && Counts(untracked, orphans)
    }

    /**
      What every operation keeps: well formed sibling lists, a forest, an unlinked list with exactly the nodes that
      have no parent, and pools whose counters count the live and the unlinked nodes they have handed out.
    */
    ghost predicate Valid()
      reads this, All(), unlinked, unlinked.mem
    {
      Tree() && Listed() && Placed({}) && Counted()
    }

    constructor (id: int)
      ensures fresh(root) && fresh(unlinked) && fresh(unlinked.mem) && this.id == id
      ensures Valid() && nodes == {} && kids == map[root := []]
    {
      this.id := id;
      root := new Node(id, ElementPool);
      unlinked := new DynArray(10);
      currentAllocs, untracked := NONE, NONE;
      nodes, orphans := {}, {};
      new;
      NothingCounts();
      kids, rank := map[root := []], map[root := 0];
      hide Forest, Counts, ListIs;
      NothingInList();
      RootAlone(root);
      assert Snapshot(All()) == map[root := Links(None, None, None, None, None)];
    }

    /** The nodes that no pool has tracked yet are the unlinked ones. */
    lemma UntrackedAreUnlinked()
      requires Valid()
      ensures untracked.element + untracked.text + untracked.comment == unlinked.size
    {
      var list := unlinked.Contents();
      DistinctCount(list);
      assert Elems(list) == orphans;
      CountedInPools(untracked, orphans);
    }

    lemma KidsAreNodes()
      requires Tree()
      ensures kids.Keys == All()
      ensures forall p, c :: p in kids && c in kids[p] ==> c in nodes
      ensures forall n :: n in All() && n.parent != null ==> n.parent in All() && n in kids[n.parent]
      ensures forall n :: n in All() && n.parent == null ==> n.prev == null && n.next == null
    {
      var s := Snapshot(All());
      forall p, c | p in kids && c in kids[p] ensures c in nodes {
        NotOwnChild(s, kids, rank, p, c);
        assert s[c] == View(c);
      }
      forall n | n in All()
        ensures n.parent != null ==> n.parent in All() && n in kids[n.parent]
        ensures n.parent == null ==> n.prev == null && n.next == null
      {
        assert PlaceOk(s, kids, n) && s[n] == View(n);
      }
    }

    method UnlinkBetween(self: Node, child: Node, ghost front: seq<Node>, ghost back: seq<Node>)
      requires Tree() && self in kids && kids[self] == front + [child] + back && child in nodes
      modifies All()
      ensures Forest(Snapshot(All()), Detached(kids, child), rank) && root.parent == null && child.parent == null
      ensures ParentsKept(old(Snapshot(All())), Snapshot(All()), child)
    {
      hide Forest, Detached, ParentsKept, Spliced;
      ghost var s := Snapshot(All());
      UnlinkLinks(self, child, front, back);
      ghost var s' := Snapshot(All());
      Unlinked(s, s', kids, rank, self, front, back, child);
      DetachedFrom(s, kids, rank, self, front, child, back);
      assert s'[root] == View(root) && s'[child] == View(child) && s[root] == old(View(root));
      RootStays(s, s', child, root);
    }

    method UnlinkLinks(self: Node, child: Node, ghost front: seq<Node>, ghost back: seq<Node>)
      requires Tree() && self in kids && kids[self] == front + [child] + back && child in nodes
      modifies All()
      ensures Spliced(old(Snapshot(All())), Snapshot(All()), self, front, back, child, false)
    {
      hide Tree;
      Around(self, child, front, back);
      RewireOut(self, child);
    }

    /** What the links of a child and of its parent say about the list. */
    lemma Around(self: Node, child: Node, front: seq<Node>, back: seq<Node>)
      requires Tree() && self in kids && kids[self] == front + [child] + back && child in nodes
      ensures self in All() && child != self
      ensures Maybe(child.prev) == Peek(front, |front| - 1) && Maybe(child.next) == Peek(back, 0)
      ensures child.prev != null ==> child.prev in All() && child.prev != child && child.prev != self && child.prev != child.next
      ensures child.next != null ==> child.next in All() && child.next != child && child.next != self
      ensures (self.firstChild == child <==> front == []) && (self.lastChild == child <==> back == [])
    {
      hide Forest;
      KidsAreNodes();
      var s := Snapshot(All());
      AroundChild(s, kids, rank, self, front, back, child);
      assert s[child] == View(child) && s[self] == View(self);
    }

    static method RewireOut(self: Node, child: Node)
      requires child != self && child.prev != child && child.next != child && child.prev != self && child.next != self
      requires child.prev != null ==> child.prev != child.next
      modifies self, child, child.prev, child.next
      ensures View(child) == old(View(child)).(parent := None, prev := None, next := None)
      ensures View(self) == old(View(self)).(
        first := if old(self.firstChild) == child then Maybe(old(child.next)) else old(Maybe(self.firstChild)),
        last := if old(self.lastChild) == child then Maybe(old(child.prev)) else old(Maybe(self.lastChild)))
      ensures old(child.prev) != null ==>
        View(old(child.prev)) == old(View(child.prev)).(next := Maybe(old(child.next)))
      ensures old(child.next) != null ==>
        View(old(child.next)) == old(View(child.next)).(prev := Maybe(old(child.prev)))
    {
      if child == self.firstChild { self.firstChild := self.firstChild.next; }
      if child == self.lastChild { self.lastChild := self.lastChild.prev; }
      if child.prev != null { child.prev.next := child.next; }
      if child.next != null { child.next.prev := child.prev; }
      child.next := null;
      child.prev := null;
      child.parent := null;
    }

    /** XMLNode.Unlink: takes a child out of the list of its parent; its own children stay with it. */
    method Unlink(child: Node)
      requires Tree() && child in nodes && child.parent != null
      modifies this`kids, All()
      ensures Tree() && kids == Detached(old(kids), child) && child.parent == null
      ensures ParentsKept(old(Snapshot(All())), Snapshot(All()), child)
      ensures forall n :: n in nodes && n != child ==> (n.parent == null <==> old(n.parent == null))
    {
      hide Forest, Spliced, Detached;
      ghost var self: Node, front, back := Place(child);
      NullParents(All());
      UnlinkBetween(child.parent, child, front, back);
      NullParents(All());
      kids := Detached(kids, child);
    }

    lemma Place(child: Node) returns (self: Node, front: seq<Node>, back: seq<Node>)
      requires Tree() && child in nodes && child.parent != null
      ensures child.parent == self && self in kids && kids[self] == front + [child] + back
    {
      KidsAreNodes();
      self := child.parent;
      front, back := SplitAt(kids[self], child);
    }

    // ---------- linking ----------

    static method RewireEnd(self: Node, addThis: Node)
      requires addThis != self && self.lastChild != self && self.lastChild != addThis
      requires self.firstChild == null <==> self.lastChild == null
      modifies self, addThis, self.lastChild
      ensures View(addThis) == old(View(addThis)).(parent := Some(self), prev := old(Maybe(self.lastChild)), next := None)
      ensures View(self) == old(View(self)).(
        first := if old(self.lastChild) == null then Some(addThis) else old(Maybe(self.firstChild)), last := Some(addThis))
      ensures old(self.lastChild) != null ==> View(old(self.lastChild)) == old(View(self.lastChild)).(next := Some(addThis))
    {
      if self.lastChild != null {
        self.lastChild.next := addThis;
        addThis.prev := self.lastChild;
        self.lastChild := addThis;
        addThis.next := null;
      } else {
        self.firstChild, self.lastChild := addThis, addThis;
        addThis.prev := null;
        addThis.next := null;
      }
      addThis.parent := self;
    }

    static method RewireFirst(self: Node, addThis: Node)
      requires addThis != self && self.firstChild != self && self.firstChild != addThis
      requires self.firstChild == null <==> self.lastChild == null
      modifies self, addThis, self.firstChild
      ensures View(addThis) == old(View(addThis)).(parent := Some(self), prev := None, next := old(Maybe(self.firstChild)))
      ensures View(self) == old(View(self)).(
        first := Some(addThis), last := if old(self.firstChild) == null then Some(addThis) else old(Maybe(self.lastChild)))
      ensures old(self.firstChild) != null ==> View(old(self.firstChild)) == old(View(self.firstChild)).(prev := Some(addThis))
    {
      if self.firstChild != null {
        self.firstChild.prev := addThis;
        addThis.next := self.firstChild;
        self.firstChild := addThis;
        addThis.prev := null;
      } else {
        self.firstChild, self.lastChild := addThis, addThis;
        addThis.prev := null;
        addThis.next := null;
      }
      addThis.parent := self;
    }

    static method RewireAfter(self: Node, afterThis: Node, addThis: Node)
      requires afterThis.next != null && afterThis != addThis && afterThis.next != addThis && afterThis.next != afterThis
      requires self != addThis && self != afterThis && self != afterThis.next
      modifies addThis, afterThis, afterThis.next
      ensures View(addThis) == old(View(addThis)).(parent := Some(self), prev := Some(afterThis), next := old(Maybe(afterThis.next)))
      ensures View(afterThis) == old(View(afterThis)).(next := Some(addThis))
      ensures View(old(afterThis.next)) == old(View(afterThis.next)).(prev := Some(addThis))
    {
      addThis.prev := afterThis;
      addThis.next := afterThis.next;
      afterThis.next.prev := addThis;
      afterThis.next := addThis;
      addThis.parent := self;
    }

    /** `self` has no parent in s, and the others have none exactly when they are in the list of unlinked nodes. */
    ghost predicate Waiting(s: map<Node, Links<Node>>, self: Node)
      reads this
    {
      && nodes <= s.Keys && orphans <= nodes && self !in orphans
      && forall n :: n in nodes && n != self ==> (s[n].parent == None <==> n in orphans)
    }

    lemma Unsettled(addThis: Node)
      requires Placed({addThis})
      ensures Waiting(Snapshot(All()), addThis)
    {
      NullParents(All());
    }

    /** Once the node that was waiting has a parent, all nodes are in their places. */
    lemma Settled(s: map<Node, Links<Node>>, addThis: Node)
      requires addThis in nodes && Waiting(s, addThis)
      requires ParentsKept(s, Snapshot(All()), addThis) && Snapshot(All())[addThis].parent != None
      ensures Placed({})
    {
      NullParents(All());
    }

    /** Appends a node without a parent to the list of `self`. */
    method LinkEnd(self: Node, addThis: Node)
      requires Tree() && self in All() && addThis in nodes && addThis.parent == null
      requires !IsUnder(Snapshot(All()), rank, self, addThis) && Waiting(Snapshot(All()), addThis)
      modifies this`kids, this`rank, All()
      ensures Tree() && kids == old(kids)[self := old(kids[self]) + [addThis]] && addThis.parent == self
      ensures Placed({})
    {
      hide Forest, ParentsKept, Spliced, IsUnder, Waiting;
      MayLink(self, addThis);
      ghost var s := Snapshot(All());
      ghost var ks := kids[self];
      assert ks + [] + [] == ks && ks + [addThis] + [] == ks + [addThis];
      EndSpliced(self, addThis);
      Linked(s, Snapshot(All()), kids, rank, self, ks, [], addThis);
      Adopt(s, self, addThis, ks + [addThis]);
    }

    lemma MayLink(self: Node, addThis: Node)
      requires Tree() && self in All() && !IsUnder(Snapshot(All()), rank, self, addThis)
      ensures Ranked(Snapshot(All()), rank) && self in rank && self in kids && self != addThis
      ensures root in Snapshot(All()) && Snapshot(All())[root].parent == None
    {
      KidsAreNodes();
    }

    /** The new lists and ranks, once the links are in place. */
    ghost method Adopt(s: map<Node, Links<Node>>, self: Node, addThis: Node, ks: seq<Node>)
      requires Ranked(s, rank) && self in rank && addThis in nodes && root in s && s[root].parent == None
      requires Forest(Snapshot(All()), kids[self := ks], Raised(s, rank, self, addThis))
      requires ParentsKept(s, Snapshot(All()), addThis) && Snapshot(All())[addThis].parent == Some(self)
      requires root !in nodes && forall n :: n in All() ==> n.document == id
      requires Waiting(s, addThis)
      modifies this`kids, this`rank
      ensures Tree() && kids == old(kids)[self := ks] && addThis.parent == self && Placed({})
    {
      hide Forest, Raised;
      Settled(s, addThis);
      RootStays(s, Snapshot(All()), addThis, root);
      assert Snapshot(All())[root] == View(root) && Snapshot(All())[addThis] == View(addThis);
      kids, rank := kids[self := ks], Raised(s, rank, self, addThis);
    }

    method EndSpliced(self: Node, addThis: Node)
      requires Tree() && self in kids && addThis in nodes && addThis.parent == null && addThis != self
      modifies All()
      ensures Spliced(old(Snapshot(All())), Snapshot(All()), self, kids[self], [], addThis, true)
    {
      hide Forest;
      KidsAreNodes();
      ghost var s := Snapshot(All());
      EndsOf(s, kids, rank, self);
      assert s[addThis] == View(addThis) && s[self] == View(self);
      RewireEnd(self, addThis);
    }

    method LinkFirst(self: Node, addThis: Node)
      requires Tree() && self in All() && addThis in nodes && addThis.parent == null
      requires !IsUnder(Snapshot(All()), rank, self, addThis) && Waiting(Snapshot(All()), addThis)
      modifies this`kids, this`rank, All()
      ensures Tree() && kids == old(kids)[self := [addThis] + old(kids[self])] && addThis.parent == self
      ensures Placed({})
    {
      hide Forest, ParentsKept, Spliced, IsUnder, Waiting;
      MayLink(self, addThis);
      ghost var s := Snapshot(All());
      ghost var ks := kids[self];
      assert [] + [] + ks == ks && [] + [addThis] + ks == [addThis] + ks;
      FirstSpliced(self, addThis);
      Linked(s, Snapshot(All()), kids, rank, self, [], ks, addThis);
      Adopt(s, self, addThis, [addThis] + ks);
    }

    method FirstSpliced(self: Node, addThis: Node)
      requires Tree() && self in kids && addThis in nodes && addThis.parent == null && addThis != self
      modifies All()
      ensures Spliced(old(Snapshot(All())), Snapshot(All()), self, [], kids[self], addThis, true)
    {
      hide Forest;
      KidsAreNodes();
      ghost var s := Snapshot(All());
      EndsOf(s, kids, rank, self);
      assert s[addThis] == View(addThis) && s[self] == View(self);
      RewireFirst(self, addThis);
    }

    /** Links a node without a parent behind a child that is not the last. */
    method LinkAfter(self: Node, afterThis: Node, addThis: Node, ghost front: seq<Node>, ghost back: seq<Node>)
      requires Tree() && self in All() && addThis in nodes && addThis.parent == null
      requires !IsUnder(Snapshot(All()), rank, self, addThis) && Waiting(Snapshot(All()), addThis)
      requires self in kids && kids[self] == front + back && front != [] && back != [] && front[|front| - 1] == afterThis
      modifies this`kids, this`rank, All()
      ensures Tree() && kids == old(kids)[self := front + [addThis] + back] && addThis.parent == self
      ensures Placed({})
    {
      hide Forest, ParentsKept, Spliced, IsUnder, Waiting;
      MayLink(self, addThis);
      ghost var s := Snapshot(All());
      assert front + [] + back == front + back;
      AfterSpliced(self, afterThis, addThis, front, back);
      Linked(s, Snapshot(All()), kids, rank, self, front, back, addThis);
      Adopt(s, self, addThis, front + [addThis] + back);
    }

    method AfterSpliced(self: Node, afterThis: Node, addThis: Node, ghost front: seq<Node>, ghost back: seq<Node>)
      requires Tree() && self in kids && addThis in nodes && addThis.parent == null && addThis != self
      requires kids[self] == front + back && front != [] && back != [] && front[|front| - 1] == afterThis
      modifies All()
      ensures Spliced(old(Snapshot(All())), Snapshot(All()), self, front, back, addThis, true)
    {
      hide Forest;
      KidsAreNodes();
      ghost var s := Snapshot(All());
      NextOf(s, kids, rank, self, front, back);
      EndsOf(s, kids, rank, self);
      assert back[0] == kids[self][|front|] && back[0] in kids[self];
      assert s[addThis] == View(addThis) && s[self] == View(self) && s[afterThis] == View(afterThis);
      RewireAfter(self, afterThis, addThis);
    }

    // ---------- the list of unlinked nodes ----------

    /** CreateUnlinkedNode. */
    method NewNode(pool: Pool) returns (n: Node)
      requires Valid() && unlinked.Fits(unlinked.size + 1)
      modifies this, unlinked, unlinked.mem
      ensures Valid() && fresh(n) && n.pool == pool && n.document == id && n.parent == null
      ensures nodes == old(nodes) + {n} && orphans == old(orphans) + {n} && kids == old(kids)[n := []]
      ensures unlinked.mem == old(unlinked.mem) || fresh(unlinked.mem)
    {
      hide Forest, ListIs, Counts, Listed;
      n := new Node(id, pool);
      CountsWith(currentAllocs, nodes, n);
      CountsWith(untracked, orphans, n);
      currentAllocs, untracked := currentAllocs.Add(pool, 1), untracked.Add(pool, 1);
      Enlist(n);
      Record(n);
    }

    ghost method Record(n: Node)
      requires Tree() && n !in All() && n.document == id && View(n) == Links(None, None, None, None, None)
      modifies this`nodes, this`kids, this`rank
      ensures Tree() && nodes == old(nodes) + {n} && kids == old(kids)[n := []]
    {
      hide Forest;
      TreeWith(n);
      nodes, kids, rank := nodes + {n}, kids[n := []], rank[n := 0];
      assert All() == old(All()) + {n};
    }

    method Enlist(n: Node)
      requires Listed() && n !in orphans && unlinked.Fits(unlinked.size + 1)
      modifies this`orphans, unlinked, unlinked.mem
      ensures Listed() && orphans == old(orphans) + {n}
      ensures unlinked.mem == old(unlinked.mem) || fresh(unlinked.mem)
    {
      hide ListIs;
      ListWithOne(unlinked.Contents(), orphans, n);
      unlinked.Push(n);
      orphans := orphans + {n};
    }

    lemma TreeWith(n: Node)
      requires Tree() && n !in All() && View(n) == Links(None, None, None, None, None)
      ensures Forest(Snapshot(All() + {n}), kids[n := []], rank[n := 0])
    {
      hide Forest;
      var s := Snapshot(All());
      assert n !in s;
      AddLeaf(s, kids, rank, n);
      assert Snapshot(All() + {n}) == s[n := Links(None, None, None, None, None)];
    }

    method MarkInUse(node: Node)
      requires Listed()
      modifies this`orphans, unlinked, unlinked.mem
      ensures Listed() && orphans == old(orphans) - {node} && unlinked.mem == old(unlinked.mem)
    {
      hide ListIs;
      ghost var list := unlinked.Contents();
      for i := 0 to unlinked.size
        invariant unlinked.Valid() && unlinked.Contents() == list && unlinked.mem == old(unlinked.mem)
        invariant forall k :: 0 <= k < i ==> list[k] != node
      {
        if unlinked.mem[i] == node {
          ListWithoutOne(list, orphans, i);
          unlinked.SwapRemove(i);
          orphans := orphans - {node};
          return;
        }
      }
      NotListed(list, orphans, node);
    }

    /** InsertChildPreamble: takes the node from wherever it is. */
    method InsertChildPreamble(insertThis: Node)
      requires Valid() && insertThis in nodes
      modifies this, All(), unlinked, unlinked.mem
      ensures Tree() && Listed() && Placed({insertThis}) && Counted() && insertThis.parent == null
      ensures nodes == old(nodes) && kids == Detached(old(kids), insertThis)
      ensures orphans == old(orphans) - {insertThis} && unlinked.mem == old(unlinked.mem)
      ensures rank == old(rank) && ParentsKept(old(Snapshot(All())), Snapshot(All()), insertThis)
      ensures currentAllocs == old(currentAllocs)
    {
      hide Forest, ListIs, Counts;
      if insertThis.parent != null {
        Unlink(insertThis);
      } else {
        DetachedFromNone(Snapshot(All()), kids, rank, insertThis);
        Track(insertThis);
      }
    }

    /** An unlinked node that is about to be inserted. */
    method Track(node: Node)
      requires Listed() && Placed({}) && Counted() && node in nodes && node.parent == null
      modifies this`orphans, this`untracked, unlinked, unlinked.mem
      ensures Listed() && Placed({node}) && Counted()
      ensures orphans == old(orphans) - {node} && unlinked.mem == old(unlinked.mem)
    {
      hide Listed, Counts;
      CountsWithout(untracked, orphans, node);
      MarkInUse(node);
      untracked := untracked.Add(node.pool, -1);
    }

    // ---------- inserting ----------

    /** The node belongs to another document, or is live here and not the new parent or above it. */
    ghost predicate MayInsert(self: Node, addThis: Node)
      requires Tree()
      reads this, All()
    {
      && self in All()
      && (addThis.document == id ==> addThis in nodes && !IsUnder(Snapshot(All()), rank, self, addThis))
    }

    method InsertEndChild(self: Node, addThis: Node) returns (r: Node?)
      requires Valid() && MayInsert(self, addThis)
      modifies this, All(), unlinked, unlinked.mem
      ensures Valid() && nodes == old(nodes) && unlinked.mem == old(unlinked.mem)
      ensures addThis.document != id ==> r == null && kids == old(kids) && orphans == old(orphans)
      ensures addThis.document == id ==> r == addThis && orphans == old(orphans) - {addThis}
      ensures addThis.document == id ==>
        var rest := Detached(old(kids), addThis); self in rest && kids == rest[self := rest[self] + [addThis]]
    {
      hide Forest, ListIs, Counts, IsUnder, Detached, Waiting;
      if addThis.document != self.document { return null; }
      InsertPreamble(self, addThis);
      LinkEnd(self, addThis);
      r := addThis;
    }

    method InsertFirstChild(self: Node, addThis: Node) returns (r: Node?)
      requires Valid() && MayInsert(self, addThis)
      modifies this, All(), unlinked, unlinked.mem
      ensures Valid() && nodes == old(nodes) && unlinked.mem == old(unlinked.mem)
      ensures addThis.document != id ==> r == null && kids == old(kids) && orphans == old(orphans)
      ensures addThis.document == id ==> r == addThis && orphans == old(orphans) - {addThis}
      ensures addThis.document == id ==>
        var rest := Detached(old(kids), addThis); self in rest && kids == rest[self := [addThis] + rest[self]]
    {
      hide Forest, ListIs, Counts, IsUnder, Detached, Waiting;
      if addThis.document != self.document { return null; }
      InsertPreamble(self, addThis);
      LinkFirst(self, addThis);
      r := addThis;
    }

    /** The preamble, with what it leaves of the conditions on where the node may go. */
    method InsertPreamble(self: Node, addThis: Node)
      requires Valid() && MayInsert(self, addThis) && addThis.document == id
      modifies this, All(), unlinked, unlinked.mem
      ensures Tree() && Listed() && Waiting(Snapshot(All()), addThis) && Counted() && addThis.parent == null
      ensures nodes == old(nodes) && kids == Detached(old(kids), addThis) && self in kids
      ensures orphans == old(orphans) - {addThis} && unlinked.mem == old(unlinked.mem)
      ensures !IsUnder(Snapshot(All()), rank, self, addThis)
    {
      hide Forest, ListIs, Counts, ParentsKept, IsUnder;
      ghost var (s, r) := (Snapshot(All()), rank);
      ForestRanks(s, kids, rank);
      InsertChildPreamble(addThis);
      ForestRanks(Snapshot(All()), kids, rank);
      StillNotUnder(s, r, Snapshot(All()), rank, self, addThis);
      Unsettled(addThis);
    }

    /**
      The caller must not pass the sibling directly behind `afterThis` when that is the last child: taking it out
      would leave nothing behind `afterThis` to link to.
    */
    method InsertAfterChild(self: Node, afterThis: Node, addThis: Node) returns (r: Node?)
      requires Valid() && MayInsert(self, addThis) && afterThis in nodes
      requires !(afterThis.next == addThis && addThis.next == null)
      modifies this, All(), unlinked, unlinked.mem
      ensures Valid() && nodes == old(nodes) && unlinked.mem == old(unlinked.mem)
      ensures addThis.document != id || old(afterThis.parent) != self ==>
        r == null && kids == old(kids) && orphans == old(orphans)
      ensures addThis.document == id && old(afterThis.parent) == self && afterThis == addThis ==>
        r == addThis && kids == old(kids) && orphans == old(orphans)
      ensures addThis.document == id && old(afterThis.parent) == self && afterThis != addThis ==>
        r == addThis && orphans == old(orphans) - {addThis} &&
        var rest := Detached(old(kids), addThis); self in rest && kids == rest[self := Behind(rest[self], afterThis, addThis)]
    {
      hide Forest, ListIs, Counts, IsUnder, Detached, Waiting, Behind;
      if addThis.document != self.document { return null; }
      if afterThis.parent != self { return null; }
      if afterThis == addThis { return addThis; }
      r := InsertBehind(self, afterThis, addThis);
    }

    method InsertBehind(self: Node, afterThis: Node, addThis: Node) returns (r: Node)
      requires Valid() && MayInsert(self, addThis) && afterThis in nodes && addThis.document == id
      requires afterThis.parent == self && afterThis != addThis && !(afterThis.next == addThis && addThis.next == null)
      modifies this, All(), unlinked, unlinked.mem
      ensures Valid() && nodes == old(nodes) && unlinked.mem == old(unlinked.mem)
      ensures r == addThis && orphans == old(orphans) - {addThis}
      ensures var rest := Detached(old(kids), addThis);
        self in rest && kids == rest[self := Behind(rest[self], afterThis, addThis)]
    {
      hide Forest, ListIs, Counts, IsUnder, Detached, Waiting, Behind;
      ghost var front, back := AfterRemoval(self, afterThis, addThis);
      BehindIs(front, afterThis, back, addThis);
      if afterThis.next == null {
        r := InsertEndChild(self, addThis);
        assert front + [afterThis] + [] == front + [afterThis];
        assert front + [afterThis] + [addThis] + [] == front + [afterThis] + [addThis];
      } else {
        InsertPreamble(self, addThis);
        LinkAfter(self, afterThis, addThis, front + [afterThis], back);
        r := addThis;
      }
    }

    /** Where `afterThis` stands once `addThis` has been taken out, and exactly when nothing is left behind it. */
    lemma AfterRemoval(self: Node, afterThis: Node, addThis: Node) returns (front: seq<Node>, back: seq<Node>)
      requires Tree() && afterThis in nodes && afterThis.parent == self && afterThis != addThis
      requires addThis in nodes
      ensures self in kids && Detached(kids, addThis)[self] == front + [afterThis] + back && afterThis !in front
      ensures back == [] <==> afterThis.next == null || (afterThis.next == addThis && addThis.next == null)
    {
      hide Forest;
      var s := Snapshot(All());
      var p, f, b := Place(afterThis);
      KidsDistinct(s, kids, rank, self);
      LastIfNoNext(s, kids, rank, self, f, b, afterThis);
      assert b != [] ==> s[b[0]] == View(b[0]);
      assert s[afterThis] == View(afterThis) && s[addThis] == View(addThis);
      front, back := WithoutAround(f, afterThis, b, addThis);
    }

    // ---------- destroying ----------

    ghost function Now(): State<Node>
      reads `nodes, `kids, `rank, All()
    {
      State(Snapshot(All()), kids, rank)
    }

    ghost predicate Settling(moving: set<Node>)
      reads this, All(), unlinked, unlinked.mem
    {
      Tree() && Listed() && Placed(moving) && Counted()
    }

    /** MarkInUse, for a node whose pool has tracked it. */
    method TakeOut(node: Node, ghost moving: set<Node>)
      requires Tree() && Listed() && Placed(moving) && node in nodes && node.parent == null
      requires Counts(currentAllocs, nodes) && Counts(untracked, orphans - {node})
      modifies this`orphans, unlinked, unlinked.mem
      ensures Settling(moving + {node}) && orphans == old(orphans) - {node} && unlinked.mem == old(unlinked.mem)
    {
      hide Forest, Listed, Counts;
      MarkInUse(node);
    }

    /** XMLNode.DeleteNode and the destructor it runs, for a node without a parent. */
    method Destroy(node: Node, ghost moving: set<Node>, ghost height: nat)
      requires Tree() && Listed() && Placed(moving) && node in nodes && node.parent == null
      requires Counts(currentAllocs, nodes) && Counts(untracked, orphans - {node})
      requires node in rank && forall n :: n in rank ==> rank[n] <= height
      modifies this, All(), unlinked, unlinked.mem
      ensures Settling(moving - {node}) && Cut(old(Now()), Now(), node)
      ensures nodes < old(nodes) && orphans == old(orphans) - {node} && unlinked.mem == old(unlinked.mem)
      decreases height - rank[node], 1
    {
      hide Forest, ListIs, Counts, Cut, Pruned;
      ghost var f := Now();
      assert f.s[node] == View(node);
      TakeOut(node, moving);
      DeleteChildren(node, moving + {node}, height);
      Release(f, node, moving);
    }

    /** The pool takes the node back. */
    method Release(ghost f: State<Node>, node: Node, ghost moving: set<Node>)
      requires Settling(moving + {node}) && node in nodes && node.parent == null && node !in orphans
      requires Pruned(f, Now(), node) && node in kids && kids[node] == [] && node in f.s && f.s[node].parent == None
      modifies this
      ensures Settling(moving - {node}) && Cut(f, Now(), node)
      ensures nodes == old(nodes) - {node} && orphans == old(orphans)
    {
      hide Forest, ListIs, Counts, Cut, Pruned;
      CountsWithout(currentAllocs, nodes, node);
      currentAllocs := currentAllocs.Add(node.pool, -1);
      Forget(f, node);
    }

    ghost method Forget(f: State<Node>, node: Node)
      requires Tree() && node in nodes && Pruned(f, Now(), node) && node in kids && kids[node] == []
      requires node in f.s && f.s[node].parent == None
      modifies this`nodes, this`kids, this`rank
      ensures Tree() && Cut(f, Now(), node) && nodes == old(nodes) - {node}
    {
      hide Forest, Cut, Pruned;
      CutWhole(f, Now(), node);
      CutIsOk(f, Minus(Now(), node), node);
      ghost var s := Snapshot(All());
      nodes, kids, rank := nodes - {node}, kids - {node}, rank - {node};
      assert All() == old(All()) - {node};
      assert Snapshot(All()) == s - {node};
    }

    method DeleteChildren(self: Node, ghost moving: set<Node>, ghost height: nat)
      requires Settling(moving) && self in All()
      requires self in rank && forall n :: n in rank ==> rank[n] <= height
      modifies this, All(), unlinked, unlinked.mem
      ensures Settling(moving) && Pruned(old(Now()), Now(), self) && self in kids && kids[self] == []
      ensures nodes <= old(nodes) && orphans == old(orphans) && unlinked.mem == old(unlinked.mem)
      decreases height - rank[self], 0
    {
      hide Forest, ListIs, Counts, Cut, Pruned, CutChild, Listed, Placed, Counted;
      ghost var f := Now();
      StartPruning(self);
      while self.firstChild != null
        invariant Settling(moving) && Pruned(f, Now(), self) && self in All()
        invariant self in rank && rank[self] == old(rank[self]) && forall n :: n in rank ==> rank[n] <= height
        invariant nodes <= old(nodes) && orphans == old(orphans) && unlinked.mem == old(unlinked.mem)
        decreases nodes
      {
        ghost var g := Now();
        FirstOf(self);
        ghost var c: Node := self.firstChild;
        UnlinkAndDestroy(self.firstChild, moving, height);
        PrunedFurther(f, g, Now(), self, c);
        PrunedRanks(f, Now(), self, height);
      }
      NoneLeft(self, f, moving);
    }

    method NoneLeft(self: Node, ghost f: State<Node>, ghost moving: set<Node>)
      requires Settling(moving) && Pruned(f, Now(), self) && self in All() && self.firstChild == null
      modifies self
      ensures Settling(moving) && Pruned(f, Now(), self) && self in kids && kids[self] == []
    {
      hide Forest, ListIs, Counts, Pruned;
      FirstOf(self);
      ghost var s := Snapshot(All());
      self.firstChild, self.lastChild := null, null;
      assert Snapshot(All()) == s;
    }

    lemma StartPruning(self: Node)
      requires Tree() && self in All()
      ensures Pruned(Now(), Now(), self)
    {
      PrunedNothing(Now(), self);
    }

    lemma FirstOf(self: Node)
      requires Tree() && self in All()
      ensures self in kids && self in rank
      ensures self.firstChild == null ==> kids[self] == [] && self.lastChild == null
      ensures self.firstChild != null ==>
        self.firstChild in nodes && self.firstChild.parent == self && Now().s[self.firstChild].parent == Some(self)
        && self.firstChild in rank && rank[self] < rank[self.firstChild]
    {
      KidsAreNodes();
      var s := Snapshot(All());
      EndsOf(s, kids, rank, self);
      assert s[self] == View(self);
      if kids[self] != [] {
        NotOwnChild(s, kids, rank, self, kids[self][0]);
        assert s[kids[self][0]] == View(kids[self][0]);
      }
    }

    method UnlinkAndDestroy(node: Node, ghost moving: set<Node>, ghost height: nat)
      requires Settling(moving) && node in nodes && node.parent != null
      requires node in rank && forall n :: n in rank ==> rank[n] <= height
      modifies this, All(), unlinked, unlinked.mem
      ensures Settling(moving) && CutChild(old(Now()), Now(), node)
      ensures nodes < old(nodes) && orphans == old(orphans) && unlinked.mem == old(unlinked.mem)
      decreases height - rank[node], 2
    {
      hide Forest, ListIs, Counts, Cut, Pruned, CutChild, ParentsKept, Detached;
      ghost var f := Now();
      Unlink(node);
      ghost var g := Now();
      assert orphans - {node} == orphans;
      Destroy(node, moving + {node}, height);
      CutUnlinked(f, g, Now(), node);
    }

    /** XMLNode.DeleteChild: destroys a child with everything below it. */
    method DeleteChild(self: Node, node: Node)
      requires Valid() && node in nodes && node.parent == self
      modifies this, All(), unlinked, unlinked.mem
      ensures Valid() && CutChild(old(Now()), Now(), node)
      ensures nodes < old(nodes) && orphans == old(orphans) && unlinked.mem == old(unlinked.mem)
    {
      hide Forest, ListIs, Counts, CutChild;
      KidsAreNodes();
      ghost var height := HighestRank();
      UnlinkAndDestroy(node, {}, height);
    }

    lemma HighestRank() returns (height: nat)
      requires Tree()
      ensures rank.Keys == All() && forall n :: n in rank ==> rank[n] <= height
    {
      height := MaxRank(rank);
    }

    /** XMLDocument.DeleteNode: for nodes in the tree and for unlinked ones. */
    method DeleteNode(node: Node)
      requires Valid() && node in nodes
      modifies this, All(), unlinked, unlinked.mem
      ensures Valid() && nodes < old(nodes) && orphans == old(orphans) - {node} && unlinked.mem == old(unlinked.mem)
      ensures if old(node.parent) == null then Cut(old(Now()), Now(), node) else CutChild(old(Now()), Now(), node)
    {
      hide Forest, ListIs, Counts, Cut, CutChild;
      if node.parent != null {
        DeleteChild(node.parent, node);
      } else {
        CountsWithout(untracked, orphans, node);
        untracked := untracked.Add(node.pool, -1);
        ghost var height := HighestRank();
        Destroy(node, {}, height);
      }
    }

    /** Frees every node, in the tree or not. */
    method Clear()
      requires Valid()
      modifies this, All(), unlinked, unlinked.mem
      ensures Valid() && nodes == {} && unlinked.size == 0 && kids == map[root := []]
      ensures currentAllocs == NONE && untracked == NONE
    {
      hide Forest, ListIs, Counts, Cut, CutChild, Pruned;
      ghost var height := HighestRank();
      DeleteChildren(root, {}, height);
      while unlinked.size > 0
        invariant Valid() && root in kids && kids[root] == [] && unlinked.mem == old(unlinked.mem) && nodes <= old(nodes)
        decreases nodes
      {
        FirstListed(unlinked.Contents(), orphans);
        ghost var f := Now();
        ghost var first := unlinked.mem[0];
        DeleteNode(unlinked.mem[0]);
        RootKept(f, first);
      }
      AllGone();
    }

    lemma RootKept(f: State<Node>, c: Node)
      requires Tree() && Cut(f, Now(), c) && root in f.kids && f.kids[root] == []
      ensures root in kids && kids[root] == []
    {
      KidsAreNodes();
    }

    /** With the list of unlinked nodes and that of the root empty, no node is left. */
    lemma AllGone()
      requires Valid() && root in kids && kids[root] == [] && unlinked.size == 0
      ensures nodes == {} && kids == map[root := []] && currentAllocs == NONE && untracked == NONE
    {
      NullParents(All());
      KidsAreNodes();
      NothingListed(unlinked.Contents(), orphans);
      forall n | n in nodes ensures false {
        OnlyRoot(Snapshot(All()), kids, rank, root, n);
      }
      CountedNone(currentAllocs);
      CountedNone(untracked);
    }
  }

  /** Each node comes from exactly one pool. */
  lemma CountedInPools(counters: Counters, members: set<Node>)
    requires Counts(counters, members)
    ensures counters.element + counters.text + counters.comment == |members|
  {
    var (elements, texts, comments) := (OfPool(members, ElementPool), OfPool(members, TextPool), OfPool(members, CommentPool));
    assert members == elements + texts + comments;
    assert counters.Get(ElementPool) == |elements| && counters.Get(TextPool) == |texts| && counters.Get(CommentPool) == |comments|;
    assert elements !! texts && (elements + texts) !! comments;
  }

  lemma CountedNone(counters: Counters)
    requires Counts(counters, {})
    ensures counters == NONE
  {
    assert OfPool({}, ElementPool) == {} && OfPool({}, TextPool) == {} && OfPool({}, CommentPool) == {};
    assert counters.Get(ElementPool) == 0 && counters.Get(TextPool) == 0 && counters.Get(CommentPool) == 0;
  }

  lemma FirstListed(list: seq<Node?>, members: set<Node>)
    requires ListIs(list, members) && list != []
    ensures list[0] != null && list[0] in members
  {
    assert list[0] in list;
  }

  lemma NothingInList()
    ensures ListIs([], {})
  {
  }

  lemma NothingListed(list: seq<Node?>, members: set<Node>)
    requires ListIs(list, members) && list == []
    ensures members == {}
  {
    assert forall n :: n in members ==> n in list;
  }

  lemma NotListed(list: seq<Node?>, members: set<Node>, n: Node)
    requires ListIs(list, members) && forall k :: 0 <= k < |list| ==> list[k] != n
    ensures n !in members
  {
  }
}