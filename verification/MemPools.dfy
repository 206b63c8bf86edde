/** MemPoolT: blocks of equal items, threaded on one free list. */
module MemPools {
  import opened Bytes
  import opened DynArrays
  import opened Sequences

  /** An item is a link while it is free; once handed out it belongs to the caller, who may overwrite it. */
  class Item {
    var next: Item?

    constructor (next: Item?)
      ensures this.next == next
    {
      this.next := next;
    }
  }

  class Block {
    const items: seq<Item>

    constructor (items: seq<Item>)
      ensures this.items == items
    {
      this.items := items;
    }
  }

  /** `list` is the chain of links that starts at `root`. */
  ghost predicate IsList(root: Item?, list: seq<Item>)
    reads list
  {
    if list == [] then root == null else root == list[0] && IsList(list[0].next, list[1..])
  }

  /** All items of all blocks. */
  function AllItems(blocks: seq<Block?>): seq<Item> {
    if blocks == [] then [] else AllItems(blocks[..|blocks| - 1]) + ItemsOf(blocks[|blocks| - 1])
  }

  function ItemsOf(block: Block?): seq<Item> {
    if block == null then [] else block.items
  }

  /** Live and free items share the blocks: each item of a block is one of the two, and the free list has no cycle. */
  ghost predicate Partition(live: set<Item>, free: seq<Item>, items: seq<Item>) {
    && Distinct(free) && Distinct(items)
    && live !! Elems(free) && live + Elems(free) == Elems(items)
  }

  lemma Taken(live: set<Item>, free: seq<Item>, items: seq<Item>)
    requires Partition(live, free, items) && free != []
    ensures Partition(live + {free[0]}, free[1..], items) && free[0] !in live && free[0] !in free[1..]
    ensures |live + {free[0]}| == |live| + 1
  {
    assert Elems(free) == {free[0]} + Elems(free[1..]);
  }

  lemma DistinctCons(item: Item, free: seq<Item>)
    requires Distinct(free) && item !in free
    ensures Distinct([item] + free) && Elems([item] + free) == {item} + Elems(free)
  {
  }

  lemma PutBack(live: set<Item>, free: seq<Item>, items: seq<Item>, item: Item)
    requires Partition(live, free, items) && item in live
    ensures Partition(live - {item}, [item] + free, items) && item !in free && |live - {item}| == |live| - 1
  {
    hide Distinct;
    DistinctCons(item, free);
    assert live - {item} + {item} == live;
  }

  lemma ApartWhenNoneFree(live: set<Item>, items: seq<Item>, more: seq<Item>)
    requires Partition(live, [], items) && forall i :: 0 <= i < |more| ==> more[i] !in live
    ensures Elems(items) !! Elems(more)
  {
  }

  lemma Extended(live: set<Item>, items: seq<Item>, more: seq<Item>)
    requires Partition(live, [], items) && Distinct(more)
    requires Elems(items) !! Elems(more)
    ensures Partition(live, more, items + more)
  {
    assert Elems(items + more) == Elems(items) + Elems(more);
    forall i, j | 0 <= i < j < |items + more| ensures (items + more)[i] != (items + more)[j] {
      assert (items + more)[i] in (if i < |items| then Elems(items) else Elems(more));
      assert (items + more)[j] in (if j < |items| then Elems(items) else Elems(more));
    }
  }

  lemma NoBlocks()
    ensures AllItems([]) == [] && Partition({}, [], []) && IsList(null, [])
  {
  }

  lemma ListHead(root: Item?, list: seq<Item>)
    requires IsList(root, list)
    ensures root == null <==> list == []
    ensures list != [] ==> root == list[0] && IsList(list[0].next, list[1..])
  {
  }

  lemma ListCons(item: Item, list: seq<Item>)
    requires IsList(item.next, list)
    ensures IsList(item, [item] + list)
  {
    assert ([item] + list)[1..] == list;
  }

  /** Items linked one to the next, the last to nothing, are a list. */
  lemma {:induction false} ChainIsList(items: seq<Item>)
    requires items != [] && items[|items| - 1].next == null
    requires forall k :: 0 <= k < |items| - 1 ==> items[k].next == items[k + 1]
    ensures IsList(items[0], items)
  {
    if |items| > 1 { ChainIsList(items[1..]); }
  }

  lemma AddBlock(blocks: seq<Block?>, block: Block)
    ensures AllItems(blocks + [block]) == AllItems(blocks) + block.items
  {
    assert (blocks + [block])[..|blocks|] == blocks;
  }

  class MemPool {
    const itemsPerBlock: nat
    const blockPtrs: DynArray<Block?>
    var root: Item?
    var currentAllocs: int
    var nAllocs: int
    var maxAllocs: int
    var nUntracked: int

    // The free list in order, and the items handed out.
    ghost var free: seq<Item>
    ghost var live: set<Item>

    /**
      The free list is acyclic; free and live items are disjoint and together all items of all blocks; the counters
      count. Nothing is said about the memory of live items, which belongs to the callers.
    */
    ghost predicate Valid()
      reads this, blockPtrs, blockPtrs.mem, free
    {
      && itemsPerBlock > 0 && blockPtrs.Valid()
      && IsList(root, free)
      && |Items()| == itemsPerBlock * blockPtrs.size
      && Partition(live, free, Items())
      && currentAllocs == |live| && currentAllocs <= maxAllocs <= nAllocs
    }

    ghost function Items(): seq<Item>
      reads this, blockPtrs, blockPtrs.mem
      requires blockPtrs.Valid()
    {
      AllItems(blockPtrs.Contents())
    }

    constructor (itemSize: nat)
      requires 0 < itemSize <= 4096
      ensures Valid() && live == {} && nUntracked == 0 && itemsPerBlock == 4096 / itemSize
      ensures fresh(blockPtrs) && fresh(blockPtrs.mem)
    {
      itemsPerBlock := 4096 / itemSize;
      blockPtrs := new DynArray(10);
      root, currentAllocs, nAllocs, maxAllocs, nUntracked := null, 0, 0, 0, 0;
      free, live := [], {};
    }

    /** No item is lost: what is not handed out is on the free list. */
    lemma EveryItemCounted()
      requires Valid()
      ensures currentAllocs + |free| == itemsPerBlock * blockPtrs.size
    {
      DistinctCount(free);
      DistinctCount(Items());
    }

    method NewBlock() returns (block: Block)
      requires itemsPerBlock > 0
      ensures fresh(block) && |block.items| == itemsPerBlock && Distinct(block.items)
      ensures forall i :: 0 <= i < itemsPerBlock ==> fresh(block.items[i])
    {
      var items: seq<Item> := [];
      while |items| < itemsPerBlock
        invariant |items| <= itemsPerBlock && Distinct(items)
        invariant forall i :: 0 <= i < |items| ==> fresh(items[i])
      {
        var item := new Item(null);
        items := items + [item];
      }
      block := new Block(items);
    }

    method LinkItems(items: seq<Item>)
      requires items != [] && Distinct(items)
      modifies items
      ensures IsList(items[0], items)
    {
      var i := 0;
      while i < |items| - 1
        invariant 0 <= i <= |items| - 1
        invariant forall k :: 0 <= k < i ==> items[k].next == items[k + 1]
      {
        items[i].next := items[i + 1];
        i := i + 1;
      }
      items[|items| - 1].next := null;
      ChainIsList(items);
    }

    /** A new block, all of it on the free list. */
    method Grow()
      requires Valid() && root == null && blockPtrs.Fits(blockPtrs.size + 1)
      modifies this`root, this`free, blockPtrs, blockPtrs.mem
      ensures Valid() && free != [] && forall i :: 0 <= i < |free| ==> fresh(free[i])
      ensures blockPtrs.mem == old(blockPtrs.mem) || fresh(blockPtrs.mem)
    {
      hide IsList, Distinct, Elems, AllItems, Partition;
      ListHead(root, free);
      var block := NewBlock();
      AddToBlocks(block);
      LinkItems(block.items);
      root := block.items[0];
      free := block.items;
    }

    method AddToBlocks(block: Block)
      requires Valid() && free == [] && blockPtrs.Fits(blockPtrs.size + 1)
      requires |block.items| == itemsPerBlock && Distinct(block.items)
      requires forall i :: 0 <= i < itemsPerBlock ==> block.items[i] !in live
      modifies blockPtrs, blockPtrs.mem
      ensures blockPtrs.Valid() && Partition(live, block.items, Items())
      ensures |Items()| == itemsPerBlock * blockPtrs.size
      ensures blockPtrs.mem == old(blockPtrs.mem) || fresh(blockPtrs.mem)
    {
      hide IsList, Distinct, Elems, AllItems, Partition;
      ApartWhenNoneFree(live, Items(), block.items);
      AddBlock(blockPtrs.Contents(), block);
      Extended(live, Items(), block.items);
      blockPtrs.Push(block);
    }

    method TakeRoot() returns (result: Item)
      requires Valid() && free != []
      modifies this
      ensures Valid() && result == old(free[0]) && result !in old(live)
      ensures live == old(live) + {result} && free == old(free[1..])
      ensures nUntracked == old(nUntracked) + 1 && nAllocs == old(nAllocs) + 1
    {
      hide IsList, Distinct, Elems, AllItems, Partition;
      ListHead(root, free);
      Taken(live, free, Items());
      result := root;
      root := root.next;
      free := free[1..];
      live := live + {result};
      currentAllocs := currentAllocs + 1;
      if currentAllocs > maxAllocs { maxAllocs := currentAllocs; }
      nAllocs := nAllocs + 1;
      nUntracked := nUntracked + 1;
    }

    /** Hands out an item that is not live: the most recently freed one, if there is one. */
    method Alloc() returns (result: Item)
      requires Valid() && nAllocs < INT_MAX
      requires root == null ==> blockPtrs.Fits(blockPtrs.size + 1)
      modifies this, blockPtrs, blockPtrs.mem
      ensures Valid() && result !in old(live) && live == old(live) + {result}
      ensures old(free) != [] ==> result == old(free[0]) && free == old(free[1..])
      ensures old(free) == [] ==> fresh(result) && forall i :: 0 <= i < |free| ==> fresh(free[i])
      ensures nUntracked == old(nUntracked) + 1 && nAllocs == old(nAllocs) + 1
      ensures blockPtrs.mem == old(blockPtrs.mem) || fresh(blockPtrs.mem)
    {
      hide IsList, Distinct, Elems, AllItems, Partition;
      ListHead(root, free);
      if root == null { Grow(); }
      result := TakeRoot();
    }

    /** Takes a live item back. */
    method Free(item: Item?)
      requires Valid() && (item != null ==> item in live)
      modifies this, item
      ensures Valid() && nUntracked == old(nUntracked) && nAllocs == old(nAllocs)
      ensures item == null ==> live == old(live) && free == old(free)
      ensures item != null ==> live == old(live) - {item} && free == [item] + old(free)
    {
      hide IsList, Distinct, Elems, AllItems, Partition;
      if item == null { return; }
      PutBack(live, free, Items(), item);
      currentAllocs := currentAllocs - 1;
      item.next := root;
      ListCons(item, free);
      root := item;
      free := [item] + free;
      live := live - {item};
    }

    method SetTracked()
      requires Valid()
      modifies this`nUntracked
      ensures Valid() && nUntracked == old(nUntracked) - 1
    {
      nUntracked := nUntracked - 1;
    }

    /** Gives all blocks back, whatever is still live in them. */
    method Clear()
      requires Valid()
      modifies this, blockPtrs
      ensures Valid() && live == {} && free == [] && blockPtrs.size == 0 && nUntracked == 0 && nAllocs == 0
      ensures blockPtrs.mem == old(blockPtrs.mem)
    {
      hide IsList, Distinct, Elems, AllItems, Partition;
      while blockPtrs.size > 0
        modifies blockPtrs
        invariant blockPtrs.Valid() && blockPtrs.mem == old(blockPtrs.mem)
        decreases blockPtrs.size
      {
        var lastBlock := blockPtrs.Pop();
      }
      root, free, live := null, [], {};
      currentAllocs, nAllocs, maxAllocs, nUntracked := 0, 0, 0, 0;
      NoBlocks();
    }
  }
}
