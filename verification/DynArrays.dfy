/** DynArray: the growable array under the node pools, the document's bookkeeping and the printer's buffer. */
module DynArrays {
  import opened Bytes

  class DynArray<T(0)> {
    var mem: array<T>
    var size: nat
    const initialSize: nat

    // The largest size asked for so far, and how many elements growth has copied in all.
    ghost var peak: nat
    ghost var copied: nat

    /** Doubling pays: all growth together copies at most twice the largest size asked for, or the initial size. */
    ghost predicate Valid()
      reads this
    {
      && size <= mem.Length && size <= peak
      && initialSize <= mem.Length <= INT_MAX
      && (mem.Length == initialSize || mem.Length <= 2 * peak)
      && copied <= mem.Length
    }

    ghost function Contents(): (s: seq<T>)
      reads this, mem
      requires Valid()
      ensures |s| == size
    {
      mem[..size]
    }

    constructor (initialSize: nat)
      requires initialSize <= INT_MAX
      ensures Valid() && fresh(mem) && this.initialSize == initialSize && mem.Length == initialSize
      ensures Contents() == [] && peak == 0 && copied == 0
    {
      this.initialSize := initialSize;
      mem := new T[initialSize];
      size, peak, copied := 0, 0, 0;
    }

    /** A capacity the array has, or whose double is still an int. */
    predicate Fits(cap: int)
      reads this
    {
      cap <= mem.Length || cap <= INT_MAX / 2
    }

    method EnsureCapacity(cap: nat)
      requires Valid() && Fits(cap) && size <= cap
      modifies this
      ensures Valid() && size == old(size) && peak == if cap > old(peak) then cap else old(peak)
      ensures mem.Length == if cap > old(mem.Length) then 2 * cap else old(mem.Length)
      ensures if cap > old(mem.Length) then fresh(mem) else mem == old(mem)
      ensures Contents() == old(Contents())
    {
      if cap > peak { peak := cap; }
      if cap > mem.Length {
        var newMem := new T[2 * cap];
        var i := 0;
        while i < size
          modifies newMem
          invariant 0 <= i <= size && newMem[..i] == mem[..i]
        {
          newMem[i] := mem[i];
          i := i + 1;
        }
        mem := newMem;
        copied := copied + size;
      }
    }

    method Push(t: T)
      requires Valid() && Fits(size + 1)
      modifies this, mem
      ensures Valid() && Contents() == old(Contents()) + [t]
      ensures mem == old(mem) || fresh(mem)
    {
      EnsureCapacity(size + 1);
      mem[size] := t;
      size := size + 1;
    }

    /** Makes room for `count` elements and returns where they start; the caller fills them in. */
    method PushArr(count: nat) returns (start: nat)
      requires Valid() && Fits(size + count)
      modifies this
      ensures Valid() && start == old(size) && size == start + count
      ensures Contents()[..start] == old(Contents())
      ensures mem == old(mem) || fresh(mem)
    {
      EnsureCapacity(size + count);
      start := size;
      size := size + count;
    }

    method Pop() returns (t: T)
      requires Valid() && size > 0
      modifies this
      ensures Valid() && mem == old(mem)
      ensures old(Contents()) == Contents() + [t]
    {
      size := size - 1;
      t := mem[size];
    }

    method PopArr(count: nat)
      requires Valid() && count <= size
      modifies this
      ensures Valid() && mem == old(mem) && Contents() == old(Contents()[..size - count])
    {
      size := size - count;
    }

    /** Removes one element and keeps the others, each as often as before; only their order changes. */
    method SwapRemove(i: nat)
      requires Valid() && i < size
      modifies this, mem
      ensures Valid() && mem == old(mem)
      ensures Contents() == SwapRemoved(old(Contents()), i)
    {
      mem[i] := mem[size - 1];
      size := size - 1;
    }
  }

  function SwapRemoved<T>(s: seq<T>, i: nat): seq<T>
    requires i < |s|
  {
    s[i := s[|s| - 1]][..|s| - 1]
  }

  lemma SwapRemovedKeepsOthers<T>(s: seq<T>, i: nat)
    requires i < |s|
    ensures multiset(s) == multiset(SwapRemoved(s, i)) + multiset{s[i]}
  {
    var n := |s| - 1;
    if i == n {
      assert SwapRemoved(s, i) == s[..n] && s == s[..n] + [s[n]];
    } else {
      var (front, middle) := (s[..i], s[i + 1..n]);
      assert s == front + [s[i]] + middle + [s[n]];
      assert SwapRemoved(s, i) == front + [s[n]] + middle;
      CountParts(front, s[i], middle, s[n]);
    }
  }

  lemma CountParts<T>(front: seq<T>, x: T, middle: seq<T>, last: T)
    ensures multiset(front + [x] + middle + [last]) == multiset(front + [last] + middle) + multiset{x}
  {
  }
}
