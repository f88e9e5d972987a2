/**
 The LRU heap: a slice of entries ordered by last access, each entry knowing
 its own index, with the sifts of Go's container/heap.
 */
module FallxHeap {
  import opened FallxHeapOrder

  type Key = seq<bv8>

  class Entry<T> {
    const key: Key
    var value: T
    var expiresAt: int
    var lastAccess: int
    var heapIndex: int

    constructor (key: Key, value: T, expiresAt: int, lastAccess: int)
      ensures this.key == key && this.value == value && this.expiresAt == expiresAt
      ensures this.lastAccess == lastAccess && heapIndex == -1
    {
      this.key, this.value, this.expiresAt, this.lastAccess, heapIndex := key, value, expiresAt, lastAccess, -1;
    }
  }

  class LruHeap<T> {
    var items: seq<Entry<T>>

    /** Back-indices; they also make the entries pairwise distinct. */
    ghost predicate Indexed()
      reads this, items
    {
      forall i {:trigger items[i]} :: 0 <= i < |items| ==> items[i].heapIndex == i
    }

    ghost function Keys(): (k: seq<int>)
      reads this, items
      ensures |k| == |items| && forall i :: 0 <= i < |k| ==> k[i] == items[i].lastAccess
    {
      seq(|items|, i requires 0 <= i < |items| reads this, items => items[i].lastAccess)
    }

    ghost predicate Valid()
      reads this, items
    {
      Indexed() && Heap(Keys())
    }

    ghost function Members(): set<Entry<T>>
      reads this
    {
      set e | e in items
    }

    constructor ()
      ensures items == [] && Valid()
    {
      items := [];
    }

    method Swap(i: nat, j: nat)
      requires Indexed() && i < |items| && j < |items| && i != j
      modifies this, Members()`heapIndex
      ensures items == old(items)[i := old(items[j])][j := old(items[i])]
      ensures Indexed() && Members() == old(Members()) && Keys() == Swapped(old(Keys()), i, j)
    {
      items := items[i := items[j]][j := items[i]];
      items[i].heapIndex := i;
      items[j].heapIndex := j;
      SwapKeepsMembers(old(items), i, j);
    }

    lemma SwapKeepsMembers(s: seq<Entry<T>>, i: nat, j: nat)
      requires i < |s| && j < |s|
      ensures (set e | e in s) == (var t := s[i := s[j]][j := s[i]]; set e | e in t)
    {
      var t := s[i := s[j]][j := s[i]];
      forall e | e in s
        ensures e in t
      {
        var x :| 0 <= x < |s| && s[x] == e;
        assert t[if x == i then j else if x == j then i else x] == e;
      }
    }

    /** heap.up, with everything from n on left alone. */
    method Up(j0: nat, ghost n: nat)
      requires Indexed() && j0 < n <= |items| && Rising(Keys()[..n], j0)
      modifies this, Members()`heapIndex
      ensures |items| == |old(items)| && Members() == old(Members())
      ensures forall k :: n <= k < |items| ==> items[k] == old(items)[k]
      ensures Indexed() && Heap(Keys()[..n])
    {
      var j: nat := j0;
      while true
        invariant j < n && |items| == |old(items)| && Members() == old(Members())
        invariant forall k :: n <= k < |items| ==> items[k] == old(items)[k]
        invariant Indexed() && Rising(Keys()[..n], j)
        decreases j
      {
        ghost var keys := Keys()[..n];
        if j == 0 {
          break;
        }
        var i: nat := (j - 1) / 2;
        if items[j].lastAccess >= items[i].lastAccess {
          break;
        }
        RiseStep(keys, j);
        SwappedPrefix(Keys(), i, j, n);
        Swap(i, j);
        j := i;
      }
      RiseDone(Keys()[..n], j);
    }

    /** The child of i that a sift down would swap with, if i has one below n. */
    method PickChild(i: nat, n: nat) returns (j: nat)
      requires Indexed() && i < n <= |items|
      ensures if 2 * i + 1 < n then i < j < n && SmallestChild(Keys()[..n], i, j) else j == i && NoChild(Keys()[..n], i)
    {
      var j1 := 2 * i + 1;
      if j1 >= n {
        return i;
      }
      j := j1;
      if j1 + 1 < n && items[j1 + 1].lastAccess < items[j1].lastAccess {
        j := j1 + 1;
      }
    }

    /** heap.down over the first n positions; reports whether the entry moved. */
    method Down(i0: nat, n: nat) returns (moved: bool)
      requires Indexed() && i0 < n <= |items| && HeapAround(Keys()[..n], i0)
      modifies this, Members()`heapIndex
      ensures |items| == |old(items)| && Members() == old(Members())
      ensures forall k :: n <= k < |items| ==> items[k] == old(items)[k]
      ensures Indexed()
      ensures if moved then Heap(Keys()[..n]) else items == old(items) && Rising(Keys()[..n], i0)
    {
      hide Heap, HeapAround, Sinking, Rising, SmallestChild, NoChild, Swapped;
      var i: nat := i0;
      while true
        invariant i0 <= i < n && |items| == |old(items)| && Members() == old(Members())
        invariant Indexed() && forall k :: n <= k < |items| ==> items[k] == old(items)[k]
        invariant if i == i0 then items == old(items) && HeapAround(Keys()[..n], i) else Sinking(Keys()[..n], i)
        decreases n - i
      {
        ghost var keys := Keys()[..n];
        var j := PickChild(i, n);
        if j == i {
          LeafDone(keys, i);
          break;
        }
        if items[j].lastAccess >= items[i].lastAccess {
          SinkDone(keys, i, j);
          break;
        }
        SinkStep(keys, i, j);
        SwappedPrefix(Keys(), i, j, n);
        Swap(i, j);
        i := j;
      }
      moved := i > i0;
    }

    /** Sift down, then up if nothing moved: the common part of heap.Fix and heap.Remove. */
    method Settle(i: nat, n: nat)
      requires Indexed() && i < n <= |items| && HeapAround(Keys()[..n], i)
      modifies this, Members()`heapIndex
      ensures |items| == |old(items)| && Members() == old(Members())
      ensures forall k :: n <= k < |items| ==> items[k] == old(items)[k]
      ensures Indexed() && Heap(Keys()[..n])
    {
      hide Heap, HeapAround, Sinking, Rising;
      var moved := Down(i, n);
      if !moved {
        Up(i, n);
      }
    }

    /** heap.Fix: restore the order around i. */
    method Fix(i: nat)
      requires Indexed() && i < |items| && HeapAround(Keys(), i)
      modifies this, Members()`heapIndex
      ensures Valid() && Members() == old(Members()) && |items| == |old(items)|
    {
      assert Keys()[..|items|] == Keys();
      Settle(i, |items|);
      assert Keys()[..|items|] == Keys();
    }

    /** touch: a new access time for one entry. */
    method Touch(e: Entry<T>, t: int)
      requires Valid() && e in items
      modifies this, Members()`heapIndex, e`lastAccess
      ensures Valid() && Members() == old(Members()) && |items| == |old(items)|
      ensures e.lastAccess == t
    {
      ghost var i: nat :| i < |items| && items[i] == e;
      RekeyKeepsAround(Keys(), i, t);
      ghost var rekeyed := Keys()[i := t];
      e.lastAccess := t;
      assert Keys() == rekeyed;
      Fix(e.heapIndex);
    }

    /** heap.Push */
    method Push(e: Entry<T>)
      requires Valid() && e !in items
      modifies this, Members()`heapIndex, e`heapIndex
      ensures Valid() && Members() == old(Members()) + {e} && |items| == |old(items)| + 1
    {
      AppendIsRising(Keys(), e.lastAccess);
      ghost var appended := Keys() + [e.lastAccess];
      e.heapIndex := |items|;
      items := items + [e];
      assert Keys() == appended;
      assert Members() == old(Members()) + {e};
      assert Keys()[..|items|] == Keys();
      Up(|items| - 1, |items|);
      assert Keys()[..|items|] == Keys();
    }

    /** heap.Remove at any index. */
    method RemoveAt(i: nat) returns (e: Entry<T>)
      requires Valid() && i < |items|
      modifies this, Members()`heapIndex
      ensures e == old(items)[i] && e.heapIndex == -1
      ensures Valid() && Members() == old(Members()) - {e} && |items| == |old(items)| - 1
    {
      hide Heap, HeapAround, Sinking, Rising;
      var n := |items| - 1;
      PrefixIsHeap(Keys(), n);
      if n != i {
        MoveLastTo(i);
        Settle(i, n);
      }
      e := Pop();
    }

    /** The first step of Remove: swap position i with the last one. */
    method MoveLastTo(i: nat)
      requires Valid() && i < |items| - 1
      modifies this, Members()`heapIndex
      ensures |items| == |old(items)| && Members() == old(Members()) && Indexed()
      ensures items[|items| - 1] == old(items)[i] && HeapAround(Keys()[..|items| - 1], i)
    {
      var n := |items| - 1;
      ghost var keys := Keys();
      PrefixIsHeap(keys, n);
      RekeyKeepsAround(keys[..n], i, keys[n]);
      Swap(i, n);
      assert Keys()[..n] == keys[..n][i := keys[n]];
    }

    /** Pop takes the last position. */
    method Pop() returns (e: Entry<T>)
      requires Indexed() && |items| > 0 && Heap(Keys()[..|items| - 1])
      modifies this, Members()`heapIndex
      ensures e == old(items)[|old(items)| - 1] && e.heapIndex == -1
      ensures Valid() && |items| == |old(items)| - 1 && Members() == old(Members()) - {e}
    {
      ghost var keys := Keys();
      e := items[|items| - 1];
      assert forall i :: 0 <= i < |items| - 1 ==> items[i].heapIndex != e.heapIndex;
      items := items[..|items| - 1];
      e.heapIndex := -1;
      assert Keys() == keys[..|items|];
      LastLeaves(old(items), |items|);
    }

    lemma LastLeaves(s: seq<Entry<T>>, n: nat)
      requires |s| == n + 1 && s[n] !in s[..n]
      ensures (set x | x in s[..n]) == (set x | x in s) - {s[n]}
    {
      assert s == s[..n] + [s[n]];
    }

    /** The coldest entry, or null. */
    method Peek() returns (e: Entry?<T>)
      requires Valid()
      ensures e == null <==> items == []
      ensures e != null ==> e in items && forall x :: x in items ==> e.lastAccess <= x.lastAccess
    {
      if |items| == 0 {
        return null;
      }
      e := items[0];
      forall x | x in items
        ensures e.lastAccess <= x.lastAccess
      {
        var c :| 0 <= c < |items| && items[c] == x;
        RootIsLeast(Keys(), c);
      }
    }
  }
}
