/**
 Binary min-heaps on a sequence of keys, and what one swap of a sift does to
 them. Position c > 0 has its parent at (c - 1) / 2.
 */
module FallxHeapOrder {
  function Parent(c: nat): (p: nat)
    requires c > 0
    ensures p < c && (c == 2 * p + 1 || c == 2 * p + 2)
  {
    (c - 1) / 2
  }

  /** The key at c is not below its parent's. */
  predicate Edge(k: seq<int>, c: nat)
    requires 0 < c < |k|
  {
    k[Parent(c)] <= k[c]
  }

  predicate Heap(k: seq<int>) {
    forall c {:trigger Parent(c)} {:trigger Edge(k, c)} :: 0 < c < |k| ==> Edge(k, c)
  }

  /** The children of i are not below the parent of i. */
  predicate Bridged(k: seq<int>, i: nat)
    requires i < |k|
  {
    i > 0 ==> forall c {:trigger Parent(c)} :: 0 < c < |k| && Parent(c) == i ==> k[Parent(i)] <= k[c]
  }

  /** A heap but for the edges at i: above it and below it. */
  predicate HeapAround(k: seq<int>, i: nat)
    requires i < |k|
  {
    (forall c {:trigger Parent(c)} {:trigger Edge(k, c)} :: 0 < c < |k| && c != i && Parent(c) != i ==> Edge(k, c))
    && Bridged(k, i)
  }

  /** A heap but for the edges below i: a sift down has arrived at i from above. */
  predicate Sinking(k: seq<int>, i: nat)
    requires i < |k|
  {
    (forall c {:trigger Parent(c)} {:trigger Edge(k, c)} :: 0 < c < |k| && Parent(c) != i ==> Edge(k, c)) && Bridged(k, i)
  }

  /** A heap but for the edge above j. */
  predicate Rising(k: seq<int>, j: nat)
    requires j < |k|
  {
    (forall c {:trigger Parent(c)} {:trigger Edge(k, c)} :: 0 < c < |k| && c != j ==> Edge(k, c)) && Bridged(k, j)
  }

  function Swapped(k: seq<int>, i: nat, j: nat): seq<int>
    requires i < |k| && j < |k|
  {
    k[i := k[j]][j := k[i]]
  }

  lemma SwappedPrefix(k: seq<int>, i: nat, j: nat, n: nat)
    requires i < n <= |k| && j < n
    ensures Swapped(k, i, j)[..n] == Swapped(k[..n], i, j)
  {
  }

  /** j is the child of i with the smallest key. */
  predicate SmallestChild(k: seq<int>, i: nat, j: nat) {
    0 < j < |k| && i < |k| && Parent(j) == i
    && forall c {:trigger Parent(c)} :: 0 < c < |k| && Parent(c) == i ==> k[j] <= k[c]
  }

  lemma SinkStep(k: seq<int>, i: nat, j: nat)
    requires i < |k| && (HeapAround(k, i) || Sinking(k, i)) && SmallestChild(k, i, j) && k[j] < k[i]
    ensures Sinking(Swapped(k, i, j), j)
  {
    var m := Swapped(k, i, j);
    forall c {:trigger Edge(m, c)} | 0 < c < |m| && Parent(c) != j
      ensures Edge(m, c)
    {
      if c == i {
        assert Parent(j) == i && k[Parent(i)] <= k[j];
      } else if Parent(c) != i {
        assert Edge(k, c);
      }
    }
    forall c {:trigger Parent(c)} | 0 < c < |m| && Parent(c) == j
      ensures m[Parent(j)] <= m[c]
    {
      assert Edge(k, c);
    }
  }

  predicate NoChild(k: seq<int>, i: nat) {
    forall c {:trigger Parent(c)} :: 0 < c < |k| ==> Parent(c) != i
  }

  /** Nothing below i is smaller: a sift that has moved is done, one that has not leaves only the edge above. */
  lemma SinkDone(k: seq<int>, i: nat, j: nat)
    requires SmallestChild(k, i, j) && k[i] <= k[j]
    ensures Sinking(k, i) ==> Heap(k)
    ensures HeapAround(k, i) ==> Rising(k, i)
  {
  }

  lemma LeafDone(k: seq<int>, i: nat)
    requires i < |k| && NoChild(k, i)
    ensures Sinking(k, i) ==> Heap(k)
    ensures HeapAround(k, i) ==> Rising(k, i)
  {
  }

  lemma RiseStep(k: seq<int>, j: nat)
    requires 0 < j < |k| && Rising(k, j) && k[j] < k[Parent(j)]
    ensures Rising(Swapped(k, Parent(j), j), Parent(j))
  {
    var i := Parent(j);
    var m := Swapped(k, i, j);
    forall c {:trigger Edge(m, c)} | 0 < c < |m| && c != i
      ensures Edge(m, c)
    {
      if c != j {
        assert Edge(k, c);
      }
    }
    if i > 0 {
      forall c {:trigger Parent(c)} | 0 < c < |m| && Parent(c) == i
        ensures m[Parent(i)] <= m[c]
      {
        assert Edge(k, i);
        if c != j {
          assert Edge(k, c);
        }
      }
    }
  }

  lemma RiseDone(k: seq<int>, j: nat)
    requires j < |k| && Rising(k, j) && (j == 0 || k[Parent(j)] <= k[j])
    ensures Heap(k)
  {
  }

  /** Changing one key of a heap leaves a heap around it, if the new key only grew or a sift follows. */
  lemma RekeyKeepsAround(k: seq<int>, i: nat, x: int)
    requires i < |k| && Heap(k)
    ensures HeapAround(k[i := x], i)
  {
    var m := k[i := x];
    if i > 0 {
      forall c {:trigger Parent(c)} | 0 < c < |m| && Parent(c) == i
        ensures m[Parent(i)] <= m[c]
      {
        assert Edge(k, c) && Edge(k, i);
      }
    }
  }

  lemma PrefixIsHeap(k: seq<int>, n: nat)
    requires Heap(k) && n <= |k|
    ensures Heap(k[..n])
  {
    forall c {:trigger Edge(k[..n], c)} | 0 < c < n
      ensures Edge(k[..n], c)
    {
      assert Edge(k, c);
    }
  }

  /** The key appended to a heap may only be too small for its parent. */
  lemma AppendIsRising(k: seq<int>, x: int)
    requires Heap(k)
    ensures Rising(k + [x], |k|)
  {
    var m := k + [x];
    forall c {:trigger Edge(m, c)} | 0 < c < |m| && c != |k|
      ensures Edge(m, c)
    {
      assert Edge(k, c);
    }
  }

  /** The root of a heap is its least key. */
  lemma {:induction false} RootIsLeast(k: seq<int>, c: nat)
    requires Heap(k) && c < |k|
    ensures k[0] <= k[c]
  {
    if c > 0 {
      assert Edge(k, c);
      RootIsLeast(k, Parent(c));
    }
  }
}
