/** One shard: a map from keys to entries and the LRU heap over the same entries. */
module FallxShard {
  import opened Wrappers
  import opened FallxHeapOrder
  import opened FallxHeap
  import opened FallxSpec

  class Shard<T> {
    var entries: map<Key, Entry<T>>
    const lru: LruHeap<T>
    ghost var model: Flat<T>     // the records this shard holds
    ghost var Repr: set<object>

    /** The heap's entries are exactly the map's, and each sits under its own key. */
    ghost predicate Consistent()
      reads this`entries, lru
    {
      entries.Values == lru.Members() && forall k :: k in entries ==> entries[k].key == k
    }

    ghost predicate Valid()
      reads this, Repr
      ensures Valid() ==> this in Repr
    {
      && this in Repr && lru in Repr && lru.Members() <= Repr
      && Sound() && model == Records()
    }

    ghost predicate Sound()
      reads this`entries, lru, lru.items
    {
      lru.Valid() && Consistent()
    }

    ghost function Records(): (m: Flat<T>)
      reads this`entries, entries.Values`value, entries.Values`expiresAt, entries.Values`lastAccess
      ensures m.Keys == entries.Keys
    {
      map k | k in entries :: RecOf(entries[k])
    }

    lemma SizeIsModelSize()
      requires Valid()
      ensures |entries| == |model|
    {
      assert entries.Keys == model.Keys;
    }

    static ghost function RecOf(e: Entry<T>): Rec<T>
      reads e`value, e`expiresAt, e`lastAccess
    {
      Rec(e.value, e.expiresAt, e.lastAccess)
    }

    constructor ()
      ensures Valid() && model == map[] && fresh(Repr)
    {
      entries := map[];
      model := map[];
      lru := new LruHeap();
      new;
      Repr := {this, lru};
    }

    /** Drop everything. */
    method Clear()
      requires Valid()
      modifies Repr
      ensures Valid() && model == map[] && Repr == old(Repr)
    {
      entries := map[];
      model := map[];
      lru.items := [];
    }

    /** The part of cacheResult under the shard lock; reports whether an entry was inserted. */
    method Store(key: Key, value: T, expiresAt: int, now: int) returns (inserted: bool)
      requires Valid()
      modifies Repr
      ensures Valid() && fresh(Repr - old(Repr))
      ensures inserted == (key !in old(model))
      ensures model == old(model)[key := Rec(value, expiresAt, now)]
    {
      if key in entries {
        Refresh(key, value, expiresAt, now);
        return false;
      }
      Insert(key, value, expiresAt, now);
      inserted := true;
    }

    /** An existing entry is rewritten in place and touched. */
    method Refresh(key: Key, value: T, expiresAt: int, now: int)
      requires Valid() && key in entries
      modifies Repr
      ensures Valid() && Repr == old(Repr)
      ensures model == old(model)[key := Rec(value, expiresAt, now)]
    {
      hide Sound;
      Present(key);
      RewriteAndTouch(entries[key], value, expiresAt, now);
      model := Records();
    }

    method RewriteAndTouch(e: Entry<T>, value: T, expiresAt: int, now: int)
      requires Sound() && e.key in entries && entries[e.key] == e && e in lru.Members()
      modifies lru, lru.Members()
      ensures Sound() && lru.Members() == old(lru.Members())
      ensures Records() == old(Records())[e.key := Rec(value, expiresAt, now)]
    {
      hide Sound, Records;
      ghost var m, r := Records(), Rec(value, expiresAt, e.lastAccess);
      Rewrite(e, value, expiresAt);
      TouchEntry(e, now);
      assert m[e.key := r][e.key := Rec(value, expiresAt, now)] == m[e.key := Rec(value, expiresAt, now)];
    }

    lemma MemberIsEntry(e: Entry<T>)
      requires Valid() && e in lru.Members()
      ensures e.key in entries && entries[e.key] == e
    {
      assert e in entries.Values;
    }

    lemma Present(key: Key)
      requires Sound() && key in entries
      ensures entries[key].key == key && entries[key] in lru.Members()
    {
      assert entries[key] in entries.Values;
    }

    method Rewrite(e: Entry<T>, value: T, expiresAt: int)
      requires Sound() && e.key in entries && entries[e.key] == e
      modifies e`value, e`expiresAt
      ensures e.value == value && e.expiresAt == expiresAt
      ensures Sound() && Records() == old(Records())[e.key := Rec(value, expiresAt, e.lastAccess)]
    {
      hide Heap;
      ghost var keys := lru.Keys();
      e.value := value;
      e.expiresAt := expiresAt;
      assert lru.Keys() == keys;
    }

    method TouchEntry(e: Entry<T>, now: int)
      requires Sound() && e.key in entries && entries[e.key] == e
      modifies lru, lru.Members()`heapIndex, e`lastAccess
      ensures Sound() && lru.Members() == old(lru.Members())
      ensures Records() == old(Records())[e.key := Rec(e.value, e.expiresAt, now)]
    {
      hide Heap;
      assert e in entries.Values;
      lru.Touch(e, now);
    }

    method Insert(key: Key, value: T, expiresAt: int, now: int)
      requires Valid() && key !in entries
      modifies Repr
      ensures Valid() && fresh(Repr - old(Repr))
      ensures model == old(model)[key := Rec(value, expiresAt, now)]
    {
      hide Sound;
      var e := AddEntry(key, value, expiresAt, now);
      model := Records();
      Repr := Repr + {e};
    }

    method AddEntry(key: Key, value: T, expiresAt: int, now: int) returns (e: Entry<T>)
      requires Sound() && key !in entries
      modifies this`entries, lru, lru.Members()
      ensures Sound() && fresh(e) && lru.Members() == old(lru.Members()) + {e}
      ensures Records() == old(Records())[key := Rec(value, expiresAt, now)]
    {
      hide Sound;
      e := new Entry(key, value, expiresAt, now);
      PutEntry(e);
    }

    method PutEntry(e: Entry<T>)
      requires Sound() && e.key !in entries && e !in lru.Members()
      modifies this`entries, lru, lru.Members()`heapIndex, e`heapIndex
      ensures Sound() && lru.Members() == old(lru.Members()) + {e}
      ensures Records() == old(Records())[e.key := Rec(e.value, e.expiresAt, e.lastAccess)]
    {
      hide Heap, LruHeap.Valid, LruHeap.Members;
      ValuesPut(entries, e.key, e);
      entries := entries[e.key := e];
      assert Records() == old(Records())[e.key := Rec(e.value, e.expiresAt, e.lastAccess)];
      PushEntry(e);
    }

    /** heap.Push leaves the records alone. */
    method PushEntry(e: Entry<T>)
      requires lru.Valid() && e !in lru.Members()
      modifies lru, lru.Members()`heapIndex, e`heapIndex
      ensures lru.Valid() && lru.Members() == old(lru.Members()) + {e}
      ensures Records() == old(Records())
    {
      hide Heap, LruHeap.Valid, Records;
      lru.Push(e);
    }

    static lemma ValuesPut(m: map<Key, Entry<T>>, key: Key, e: Entry<T>)
      requires key !in m
      ensures m[key := e].Values == m.Values + {e}
    {
      assert forall k :: k in m ==> m[key := e][k] == m[k];
      assert m[key := e][key] == e;
    }

    /** Delete an entry from the map and from wherever it sits in the heap. */
    method Remove(e: Entry<T>)
      requires Valid() && e in lru.Members()
      modifies Repr
      ensures Valid() && Repr == old(Repr)
      ensures model == old(model) - {e.key} && e.key in old(model)
      ensures lru.Members() == old(lru.Members()) - {e}
    {
      hide Sound;
      DropEntry(e);
      model := Records();
    }

    method DropEntry(e: Entry<T>)
      requires Sound() && e in lru.Members()
      modifies this`entries, lru, lru.Members()`heapIndex
      ensures Sound() && lru.Members() == old(lru.Members()) - {e}
      ensures e.key in old(entries) && Records() == old(Records()) - {e.key}
    {
      hide Heap, LruHeap.Valid, LruHeap.Members;
      assert e in entries.Values;
      ValuesDrop(entries, e.key);
      entries := entries - {e.key};
      assert Records() == old(Records()) - {e.key};
      DropFromHeap(e);
    }

    /** The heap removal behind the bounds check on the back-index, which never fails. */
    method DropFromHeap(e: Entry<T>)
      requires lru.Valid() && e in lru.Members()
      modifies lru, lru.Members()`heapIndex
      ensures lru.Valid() && lru.Members() == old(lru.Members()) - {e}
      ensures Records() == old(Records())
    {
      hide Heap, Records;
      ghost var i :| 0 <= i < |lru.items| && lru.items[i] == e;
      if e.heapIndex >= 0 && e.heapIndex < |lru.items| {
        var removed := lru.RemoveAt(e.heapIndex);
      }
    }

    static lemma ValuesDrop(m: map<Key, Entry<T>>, key: Key)
      requires key in m && forall k :: k in m ==> m[k].key == k
      ensures (m - {key}).Values == m.Values - {m[key]}
    {
      forall e | e in m.Values - {m[key]}
        ensures e in (m - {key}).Values
      {
        var k :| k in m && m[k] == e;
        assert (m - {key})[k] == e;
      }
    }

    /** The part of getCachedResult under the shard lock; removed reports an expired entry dropped. */
    method Fetch(key: Key, now: int) returns (r: Option<T>, removed: bool)
      requires Valid()
      modifies Repr
      ensures Valid() && Repr == old(Repr)
      ensures (model, r) == Lookup(old(model), key, now)
      ensures removed <==> key in old(model) && r.None?
    {
      hide Sound;
      if key !in entries {
        return None, false;
      }
      var e := entries[key];
      Present(key);
      if now > e.expiresAt {
        Remove(e);
        return None, true;
      }
      TouchEntry(e, now);
      model := Records();
      r, removed := Some(e.value), false;
    }

    /** Collect the expired entries first, then remove them one by one. */
    method EvictExpired(now: int) returns (n: nat)
      requires Valid()
      modifies Repr
      ensures Valid() && Repr == old(Repr)
      ensures model == Live(old(model), now) && n == |old(model)| - |model|
    {
      hide Valid;
      var expired := CollectExpired(now);
      RemoveAll(expired);
      n := |expired|;
    }

    /** es[n..] are distinct entries of this shard. */
    ghost predicate Pending(es: seq<Entry<T>>, n: nat)
      reads this, lru
      requires n <= |es|
    {
      (forall j :: n <= j < |es| ==> es[j] in lru.Members()) && forall i, j :: n <= i < j < |es| ==> es[i] != es[j]
    }

    method RemoveAll(es: seq<Entry<T>>)
      requires Valid() && Pending(es, 0)
      modifies Repr
      ensures Valid() && Repr == old(Repr)
      ensures model == old(model) - KeysOf(es) && |model| == |old(model)| - |es|
    {
      hide Valid, Pending, KeysOf;
      NothingGone(model);
      for n := 0 to |es|
        invariant Valid() && Pending(es, n) && Repr == old(Repr)
        invariant model == old(model) - KeysOf(es[..n]) && |model| == |old(model)| - n
      {
        KeysOfNext(es, n);
        MinusNext(old(model), KeysOf(es[..n]), es[n].key);
        RemoveNext(es, n);
      }
      assert es[..|es|] == es;
    }

    static lemma NothingGone(m: Flat<T>)
      ensures KeysOf([]) == {} && m - {} == m
    {
    }

    static lemma MinusNext(m: Flat<T>, gone: set<Key>, key: Key)
      ensures (m - gone) - {key} == m - (gone + {key})
    {
    }

    method RemoveNext(es: seq<Entry<T>>, n: nat)
      requires Valid() && n < |es| && Pending(es, n)
      modifies Repr
      ensures Valid() && Repr == old(Repr) && Pending(es, n + 1)
      ensures model == old(model) - {es[n].key} && |model| == |old(model)| - 1
    {
      hide LruHeap.Valid;
      DropOne(model, es[n].key);
      Remove(es[n]);
    }

    static lemma KeysOfNext(es: seq<Entry<T>>, n: nat)
      requires n < |es|
      ensures KeysOf(es[..n + 1]) == KeysOf(es[..n]) + {es[n].key}
    {
      assert es[..n + 1] == es[..n] + [es[n]];
    }

    static lemma DropOne(m: Flat<T>, key: Key)
      requires key in m
      ensures |m - {key}| == |m| - 1
    {
      assert (m - {key}).Keys == m.Keys - {key};
    }

    static ghost function KeysOf(es: seq<Entry<T>>): set<Key> {
      set e | e in es :: e.key
    }

    method CollectExpired(now: int) returns (expired: seq<Entry<T>>)
      requires Valid()
      ensures Pending(expired, 0)
      ensures model - KeysOf(expired) == Live(model, now)
    {
      expired := [];
      var todo := entries.Keys;
      while todo != {}
        invariant todo <= entries.Keys
        invariant forall e :: e in expired ==> e.key in entries && entries[e.key] == e && e.key !in todo && now > e.expiresAt
        invariant forall i, j :: 0 <= i < j < |expired| ==> expired[i] != expired[j]
        invariant forall k :: k in entries && k !in todo && now > entries[k].expiresAt ==> entries[k] in expired
        decreases todo
      {
        var k :| k in todo;
        todo := todo - {k};
        if now > entries[k].expiresAt {
          expired := expired + [entries[k]];
        }
      }
      forall j | 0 <= j < |expired|
        ensures expired[j] in lru.Members()
      {
        assert expired[j] in expired && entries[expired[j].key] in entries.Values;
      }
    }

    /** The coldest entry of the shard, or null. */
    method Coldest() returns (e: Entry?<T>)
      requires Valid()
      ensures e == null <==> model == map[]
      ensures e != null ==>
        && e in lru.Members() && e.key in model && model[e.key].lastAccess == e.lastAccess
        && forall k :: k in model ==> e.lastAccess <= model[k].lastAccess
    {
      e := lru.Peek();
      if e != null {
        assert e in entries.Values;
        forall k | k in model
          ensures e.lastAccess <= model[k].lastAccess
        {
          assert entries[k] in entries.Values;
        }
      } else {
        assert entries.Values == {};
      }
    }
  }
}
