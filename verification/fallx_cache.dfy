/**
 The sharded cache. Contents is the flat map it stands for; every method is
 proved against the flat specification, so shards, heaps and indices do not
 show. Each method runs alone; clock readings are parameters.
 */
module FallxCache {
  import opened Wrappers
  import opened FallxHeap
  import opened FallxSpec
  import opened FallxShard
  import opened FallxHash

  class Fallback<T> {
    const shards: seq<Shard<T>>
    const maxCacheSize: int
    var cacheSize: int
    var cacheEvictions: nat
    ghost var Contents: Flat<T>
    ghost var Repr: set<object>

    /** The shards own disjoint parts of Repr and are well formed. */
    ghost predicate Separate()
      reads this, Repr
    {
      && this in Repr && |shards| > 0
      && (forall i :: 0 <= i < |shards| ==>
            shards[i] in Repr && shards[i].Repr <= Repr && this !in shards[i].Repr && shards[i].Valid())
      && (forall i, j :: 0 <= i < j < |shards| ==> shards[i].Repr !! shards[j].Repr)
    }

    /** Every record of Contents is in the shard its key hashes to, and nothing else is anywhere. */
    ghost predicate Valid()
      reads this, Repr
    {
      && Separate()
      && (forall i :: 0 <= i < |shards| ==> shards[i].model == Slice(Contents, i, |shards|))
      && cacheSize == |Contents|
    }

    static ghost function Slice(m: Flat<T>, i: int, n: nat): Flat<T>
      requires n > 0
    {
      map k | k in m && Home(k, n) == i :: m[k]
    }

    /** initCache, with shardCount shards. */
    constructor (shardCount: nat, maxCacheSize: int)
      requires shardCount >= 1
      ensures Valid() && fresh(Repr) && Contents == map[] && cacheEvictions == 0
      ensures |shards| == shardCount && this.maxCacheSize == maxCacheSize
    {
      var all: seq<Shard<T>> := [];
      ghost var owned: set<object> := {};
      while |all| < shardCount
        invariant |all| <= shardCount && fresh(owned)
        invariant forall i :: 0 <= i < |all| ==>
          all[i] in owned && all[i].Repr <= owned && all[i].Valid() && all[i].model == map[]
        invariant forall i, j :: 0 <= i < j < |all| ==> all[i].Repr !! all[j].Repr
      {
        hide Shard.Valid;
        var shard := new Shard<T>();
        all := all + [shard];
        owned := owned + shard.Repr + {shard};
      }
      shards := all;
      this.maxCacheSize := maxCacheSize;
      cacheSize, cacheEvictions, Contents := 0, 0, map[];
      new;
      Repr := owned + {this};
    }

    // ----- one shard's critical sections: the other shards stay as they are

    method StoreAt(h: nat, key: Key, value: T, expiresAt: int, now: int) returns (inserted: bool)
      requires Separate() && h < |shards|
      modifies this`Repr, shards[h].Repr
      ensures Separate() && fresh(Repr - old(Repr))
      ensures inserted == (key !in old(shards[h].model))
      ensures shards[h].model == old(shards[h].model)[key := Rec(value, expiresAt, now)]
      ensures forall i :: 0 <= i < |shards| && i != h ==> shards[i].model == old(shards[i].model)
    {
      hide Shard.Valid;
      inserted := shards[h].Store(key, value, expiresAt, now);
      Repr := Repr + shards[h].Repr;
    }

    method FetchAt(h: nat, key: Key, now: int) returns (r: Option<T>, removed: bool)
      requires Separate() && h < |shards|
      modifies shards[h].Repr
      ensures Separate()
      ensures (shards[h].model, r) == Lookup(old(shards[h].model), key, now)
      ensures removed <==> key in old(shards[h].model) && r.None?
      ensures forall i :: 0 <= i < |shards| && i != h ==> shards[i].model == old(shards[i].model)
    {
      hide Shard.Valid, Lookup;
      r, removed := shards[h].Fetch(key, now);
    }

    method EvictExpiredAt(h: nat, now: int) returns (n: nat)
      requires Separate() && h < |shards|
      modifies shards[h].Repr
      ensures Separate()
      ensures shards[h].model == Live(old(shards[h].model), now) && n == |old(shards[h].model)| - |shards[h].model|
      ensures forall i :: 0 <= i < |shards| && i != h ==> shards[i].model == old(shards[i].model)
    {
      hide Shard.Valid, Live;
      n := shards[h].EvictExpired(now);
    }

    method RemoveAt(h: nat, e: Entry<T>)
      requires Separate() && h < |shards| && e in shards[h].lru.Members()
      modifies shards[h].Repr
      ensures Separate()
      ensures e.key in old(shards[h].model) && shards[h].model == old(shards[h].model) - {e.key}
      ensures forall i :: 0 <= i < |shards| && i != h ==> shards[i].model == old(shards[i].model)
    {
      hide Shard.Valid;
      shards[h].Remove(e);
    }

    method ClearAt(h: nat)
      requires Separate() && h < |shards|
      modifies shards[h].Repr
      ensures Separate() && shards[h].model == map[]
      ensures forall i :: 0 <= i < |shards| && i != h ==> shards[i].model == old(shards[i].model)
    {
      hide Shard.Valid;
      shards[h].Clear();
    }

    // ----- the flat map behind the shards

    static lemma SlicePut(m: Flat<T>, key: Key, r: Rec<T>, i: int, n: nat)
      requires n > 0
      ensures Slice(m[key := r], i, n) == if i == Home(key, n) then Slice(m, i, n)[key := r] else Slice(m, i, n)
    {
      hide Home;
    }

    static lemma SliceDrop(m: Flat<T>, key: Key, i: int, n: nat)
      requires n > 0
      ensures Slice(m - {key}, i, n) == if i == Home(key, n) then Slice(m, i, n) - {key} else Slice(m, i, n)
    {
      hide Home;
    }

    static lemma SliceKnows(m: Flat<T>, key: Key, n: nat)
      requires n > 0
      ensures var s := Slice(m, Home(key, n), n); (key in m <==> key in s) && (key in m ==> s[key] == m[key])
    {
      hide Home;
    }

    /** The part of cacheResult before eviction. */
    method StoreInShard(key: Key, value: T, ttl: int, now: int) returns (inserted: bool)
      requires Valid()
      modifies Repr
      ensures Valid() && fresh(Repr - old(Repr)) && cacheEvictions == old(cacheEvictions)
      ensures inserted == (key !in old(Contents))
      ensures Contents == old(Contents)[key := Rec(value, now + ttl, now)]
    {
      hide Home, Slice, Shard.Valid;
      var n := |shards|;
      var h := ShardIndex(key, n);
      ghost var r := Rec(value, now + ttl, now);
      SliceKnows(Contents, key, n);
      forall i | 0 <= i < n
        ensures Slice(Contents[key := r], i, n) == if i == h then Slice(Contents, i, n)[key := r] else Slice(Contents, i, n)
      {
        SlicePut(Contents, key, r, i, n);
      }
      inserted := StoreAt(h, key, value, now + ttl, now);
      Contents := Contents[key := r];
      if inserted {
        cacheSize := cacheSize + 1;
      }
    }

    /** Looking a key up in the flat map is looking it up in its shard. */
    static lemma LookupSlices(m: Flat<T>, key: Key, now: int, n: nat)
      requires n > 0
      ensures var h := Home(key, n);
        var (after, r) := Lookup(m, key, now);
        && Lookup(Slice(m, h, n), key, now) == (Slice(after, h, n), r)
        && (forall i :: 0 <= i < n && i != h ==> Slice(after, i, n) == Slice(m, i, n))
        && |after| == |m| - (if key in m && r.None? then 1 else 0)
    {
      hide Home, Slice;
      SliceKnows(m, key, n);
      if key in m {
        Shard<T>.DropOne(m, key);
        var touched := m[key].(lastAccess := now);
        assert m[key := touched].Keys == m.Keys;
        forall i | 0 <= i < n
          ensures Slice(m - {key}, i, n) == if i == Home(key, n) then Slice(m, i, n) - {key} else Slice(m, i, n)
          ensures Slice(m[key := touched], i, n)
               == if i == Home(key, n) then Slice(m, i, n)[key := touched] else Slice(m, i, n)
        {
          SliceDrop(m, key, i, n);
          SlicePut(m, key, touched, i, n);
        }
      }
    }

    /** getCachedResult */
    method GetCachedResult(key: Key, now: int) returns (r: Option<T>)
      requires Valid()
      modifies Repr
      ensures Valid() && Repr == old(Repr)
      ensures (Contents, r) == Lookup(old(Contents), key, now)
      ensures cacheEvictions == old(cacheEvictions) + |old(Contents)| - |Contents|
    {
      hide Home, Slice, Shard.Valid, Lookup;
      var n := |shards|;
      var h := ShardIndex(key, n);
      SliceKnows(Contents, key, n);
      ghost var after := Lookup(Contents, key, now).0;
      LookupSlices(Contents, key, now, n);
      var removed: bool;
      r, removed := FetchAt(h, key, now);
      if removed {
        Shard<T>.DropOne(Contents, key);
        cacheSize := cacheSize - 1;
        cacheEvictions := cacheEvictions + 1;
      }
      Contents := after;
    }

    // ----- eviction

    /** What is left of m once the first i shards have been swept. */
    static ghost function SweptUpTo(m: Flat<T>, now: int, i: int, n: nat): Flat<T>
      requires n > 0
    {
      map k | k in m && !(Home(k, n) < i && Expired(m[k], now)) :: m[k]
    }

    static lemma SweepOneMore(m: Flat<T>, now: int, i: int, j: int, n: nat)
      requires 0 <= i < n
      ensures Slice(SweptUpTo(m, now, i + 1, n), j, n) ==
              if i == j then Live(Slice(m, i, n), now) else Slice(SweptUpTo(m, now, i, n), j, n)
      ensures Slice(SweptUpTo(m, now, i, n), i, n) == Slice(m, i, n)
    {
      hide Home;
    }

    static lemma SweepCounts(m: Flat<T>, now: int, i: int, n: nat)
      requires 0 <= i < n
      ensures var s := Slice(m, i, n);
        |SweptUpTo(m, now, i, n)| - |SweptUpTo(m, now, i + 1, n)| == |s| - |Live(s, now)|
    {
      hide Home;
      var s := Slice(m, i, n);
      var before, after, live := SweptUpTo(m, now, i, n), SweptUpTo(m, now, i + 1, n), Live(s, now);
      var gone := set k | k in s && Expired(s[k], now);
      Parts(before.Keys, after.Keys, gone);
      Parts(s.Keys, live.Keys, gone);
    }

    static lemma Parts(whole: set<Key>, a: set<Key>, b: set<Key>)
      requires forall k :: k in whole <==> k in a || k in b
      requires forall k :: !(k in a && k in b)
      ensures |whole| == |a| + |b|
    {
      assert whole == a + b;
    }

    static lemma SweepEnds(m: Flat<T>, now: int, n: nat)
      requires n > 0
      ensures SweptUpTo(m, now, 0, n) == m && SweptUpTo(m, now, n, n) == Live(m, now)
    {
      hide Home;
      forall k ensures 0 <= Home(k, n) < n {
      }
    }

    /** Remove every expired entry, shard by shard. */
    method SweepExpired(now: int)
      requires Valid()
      modifies Repr
      ensures Valid() && Repr == old(Repr) && Contents == Live(old(Contents), now)
      ensures cacheEvictions == old(cacheEvictions) + |old(Contents)| - |Contents|
    {
      hide Home, Slice, Shard.Valid, SweptUpTo, Live;
      var n := |shards|;
      ghost var m := Contents;
      SweepEnds(m, now, n);
      for i := 0 to n
        invariant Valid() && Repr == old(Repr) && Contents == SweptUpTo(m, now, i, n)
        invariant cacheEvictions == old(cacheEvictions) + |m| - |Contents|
      {
        SweepShard(i, now, m);
      }
    }

    method SweepShard(i: nat, now: int, ghost m: Flat<T>)
      requires Valid() && i < |shards| && Contents == SweptUpTo(m, now, i, |shards|)
      modifies Repr
      ensures Valid() && Repr == old(Repr) && Contents == SweptUpTo(m, now, i + 1, |shards|)
      ensures cacheEvictions == old(cacheEvictions) + |old(Contents)| - |Contents|
    {
      hide Home, Slice, Shard.Valid, SweptUpTo, Live;
      ghost var after := SweptUpTo(m, now, i + 1, |shards|);
      SweepCounts(m, now, i, |shards|);
      forall j | 0 <= j < |shards|
        ensures Slice(after, j, |shards|) ==
                if i == j then Live(Slice(Contents, i, |shards|), now) else Slice(Contents, j, |shards|)
      {
        SweepOneMore(m, now, i, j, |shards|);
      }
      SweepOneMore(m, now, i, i, |shards|);
      var gone := EvictExpiredAt(i, now);
      cacheSize := cacheSize - gone;
      cacheEvictions := cacheEvictions + gone;
      Contents := after;
    }

    /** The least recently accessed entry of all shards and its shard, or null when the cache is empty. */
    method ColdestEntry() returns (oldest: Entry?<T>, owner: nat)
      requires Valid()
      ensures oldest == null <==> Contents == map[]
      ensures oldest != null ==>
        && owner < |shards| && oldest in shards[owner].lru.Members()
        && oldest.key in Contents && Home(oldest.key, |shards|) == owner
        && forall k :: k in Contents ==> Contents[oldest.key].lastAccess <= Contents[k].lastAccess
    {
      hide Home, Shard.Valid;
      oldest, owner := null, 0;
      for i := 0 to |shards|
        invariant oldest == null <==> forall k :: k in Contents ==> Home(k, |shards|) >= i
        invariant oldest != null ==>
          && owner < |shards| && oldest in shards[owner].lru.Members()
          && oldest.key in Contents && Home(oldest.key, |shards|) == owner < i
          && Contents[oldest.key].lastAccess == oldest.lastAccess
          && forall k :: k in Contents && Home(k, |shards|) < i ==> oldest.lastAccess <= Contents[k].lastAccess
      {
        var e := shards[i].Coldest();
        ghost var slice := Slice(Contents, i, |shards|);
        assert forall k :: k in Contents && Home(k, |shards|) == i ==> k in slice;
        if e != null {
          if oldest == null || e.lastAccess < oldest.lastAccess {
            oldest, owner := e, i;
          }
        }
      }
    }

    /** One turn of the capacity loop. Neither branch that would resynchronise the counter can be taken. */
    method EvictColdest()
      requires Valid() && Contents != map[]
      modifies Repr
      ensures Valid() && Repr == old(Repr) && cacheEvictions == old(cacheEvictions) + 1
      ensures DropsColdest(old(Contents), Contents) && |Contents| == |old(Contents)| - 1
    {
      hide Home, Shard.Valid, Slice;
      var oldest, owner := ColdestEntry();
      if oldest == null {
        assert false;
      } else {
        shards[owner].MemberIsEntry(oldest);
        var shard := shards[owner];
        if oldest.key in shard.entries && shard.entries[oldest.key] == oldest {
          EvictEntry(owner, oldest);
        } else {
          assert false;
        }
      }
    }

    method EvictEntry(owner: nat, oldest: Entry<T>)
      requires Valid() && owner < |shards| && oldest in shards[owner].lru.Members()
      requires oldest.key in Contents && Home(oldest.key, |shards|) == owner
      modifies Repr
      ensures Valid() && Repr == old(Repr) && cacheEvictions == old(cacheEvictions) + 1
      ensures Contents == old(Contents) - {oldest.key} && |Contents| == |old(Contents)| - 1
    {
      hide Home, Shard.Valid, Slice;
      var n := |shards|;
      forall i | 0 <= i < n
        ensures Slice(Contents - {oldest.key}, i, n)
             == if i == owner then Slice(Contents, i, n) - {oldest.key} else Slice(Contents, i, n)
      {
        SliceDrop(Contents, oldest.key, i, n);
      }
      Shard<T>.DropOne(Contents, oldest.key);
      RemoveAt(owner, oldest);
      cacheSize := cacheSize - 1;
      cacheEvictions := cacheEvictions + 1;
      Contents := Contents - {oldest.key};
    }

    static lemma DropsTransitively(live: Flat<T>, mid: Flat<T>, after: Flat<T>)
      requires DropsColdest(live, mid) && DropsColdest(mid, after)
      ensures DropsColdest(live, after)
    {
    }

    /** evictIfNeeded: back under capacity. */
    method EvictIfNeeded(now: int)
      requires Valid()
      modifies Repr
      ensures Valid() && Repr == old(Repr)
      ensures Evicts(old(Contents), maxCacheSize, now, Contents)
      ensures cacheEvictions == old(cacheEvictions) + |old(Contents)| - |Contents|
    {
      if maxCacheSize <= 0 || cacheSize <= maxCacheSize {
        return;
      }
      hide Live, Slice, Home, DropsColdest, Shard.Valid, Separate;
      ghost var live := Live(Contents, now);
      SweepExpired(now);
      DropsNothing(live);
      while cacheSize > maxCacheSize
        invariant Valid() && Repr == old(Repr) && DropsColdest(live, Contents)
        invariant |Contents| == |live| || maxCacheSize <= |Contents| < |live|
        invariant cacheEvictions == old(cacheEvictions) + |old(Contents)| - |Contents|
        decreases cacheSize
      {
        ghost var mid := Contents;
        EvictColdest();
        DropsTransitively(live, mid, Contents);
      }
    }

    static lemma DropsNothing(m: Flat<T>)
      ensures DropsColdest(m, m)
    {
    }

    /** cacheResult; evictNow is the clock reading that eviction takes, if it runs. */
    method CacheResult(key: Key, value: T, ttl: int, now: int, evictNow: int)
      requires Valid()
      modifies Repr
      ensures Valid() && fresh(Repr - old(Repr))
      ensures Stores(old(Contents), maxCacheSize, key, value, ttl, now, evictNow, Contents)
      ensures cacheEvictions == old(cacheEvictions) + |old(Contents)[key := Rec(value, now + ttl, now)]| - |Contents|
    {
      hide Slice, Shard.Valid, Separate, Home, Live, DropsColdest;
      var inserted := StoreInShard(key, value, ttl, now);
      if inserted && maxCacheSize > 0 && cacheSize > maxCacheSize {
        EvictIfNeeded(evictNow);
      }
    }

    /** syncCacheSize: the sum of the shard map sizes, which the counter already equals. */
    method SyncCacheSize() returns (n: int)
      requires Valid()
      modifies this`cacheSize
      ensures Valid() && n == cacheSize == old(cacheSize)
    {
      n := SumShardSizes();
      SlicesAddUp(Contents, |shards|, |shards|);
      cacheSize := n;
    }

    method SumShardSizes() returns (n: int)
      requires Valid()
      ensures n == SumOfSlices(Contents, |shards|, |shards|)
    {
      hide Shard.Valid, Slice;
      n := 0;
      for i := 0 to |shards|
        invariant n == SumOfSlices(Contents, i, |shards|)
      {
        shards[i].SizeIsModelSize();
        n := n + |shards[i].entries|;
      }
    }

    static ghost function SumOfSlices(m: Flat<T>, i: nat, n: nat): nat
      requires n > 0
    {
      if i == 0 then 0 else SumOfSlices(m, i - 1, n) + |Slice(m, i - 1, n)|
    }

    /** The shards partition the flat map. */
    static lemma {:induction false} SlicesAddUp(m: Flat<T>, i: nat, n: nat)
      requires n > 0 && i <= n
      ensures SumOfSlices(m, i, n) == |set k | k in m && Home(k, n) < i|
      ensures i == n ==> SumOfSlices(m, i, n) == |m|
    {
      hide Home;
      var upTo := set k | k in m && Home(k, n) < i;
      if i == 0 {
        assert upTo == {};
      } else {
        SlicesAddUp(m, i - 1, n);
        var below := set k | k in m && Home(k, n) < i - 1;
        Parts(upTo, below, Slice(m, i - 1, n).Keys);
      }
      if i == n {
        assert upTo == m.Keys;
      }
    }

    /** ClearCache */
    method ClearCache()
      requires Valid()
      modifies Repr
      ensures Valid() && Repr == old(Repr) && Contents == map[] && cacheEvictions == old(cacheEvictions)
    {
      hide Shard.Valid;
      for i := 0 to |shards|
        invariant Separate() && Repr == old(Repr) && cacheEvictions == old(cacheEvictions)
        invariant forall j :: 0 <= j < i ==> shards[j].model == map[]
      {
        ClearAt(i);
      }
      Contents := map[];
      cacheSize := 0;
      var n := SyncCacheSize();
    }
  }
}
