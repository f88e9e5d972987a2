/** Any sequence of operations on a real sharded cache is a history of the flat specification. */
module FallxHistory {
  import opened FallxSpec
  import opened FallxCache

  /** done is asked, up to the result a lookup returned. */
  predicate Answers<T(==)>(asked: Op<T>, done: Op<T>) {
    if asked.Get? then done.Get? && done.key == asked.key && done.now == asked.now else done == asked
  }

  /** One operation on the cache is one step of the flat map. */
  method Perform<T>(cache: Fallback<T>, asked: Op<T>) returns (done: Op<T>)
    requires cache.Valid()
    modifies cache.Repr
    ensures cache.Valid() && fresh(cache.Repr - old(cache.Repr))
    ensures Answers(asked, done) && Step(cache.maxCacheSize, old(cache.Contents), done, cache.Contents)
  {
    hide Fallback.Valid, Stores, Lookup, Live;
    done := asked;
    match asked
    case Store(key, value, ttl, now, evictNow) => cache.CacheResult(key, value, ttl, now, evictNow);
    case Get(key, now, _) =>
      var r := cache.GetCachedResult(key, now);
      done := Get(key, now, r);
    case Sweep(now) => cache.SweepExpired(now);
    case Clear => cache.ClearCache();
  }

  /** Each operation asked for was done. */
  predicate AllAnswered<T(==)>(asked: seq<Op<T>>, done: seq<Op<T>>) {
    |done| == |asked| && forall i :: 0 <= i < |asked| ==> Answers(asked[i], done[i])
  }

  /** Run the operations on a new cache; states are the flat maps it stood for. */
  method Replay<T>(shardCount: nat, maxCacheSize: int, asked: seq<Op<T>>)
    returns (cache: Fallback<T>, done: seq<Op<T>>, ghost states: seq<Flat<T>>)
    requires shardCount >= 1
    ensures fresh(cache) && cache.Valid() && fresh(cache.Repr)
    ensures |cache.shards| == shardCount && cache.maxCacheSize == maxCacheSize
    ensures AllAnswered(asked, done)
    ensures IsHistory(maxCacheSize, states, done) && states[|asked|] == cache.Contents
  {
    hide Step, Fallback.Valid, Answers;
    cache := new Fallback<T>(shardCount, maxCacheSize);
    done, states := [], [cache.Contents];
    for n := 0 to |asked|
      invariant cache.Valid() && fresh(cache) && fresh(cache.Repr)
      invariant |done| == n && forall i :: 0 <= i < n ==> Answers(asked[i], done[i])
      invariant IsHistory(maxCacheSize, states, done) && states[n] == cache.Contents
    {
      var d := Perform(cache, asked[n]);
      done, states := done + [d], states + [cache.Contents];
    }
  }

  /**
   Sharding and heaps are invisible: on a real cache a lookup answers with the value last stored under its key
   exactly when that store has not been evicted, cleared or outlived.
   */
  method ReplayedLookup<T>(shardCount: nat, maxCacheSize: int, asked: seq<Op<T>>, n: nat)
    returns (cache: Fallback<T>, done: seq<Op<T>>, ghost states: seq<Flat<T>>)
    requires shardCount >= 1 && n < |asked| && asked[n].Get?
    ensures fresh(cache) && cache.Valid() && |cache.shards| == shardCount && cache.maxCacheSize == maxCacheSize
    ensures AllAnswered(asked, done)
    ensures IsHistory(maxCacheSize, states, done) && states[|asked|] == cache.Contents
    ensures var j := LastStore(done, asked[n].key, n);
      && done[n].Get?
      && (done[n].result.Some? <==>
            j.Some? && Kept(states, asked[n].key, j.value, n) && asked[n].now <= done[j.value].now + done[j.value].ttl)
      && (done[n].result.Some? ==> done[n].result.value == done[j.value].value)
  {
    hide Step, Kept, Fallback.Valid;
    cache, done, states := Replay(shardCount, maxCacheSize, asked);
    assert Answers(asked[n], done[n]);
    LookupReturnsLastStore(maxCacheSize, states, done, n);
  }
}
