/**
 What the result cache is for, without shards, heaps or indices: one flat map
 from keys to values with an expiry and a last access, under a capacity.
 */
module FallxSpec {
  import opened Wrappers
  import opened FallxHeap

  datatype Rec<T> = Rec(value: T, expiresAt: int, lastAccess: int)

  type Flat<T> = map<Key, Rec<T>>

  predicate Expired<T>(r: Rec<T>, now: int) {
    now > r.expiresAt
  }

  /** What a sweep at time now leaves. */
  function Live<T>(m: Flat<T>, now: int): Flat<T> {
    map k | k in m && !Expired(m[k], now) :: m[k]
  }

  /** after is live minus some entries, none of them accessed later than any entry that stays. */
  ghost predicate DropsColdest<T>(live: Flat<T>, after: Flat<T>) {
    && after.Keys <= live.Keys
    && (forall k :: k in after ==> after[k] == live[k])
    && (forall s, v :: s in after && v in live && v !in after ==> live[v].lastAccess <= live[s].lastAccess)
  }

  /** Eviction: nothing under capacity; else expired entries first, then only as many coldest ones as needed. */
  ghost predicate Evicts<T>(m: Flat<T>, max: int, now: int, after: Flat<T>) {
    if max <= 0 || |m| <= max then
      after == m
    else
      var live := Live(m, now);
      DropsColdest(live, after) && |after| == (if |live| <= max then |live| else max)
  }

  /** Storing; evictNow is the later clock reading eviction takes. */
  ghost predicate Stores<T>(m: Flat<T>, max: int, key: Key, value: T, ttl: int, now: int, evictNow: int, after: Flat<T>) {
    var put := m[key := Rec(value, now + ttl, now)];
    if key in m then after == put else Evicts(put, max, evictNow, after)
  }

  /** Looking up: an expired entry is removed and missed, a live one is touched. */
  function Lookup<T>(m: Flat<T>, key: Key, now: int): (Flat<T>, Option<T>) {
    if key !in m then (m, None)
    else if Expired(m[key], now) then (m - {key}, None)
    else (m[key := m[key].(lastAccess := now)], Some(m[key].value))
  }

  // ----- one eviction

  lemma LiveIsPart<T>(m: Flat<T>, now: int)
    ensures Live(m, now).Keys <= m.Keys && |Live(m, now)| <= |m|
  {
    SubsetSize(Live(m, now).Keys, m.Keys);
  }

  lemma SubsetSize<X>(small: set<X>, big: set<X>)
    requires small <= big
    ensures |small| <= |big|
    ensures |small| == |big| ==> small == big
  {
    assert big == small + (big - small);
  }

  /** An eviction ends within capacity, and under capacity it removes nothing that is still live. */
  lemma EvictionFits<T>(m: Flat<T>, max: int, now: int, after: Flat<T>)
    requires Evicts(m, max, now, after)
    ensures max > 0 ==> |after| <= max
    ensures max > 0 && |m| > max && |Live(m, now)| <= max ==> after == Live(m, now)
    ensures after.Keys <= m.Keys && forall k :: k in after ==> after[k] == m[k]
  {
    LiveIsPart(m, now);
    if max > 0 && |m| > max && |Live(m, now)| <= max {
      SubsetSize(after.Keys, Live(m, now).Keys);
    }
  }

  /** What a store with a new key leaves in a full cache, key by key. */
  lemma FullStore<T>(m: Flat<T>, max: int, key: Key, r: Rec<T>, evictNow: int)
    requires key !in m && max > 0 && |m| >= max
    ensures var put := m[key := r]; |put| == |m| + 1 && (key in Live(put, evictNow) <==> !Expired(r, evictNow))
  {
    assert m[key := r].Keys == m.Keys + {key};
  }

  /** With a strictly increasing clock the key just stored goes exactly when it has to be evicted after it expired. */
  lemma JustStoredSurvives<T>(m: Flat<T>, max: int, key: Key, value: T, ttl: int, now: int, evictNow: int, after: Flat<T>)
    requires Stores(m, max, key, value, ttl, now, evictNow, after)
    requires forall k :: k in m ==> m[k].lastAccess < now
    ensures key in after <==> key in m || max <= 0 || |m| < max || evictNow <= now + ttl
    ensures key in after ==> after[key] == Rec(value, now + ttl, now)
  {
    var put := m[key := Rec(value, now + ttl, now)];
    if key !in m {
      assert put.Keys == m.Keys + {key};
      if max > 0 && |m| >= max {
        FullStore(m, max, key, put[key], evictNow);
        var live := Live(put, evictNow);
        SubsetSize(after.Keys, live.Keys);
        if key in live {
          assert |after.Keys| > 0;
          var s :| s in after.Keys;
          assert s == key || live[s].lastAccess < live[key].lastAccess;
        }
      }
    }
  }

  /**
   With ties the key just stored may be its own victim exactly when the cache is full, and either it has expired by
   the eviction's clock reading or nothing else has and everything was accessed at the same instant.
   */
  lemma MayEvictItself<T>(m: Flat<T>, max: int, key: Key, value: T, ttl: int, now: int, evictNow: int)
    requires max > 0 && |m| <= max && forall k :: k in m ==> m[k].lastAccess <= now
    ensures (exists after :: Stores(m, max, key, value, ttl, now, evictNow, after) && key !in after) <==>
      key !in m && |m| == max
      && (evictNow > now + ttl || forall k :: k in m ==> !Expired(m[k], evictNow) && m[k].lastAccess == now)
  {
    var r := Rec(value, now + ttl, now);
    var put := m[key := r];
    var live := Live(put, evictNow);
    if key in m {
    } else if |m| < max {
      assert put.Keys == m.Keys + {key};
    } else {
      FullStore(m, max, key, r, evictNow);
      if evictNow > now + ttl {
        VictimExpired(m, max, key, value, ttl, now, evictNow);
      } else if forall k :: k in m ==> !Expired(m[k], evictNow) && m[k].lastAccess == now {
        VictimOfTie(m, max, key, value, ttl, now, evictNow);
      } else {
        forall after | Stores(m, max, key, value, ttl, now, evictNow, after) ensures key in after {
          NoVictim(m, max, key, value, ttl, now, evictNow, after);
        }
      }
    }
  }

  lemma VictimExpired<T>(m: Flat<T>, max: int, key: Key, value: T, ttl: int, now: int, evictNow: int)
    requires max > 0 && |m| == max && key !in m && evictNow > now + ttl
    ensures exists after :: Stores(m, max, key, value, ttl, now, evictNow, after) && key !in after
  {
    var r := Rec(value, now + ttl, now);
    var live := Live(m[key := r], evictNow);
    FullStore(m, max, key, r, evictNow);
    SubsetSize(live.Keys, m.Keys);
    assert Stores(m, max, key, value, ttl, now, evictNow, live);
  }

  lemma VictimOfTie<T>(m: Flat<T>, max: int, key: Key, value: T, ttl: int, now: int, evictNow: int)
    requires max > 0 && |m| == max && key !in m && evictNow <= now + ttl
    requires forall k :: k in m ==> !Expired(m[k], evictNow) && m[k].lastAccess == now
    ensures exists after :: Stores(m, max, key, value, ttl, now, evictNow, after) && key !in after
  {
    var r := Rec(value, now + ttl, now);
    FullStore(m, max, key, r, evictNow);
    assert Live(m[key := r], evictNow) == m[key := r];
    assert Stores(m, max, key, value, ttl, now, evictNow, m);
  }

  lemma NoVictim<T>(m: Flat<T>, max: int, key: Key, value: T, ttl: int, now: int, evictNow: int, after: Flat<T>)
    requires max > 0 && |m| == max && key !in m && evictNow <= now + ttl
    requires forall k :: k in m ==> m[k].lastAccess <= now
    requires exists k :: k in m && (Expired(m[k], evictNow) || m[k].lastAccess < now)
    requires Stores(m, max, key, value, ttl, now, evictNow, after)
    ensures key in after
  {
    var r := Rec(value, now + ttl, now);
    var put := m[key := r];
    var live := Live(put, evictNow);
    FullStore(m, max, key, r, evictNow);
    var k :| k in m && (Expired(m[k], evictNow) || m[k].lastAccess < now);
    if key !in after {
      if Expired(m[k], evictNow) {
        SubsetSize(live.Keys, put.Keys - {k});
        SubsetSize(after.Keys, live.Keys);
      } else {
        SubsetSize(live.Keys, put.Keys);
        SubsetSize(after.Keys, live.Keys - {key});
      }
    }
  }

  // ----- histories

  datatype Op<T> =
    | Store(key: Key, value: T, ttl: int, now: int, evictNow: int)
    | Get(key: Key, now: int, result: Option<T>)
    | Sweep(now: int)
    | Clear

  ghost predicate Step<T>(max: int, m: Flat<T>, op: Op<T>, after: Flat<T>) {
    match op
    case Store(key, value, ttl, now, evictNow) => Stores(m, max, key, value, ttl, now, evictNow, after)
    case Get(key, now, result) => (after, result) == Lookup(m, key, now)
    case Sweep(now) => after == Live(m, now)
    case Clear => after == map[]
  }

  ghost predicate IsHistory<T>(max: int, states: seq<Flat<T>>, ops: seq<Op<T>>) {
    && |states| == |ops| + 1 && states[0] == map[]
    && forall i :: 0 <= i < |ops| ==> Step(max, states[i], ops[i], states[i + 1])
  }

  predicate StoresKey<T>(op: Op<T>, key: Key) {
    op.Store? && op.key == key
  }

  /** The latest of the first n operations that stored key. */
  function LastStore<T>(ops: seq<Op<T>>, key: Key, n: nat): (r: Option<nat>)
    requires n <= |ops|
    ensures r.Some? ==> r.value < n && StoresKey(ops[r.value], key)
  {
    if n == 0 then None
    else if StoresKey(ops[n - 1], key) then Some(n - 1)
    else LastStore(ops, key, n - 1)
  }

  /** When key was last stored or looked up. */
  function LastUse<T>(ops: seq<Op<T>>, key: Key, n: nat): Option<int>
    requires n <= |ops|
  {
    if n == 0 then None
    else if (ops[n - 1].Store? || ops[n - 1].Get?) && ops[n - 1].key == key then Some(ops[n - 1].now)
    else LastUse(ops, key, n - 1)
  }

  /** key has stayed in the cache after operation j up to state n. */
  ghost predicate Kept<T>(states: seq<Flat<T>>, key: Key, j: nat, n: nat)
    requires n < |states|
  {
    forall i :: j < i <= n ==> key in states[i]
  }

  /** One step keeps what it knows of a key, unless it stores that key. */
  lemma StepRemembers<T>(max: int, m: Flat<T>, op: Op<T>, after: Flat<T>, key: Key)
    requires Step(max, m, op, after) && key in after
    ensures StoresKey(op, key) ==> after[key] == Rec(op.value, op.now + op.ttl, op.now)
    ensures !StoresKey(op, key) ==>
      && key in m && after[key].value == m[key].value && after[key].expiresAt == m[key].expiresAt
      && after[key].lastAccess == (if op.Get? && op.key == key then op.now else m[key].lastAccess)
  {
    if op.Store? {
      var put := m[op.key := Rec(op.value, op.now + op.ttl, op.now)];
      if op.key !in m {
        EvictionFits(put, max, op.evictNow, after);
      }
    }
  }

  /**
   In every history a key is in the cache exactly when it was stored and not
   removed since; it then carries the value and expiry of its last store and
   the time of its last use.
   */
  lemma {:induction false} CacheRemembersLastStore<T>(max: int, states: seq<Flat<T>>, ops: seq<Op<T>>, key: Key, n: nat)
    requires IsHistory(max, states, ops) && n <= |ops|
    ensures var j := LastStore(ops, key, n);
      && (key in states[n] <==> j.Some? && Kept(states, key, j.value, n))
      && (key in states[n] ==>
            && states[n][key].value == ops[j.value].value
            && states[n][key].expiresAt == ops[j.value].now + ops[j.value].ttl
            && LastUse(ops, key, n) == Some(states[n][key].lastAccess))
  {
    hide Step;
    if n > 0 {
      CacheRemembersLastStore(max, states, ops, key, n - 1);
      assert Step(max, states[n - 1], ops[n - 1], states[n]);
      if key in states[n] {
        StepRemembers(max, states[n - 1], ops[n - 1], states[n], key);
      }
    }
  }

  /**
   A lookup returns a value exactly when the key's last store has been neither
   evicted nor cleared and has not expired, and then it is that store's value.
   */
  lemma LookupReturnsLastStore<T>(max: int, states: seq<Flat<T>>, ops: seq<Op<T>>, n: nat)
    requires IsHistory(max, states, ops) && n < |ops| && ops[n].Get?
    ensures var j := LastStore(ops, ops[n].key, n);
      && (ops[n].result.Some? <==>
            j.Some? && Kept(states, ops[n].key, j.value, n) && ops[n].now <= ops[j.value].now + ops[j.value].ttl)
      && (ops[n].result.Some? ==> ops[n].result.value == ops[j.value].value)
  {
    CacheRemembersLastStore(max, states, ops, ops[n].key, n);
    assert Step(max, states[n], ops[n], states[n + 1]);
  }

  lemma LastUseIsEarlier<T>(ops: seq<Op<T>>, key: Key, n: nat, now: int)
    requires n <= |ops| && forall j :: 0 <= j < n && !ops[j].Clear? ==> ops[j].now < now
    ensures LastUse(ops, key, n).Some? ==> LastUse(ops, key, n).value < now
  {
  }

  /**
   When every clock reading is later than the ones before, a store is undone by its own eviction exactly when the
   cache was full and the entry had expired by the eviction's reading.
   */
  lemma StoreSurvivesItsEviction<T>(max: int, states: seq<Flat<T>>, ops: seq<Op<T>>, n: nat)
    requires IsHistory(max, states, ops) && n < |ops| && ops[n].Store?
    requires forall j :: 0 <= j < n && !ops[j].Clear? ==> ops[j].now < ops[n].now
    ensures var op := ops[n];
      && (op.key in states[n + 1] <==>
            op.key in states[n] || max <= 0 || |states[n]| < max || op.evictNow <= op.now + op.ttl)
      && (op.key in states[n + 1] ==> states[n + 1][op.key] == Rec(op.value, op.now + op.ttl, op.now))
  {
    var op := ops[n];
    assert Step(max, states[n], op, states[n + 1]);
    forall k | k in states[n]
      ensures states[n][k].lastAccess < op.now
    {
      CacheRemembersLastStore(max, states, ops, k, n);
      LastUseIsEarlier(ops, k, n, op.now);
    }
    JustStoredSurvives(states[n], max, op.key, op.value, op.ttl, op.now, op.evictNow, states[n + 1]);
  }

  /** A cache for one entry, two stores at one clock reading: the second may be gone at once. */
  lemma SecondStoreMayVanish(a: Key, b: Key) returns (states: seq<Flat<int>>, ops: seq<Op<int>>)
    requires a != b
    ensures ops == [Store(a, 1, 10, 0, 0), Store(b, 2, 10, 0, 0)] && IsHistory(1, states, ops)
    ensures b !in states[2] && a in states[2]
  {
    var first: Flat<int> := map[a := Rec(1, 10, 0)];
    ops := [Store(a, 1, 10, 0, 0), Store(b, 2, 10, 0, 0)];
    states := [map[], first, first];
    assert first == map[][a := Rec(1, 10, 0)];
    FullStore(first, 1, b, Rec(2, 10, 0), 0);
    assert Live(first[b := Rec(2, 10, 0)], 0) == first[b := Rec(2, 10, 0)];
    assert Step(1, states[0], ops[0], states[1]) && Step(1, states[1], ops[1], states[2]);
  }

  /** The capacity holds in every state of every history. */
  lemma {:induction false} CapacityHolds<T>(max: int, states: seq<Flat<T>>, ops: seq<Op<T>>, n: nat)
    requires IsHistory(max, states, ops) && max > 0 && n <= |ops|
    ensures |states[n]| <= max
  {
    if n > 0 {
      CapacityHolds(max, states, ops, n - 1);
      StepFits(max, states[n - 1], ops[n - 1], states[n]);
    }
  }

  lemma StepFits<T>(max: int, m: Flat<T>, op: Op<T>, after: Flat<T>)
    requires max > 0 && Step(max, m, op, after) && |m| <= max
    ensures |after| <= max
  {
    match op
    case Store(key, value, ttl, now, evictNow) =>
      var put := m[key := Rec(value, now + ttl, now)];
      if key in m {
        assert put.Keys == m.Keys;
        SubsetSize(put.Keys, m.Keys);
      } else {
        EvictionFits(put, max, evictNow, after);
      }
    case Get(key, now, _) =>
      SubsetSize(after.Keys, m.Keys);
    case Sweep(now) =>
      LiveIsPart(m, now);
    case Clear =>
  }
}
