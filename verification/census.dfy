/** Counting callers by what their local state says, as a map of callers changes one entry at a time. */
module Census {
  ghost function Where<V>(m: map<nat, V>, p: V -> bool): set<nat> {
    set c | c in m && p(m[c])
  }

  ghost function Count<V>(m: map<nat, V>, p: V -> bool): nat {
    |Where(m, p)|
  }

  lemma AddOrRemoveOne(s: set<nat>, c: nat)
    ensures |s + {c}| == |s| + (if c in s then 0 else 1)
    ensures |s - {c}| == |s| - (if c in s then 1 else 0)
  {
    if c in s {
      assert s + {c} == s;
    } else {
      assert s - {c} == s;
    }
  }

  /** Entry c now says v. */
  lemma Put<V>(m: map<nat, V>, c: nat, v: V, p: V -> bool)
    ensures Count(m[c := v], p) ==
            Count(m, p) + (if p(v) then 1 else 0) - (if c in m && p(m[c]) then 1 else 0)
  {
    AddOrRemoveOne(Where(m, p), c);
    if p(v) {
      assert Where(m[c := v], p) == Where(m, p) + {c};
    } else {
      assert Where(m[c := v], p) == Where(m, p) - {c};
    }
  }

  /** Entry c is gone. */
  lemma Drop<V>(m: map<nat, V>, c: nat, p: V -> bool)
    ensures Count(m - {c}, p) == Count(m, p) - (if c in m && p(m[c]) then 1 else 0)
  {
    AddOrRemoveOne(Where(m, p), c);
    assert Where(m - {c}, p) == Where(m, p) - {c};
  }

  lemma Fewer<V>(m: map<nat, V>, p: V -> bool, q: V -> bool)
    requires forall c :: c in m && p(m[c]) ==> q(m[c])
    ensures Count(m, p) <= Count(m, q)
  {
    var small, big := Where(m, p), Where(m, q);
    assert big == small + (big - small);
  }

  lemma Somebody<V>(m: map<nat, V>, c: nat, p: V -> bool)
    requires c in m && p(m[c])
    ensures Count(m, p) >= 1
  {
    Drop(m, c, p);
  }

  lemma Nobody<V>(p: V -> bool)
    ensures Count(map[], p) == 0
  {
    assert Where(map[], p) == {};
  }
}
