/** What the walk does on every finite graph, cyclic ones included. */
module CfgxTheorems {
  import opened Wrappers
  import opened CfgxGraph

  function Elements(s: seq<Addr>): set<Addr> {
    set a | a in s
  }

  predicate NoRepeats(s: seq<Addr>) {
    forall i, j :: 0 <= i < j < |s| ==> s[i] != s[j]
  }

  /** entered lists, once each, the pointers that joined before to make after. */
  ghost predicate Enters(before: set<Addr>, entered: seq<Addr>, after: set<Addr>) {
    NoRepeats(entered) && Elements(entered) !! before && after == before + Elements(entered)
  }

  lemma EntersNone(visited: set<Addr>)
    ensures Enters(visited, [], visited)
  {
  }

  lemma EntersOne(visited: set<Addr>, a: Addr)
    requires a !in visited
    ensures Enters(visited, [a], visited + {a})
  {
    assert Elements([a]) == {a};
  }

  lemma EntersJoin(a: set<Addr>, s: seq<Addr>, b: set<Addr>, t: seq<Addr>, c: set<Addr>)
    requires Enters(a, s, b) && Enters(b, t, c)
    ensures Enters(a, s + t, c)
  {
    assert Elements(s + t) == Elements(s) + Elements(t);
    forall i, j | 0 <= i < j < |s + t|
      ensures (s + t)[i] != (s + t)[j]
    {
      if i < |s| <= j {
        assert s[i] in Elements(s) && t[j - |s|] in Elements(t);
      }
    }
  }

  // ----- each pointer is entered at most once

  lemma {:induction false} DerefEntersOnce(h: Heap, v: Value, visited: set<Addr>)
    requires Closed(h) && Pointers(v) <= h.Keys
    ensures var d := Deref(h, v, visited); Enters(visited, d.entered, d.visited)
    decreases Unvisited(h, visited), v
  {
    hide Enters;
    EntersNone(visited);
    match v
    case Iface(inner) => DerefEntersOnce(h, inner, visited);
    case Ptr(a) =>
      if a !in visited {
        VisitedGrows(h, visited, visited + {a});
        DerefEntersOnce(h, h[a], visited + {a});
        EntersOne(visited, a);
        EntersJoin(visited, [a], visited + {a}, Deref(h, h[a], visited + {a}).entered, Deref(h, v, visited).visited);
      }
    case _ =>
  }

  lemma {:induction false} WalkEntersOnce(h: Heap, v: Value, at: Place, visited: set<Addr>)
    requires Closed(h) && Pointers(v) <= h.Keys
    ensures var o := Walk(h, v, at, visited); Enters(visited, o.entered, o.visited)
    decreases Unvisited(h, visited), v, 1, 0, 0
  {
    hide Closed, Deref, WalkFrom, Enters, Landed;
    var d := Deref(h, v, visited);
    DerefEntersOnce(h, v, visited);
    if d.node.Some? {
      var kids := WalkFrom(h, d.node.value, 0, Landed(at, d.entered), d.visited);
      WalkFromEntersOnce(h, d.node.value, 0, Landed(at, d.entered), d.visited);
      EntersJoin(visited, d.entered, d.visited, kids.entered, kids.visited);
    }
  }

  lemma {:induction false} ChildEntersOnce(h: Heap, node: Value, k: nat, at: Place, visited: set<Addr>)
    requires Closed(h) && k < Arity(node) && PointersFrom(node, k) <= h.Keys
    ensures var o := WalkChild(h, node, k, at, visited); Enters(visited, o.entered, o.visited)
    decreases Unvisited(h, visited), node, 0, Arity(node) - k, 0
  {
    var c := Child(node, k);
    if c.Some? {
      WalkEntersOnce(h, c.value, Down(at, k), visited);
    } else {
      EntersNone(visited);
    }
  }

  lemma {:induction false} WalkFromEntersOnce(h: Heap, node: Value, k: nat, at: Place, visited: set<Addr>)
    requires Closed(h) && k <= Arity(node) && PointersFrom(node, k) <= h.Keys
    ensures var o := WalkFrom(h, node, k, at, visited); Enters(visited, o.entered, o.visited)
    decreases Unvisited(h, visited), node, 0, Arity(node) - k, 1
  {
    hide Walk, WalkChild, Closed, Child, Unvisited, Enters;
    EntersNone(visited);
    if k < Arity(node) {
      ChildPointers(node, k);
      var first := WalkChild(h, node, k, at, visited);
      ChildEntersOnce(h, node, k, at, visited);
      VisitedGrows(h, visited, first.visited);
      WalkFromEntersOnce(h, node, k + 1, at, first.visited);
      var rest := WalkFrom(h, node, k + 1, at, first.visited);
      EntersJoin(visited, first.entered, first.visited, rest.entered, rest.visited);
    }
  }

  // ----- what has been entered is closed

  /** Everything added since before points into after. */
  ghost predicate Saturated(h: Heap, before: set<Addr>, after: set<Addr>) {
    forall a :: a in after && a !in before ==> a in h && Pointers(h[a]) <= after
  }

  /** After a deref only the node it stopped at may still have unvisited pointers. */
  lemma {:induction false} DerefSaturates(h: Heap, v: Value, visited: set<Addr>, final: set<Addr>)
    requires Closed(h) && Pointers(v) <= h.Keys
    requires var d := Deref(h, v, visited);
      d.visited <= final && (d.node.Some? ==> Pointers(d.node.value) <= final)
    ensures Pointers(v) <= final
    ensures forall a :: a in Deref(h, v, visited).entered ==> a in h && Pointers(h[a]) <= final
    decreases Unvisited(h, visited), v
  {
    match v
    case Iface(inner) => DerefSaturates(h, inner, visited, final);
    case Ptr(a) =>
      if a !in visited {
        VisitedGrows(h, visited, visited + {a});
        DerefSaturates(h, h[a], visited + {a}, final);
      }
    case _ =>
  }

  lemma {:induction false} WalkSaturates(h: Heap, v: Value, at: Place, visited: set<Addr>)
    requires Closed(h) && Pointers(v) <= h.Keys
    ensures var o := Walk(h, v, at, visited); Pointers(v) <= o.visited && Saturated(h, visited, o.visited)
    decreases Unvisited(h, visited), v, 1, 0, 0
  {
    var d, o := Deref(h, v, visited), Walk(h, v, at, visited);
    DerefEntersOnce(h, v, visited);
    if d.node.Some? {
      WalkFromSaturates(h, d.node.value, 0, Landed(at, d.entered), d.visited);
    }
    DerefSaturates(h, v, visited, o.visited);
  }

  lemma {:induction false} ChildSaturates(h: Heap, node: Value, k: nat, at: Place, visited: set<Addr>)
    requires Closed(h) && k < Arity(node) && PointersFrom(node, k) <= h.Keys
    ensures var o := WalkChild(h, node, k, at, visited);
      (Child(node, k).Some? ==> Pointers(Child(node, k).value) <= o.visited) && Saturated(h, visited, o.visited)
    decreases Unvisited(h, visited), node, 0, Arity(node) - k, 0
  {
    var c := Child(node, k);
    if c.Some? {
      WalkSaturates(h, c.value, Down(at, k), visited);
    }
  }

  lemma {:induction false} WalkFromSaturates(h: Heap, node: Value, k: nat, at: Place, visited: set<Addr>)
    requires Closed(h) && k <= Arity(node) && PointersFrom(node, k) <= h.Keys
    ensures var o := WalkFrom(h, node, k, at, visited);
      PointersFrom(node, k) <= o.visited && Saturated(h, visited, o.visited)
    decreases Unvisited(h, visited), node, 0, Arity(node) - k, 1
  {
    hide Walk, WalkChild, Closed, Child, Unvisited;
    if k < Arity(node) {
      ChildPointers(node, k);
      var first := WalkChild(h, node, k, at, visited);
      ChildSaturates(h, node, k, at, visited);
      VisitedGrows(h, visited, first.visited);
      WalkFromSaturates(h, node, k + 1, at, first.visited);
    }
  }

  // ----- what has been entered is reachable

  /** Every entered pointer is one of roots or pointed to by an earlier entered one. */
  ghost predicate Chained(h: Heap, roots: set<Addr>, entered: seq<Addr>) {
    forall i :: 0 <= i < |entered| ==>
      entered[i] in roots || exists j :: 0 <= j < i && entered[j] in h && entered[i] in Pointers(h[entered[j]])
  }

  lemma ChainedNone(h: Heap, roots: set<Addr>)
    ensures Chained(h, roots, [])
  {
  }

  lemma ChainedJoin(h: Heap, roots: set<Addr>, s: seq<Addr>, t: seq<Addr>)
    requires Chained(h, roots, s) && Chained(h, roots, t)
    ensures Chained(h, roots, s + t)
  {
    forall i | 0 <= i < |s + t|
      ensures (s + t)[i] in roots
           || exists j :: 0 <= j < i && (s + t)[j] in h && (s + t)[i] in Pointers(h[(s + t)[j]])
    {
      if i < |s| {
        if s[i] !in roots {
          var j :| 0 <= j < i && s[j] in h && s[i] in Pointers(h[s[j]]);
          assert (s + t)[j] == s[j];
        }
      } else if t[i - |s|] !in roots {
        var j :| 0 <= j < i - |s| && t[j] in h && t[i - |s|] in Pointers(h[t[j]]);
        assert (s + t)[j + |s|] == t[j];
      }
    }
  }

  /** A chain hanging off the last entered pointer extends a chain. */
  lemma ChainedHang(h: Heap, roots: set<Addr>, s: seq<Addr>, t: seq<Addr>)
    requires s != [] && s[|s| - 1] in h
    requires Chained(h, roots, s) && Chained(h, Pointers(h[s[|s| - 1]]), t)
    ensures Chained(h, roots, s + t)
  {
    forall i | 0 <= i < |s + t|
      ensures (s + t)[i] in roots
           || exists j :: 0 <= j < i && (s + t)[j] in h && (s + t)[i] in Pointers(h[(s + t)[j]])
    {
      if i < |s| {
        if s[i] !in roots {
          var j :| 0 <= j < i && s[j] in h && s[i] in Pointers(h[s[j]]);
          assert (s + t)[j] == s[j];
        }
      } else if t[i - |s|] in Pointers(h[s[|s| - 1]]) {
        assert (s + t)[|s| - 1] == s[|s| - 1];
      } else {
        var j :| 0 <= j < i - |s| && t[j] in h && t[i - |s|] in Pointers(h[t[j]]);
        assert (s + t)[j + |s|] == t[j];
      }
    }
  }

  /** node is part of v, or of the target of the last pointer entered. */
  ghost predicate HangsOff(h: Heap, v: Value, entered: seq<Addr>, node: Value) {
    if entered == [] then
      Pointers(node) <= Pointers(v)
    else
      var last := entered[|entered| - 1];
      last in h && Pointers(node) <= Pointers(h[last])
  }

  lemma ChainedOne(h: Heap, a: Addr)
    ensures Chained(h, {a}, [a])
  {
  }

  lemma HangsHere(h: Heap, v: Value)
    ensures HangsOff(h, v, [], v)
  {
  }

  lemma HangsInside(h: Heap, inner: Value, d: Dereffed)
    requires d.node.Some? ==> HangsOff(h, inner, d.entered, d.node.value)
    ensures d.node.Some? ==> HangsOff(h, Iface(inner), d.entered, d.node.value)
  {
  }

  lemma HangsBehind(h: Heap, a: Addr, entered: seq<Addr>, node: Value)
    requires a in h && HangsOff(h, h[a], entered, node)
    ensures HangsOff(h, Ptr(a), [a] + entered, node)
  {
  }

  lemma {:induction false} DerefIsChained(h: Heap, v: Value, visited: set<Addr>)
    requires Closed(h) && Pointers(v) <= h.Keys
    ensures var d := Deref(h, v, visited);
      Chained(h, Pointers(v), d.entered) && (d.node.Some? ==> HangsOff(h, v, d.entered, d.node.value))
    decreases Unvisited(h, visited), v
  {
    hide Chained, HangsOff;
    ChainedNone(h, Pointers(v));
    HangsHere(h, v);
    match v
    case Iface(inner) =>
      DerefIsChained(h, inner, visited);
      HangsInside(h, inner, Deref(h, v, visited));
    case Ptr(a) =>
      if a !in visited {
        VisitedGrows(h, visited, visited + {a});
        DerefIsChained(h, h[a], visited + {a});
        ChainedOne(h, a);
        var d := Deref(h, h[a], visited + {a});
        ChainedHang(h, {a}, [a], d.entered);
        if d.node.Some? {
          HangsBehind(h, a, d.entered, d.node.value);
        }
      }
    case _ =>
  }

  /** What a node's children enter continues the chain that led to the node. */
  lemma HangJoin(h: Heap, v: Value, s: seq<Addr>, node: Value, t: seq<Addr>)
    requires Chained(h, Pointers(v), s) && HangsOff(h, v, s, node) && Chained(h, Pointers(node), t)
    ensures Chained(h, Pointers(v), s + t)
  {
    hide Chained;
    if s == [] {
      ChainedWiden(h, Pointers(node), Pointers(v), t);
      ChainedJoin(h, Pointers(v), s, t);
    } else {
      ChainedWiden(h, Pointers(node), Pointers(h[s[|s| - 1]]), t);
      ChainedHang(h, Pointers(v), s, t);
    }
  }

  lemma {:induction false} WalkIsChained(h: Heap, v: Value, at: Place, visited: set<Addr>)
    requires Closed(h) && Pointers(v) <= h.Keys
    ensures Chained(h, Pointers(v), Walk(h, v, at, visited).entered)
    decreases Unvisited(h, visited), v, 1, 0, 0
  {
    hide Chained, HangsOff, Closed, Deref, WalkFrom;
    var d := Deref(h, v, visited);
    DerefIsChained(h, v, visited);
    if d.node.Some? {
      var kids := WalkFrom(h, d.node.value, 0, Landed(at, d.entered), d.visited);
      WalkFromIsChained(h, d.node.value, 0, Landed(at, d.entered), d.visited);
      HangJoin(h, v, d.entered, d.node.value, kids.entered);
    }
  }

  lemma ChainedWiden(h: Heap, some: set<Addr>, more: set<Addr>, s: seq<Addr>)
    requires some <= more && Chained(h, some, s)
    ensures Chained(h, more, s)
  {
  }

  lemma {:induction false} ChildIsChained(h: Heap, node: Value, k: nat, at: Place, visited: set<Addr>)
    requires Closed(h) && k < Arity(node) && PointersFrom(node, k) <= h.Keys
    ensures Chained(h, PointersFrom(node, k), WalkChild(h, node, k, at, visited).entered)
    decreases Unvisited(h, visited), node, 0, Arity(node) - k, 0
  {
    var c := Child(node, k);
    if c.Some? {
      WalkIsChained(h, c.value, Down(at, k), visited);
      ChainedWiden(h, Pointers(c.value), PointersFrom(node, k), WalkChild(h, node, k, at, visited).entered);
    }
  }

  lemma {:induction false} WalkFromIsChained(h: Heap, node: Value, k: nat, at: Place, visited: set<Addr>)
    requires Closed(h) && k <= Arity(node) && PointersFrom(node, k) <= h.Keys
    ensures Chained(h, PointersFrom(node, k), WalkFrom(h, node, k, at, visited).entered)
    decreases Unvisited(h, visited), node, 0, Arity(node) - k, 1
  {
    hide Walk, WalkChild, Closed, Child, Unvisited, Chained;
    ChainedNone(h, PointersFrom(node, k));
    if k < Arity(node) {
      ChildPointers(node, k);
      var first := WalkChild(h, node, k, at, visited);
      ChildIsChained(h, node, k, at, visited);
      VisitedGrows(h, visited, first.visited);
      WalkFromIsChained(h, node, k + 1, at, first.visited);
      var rest := WalkFrom(h, node, k + 1, at, first.visited);
      ChainedWiden(h, PointersFrom(node, k + 1), PointersFrom(node, k), rest.entered);
      ChainedJoin(h, PointersFrom(node, k), first.entered, rest.entered);
    }
  }

  lemma {:induction false} ChainedIsReachable(h: Heap, v: Value, entered: seq<Addr>, i: nat)
    requires Chained(h, Pointers(v), entered) && i < |entered|
    ensures Reachable(h, v, entered[i])
    decreases i
  {
    if entered[i] in Pointers(v) {
      assert LeadsFrom(h, v, [entered[i]]);
    } else {
      var j :| 0 <= j < i && entered[j] in h && entered[i] in Pointers(h[entered[j]]);
      ChainedIsReachable(h, v, entered, j);
      var path :| LeadsFrom(h, v, path) && path[|path| - 1] == entered[j];
      var longer := path + [entered[i]];
      assert LeadsFrom(h, v, longer);
      assert longer[|longer| - 1] == entered[i];
    }
  }

  lemma {:induction false} PathStaysVisited(h: Heap, v: Value, visited: set<Addr>, path: seq<Addr>, n: nat)
    requires LeadsFrom(h, v, path) && n < |path|
    requires Pointers(v) <= visited && Saturated(h, {}, visited)
    ensures path[n] in visited
  {
    if n > 0 {
      PathStaysVisited(h, v, visited, path, n - 1);
    }
  }

  /**
   A walk from the root enters every pointer that can be reached from it, each
   exactly once, and none other; cycles and shared targets make no difference.
   */
  lemma WalkVisitsExactlyTheReachable(h: Heap, v: Value)
    requires Closed(h) && Pointers(v) <= h.Keys
    ensures var o := Walk(h, v, Root, {});
      && (forall a :: a in o.visited <==> Reachable(h, v, a))
      && NoRepeats(o.entered) && Elements(o.entered) == o.visited
  {
    hide Walk, Closed, Pointers;
    var o := Walk(h, v, Root, {});
    WalkEntersOnce(h, v, Root, {});
    WalkSaturates(h, v, Root, {});
    WalkIsChained(h, v, Root, {});
    forall a
      ensures a in o.visited <==> Reachable(h, v, a)
    {
      if a in o.visited {
        var i :| 0 <= i < |o.entered| && o.entered[i] == a;
        ChainedIsReachable(h, v, o.entered, i);
      }
      if Reachable(h, v, a) {
        var path :| LeadsFrom(h, v, path) && path[|path| - 1] == a;
        PathStaysVisited(h, v, o.visited, path, |path| - 1);
      }
    }
  }

  // ----- validators: children before parents, each exactly once

  /** No call precedes a call at its own place or beneath it. */
  predicate ChildrenFirst(calls: seq<Place>) {
    forall i, j :: 0 <= i < j < |calls| ==> !(calls[i].loc <= calls[j].loc)
  }

  predicate AllBeneath(loc: Loc, k: nat, calls: seq<Place>) {
    forall i :: 0 <= i < |calls| ==> loc < calls[i].loc && calls[i].loc[|loc|] >= k
  }

  predicate AllWithin(loc: Loc, calls: seq<Place>) {
    forall i :: 0 <= i < |calls| ==> loc <= calls[i].loc
  }

  lemma NoCalls(loc: Loc, k: nat)
    ensures ChildrenFirst([]) && AllBeneath(loc, k, []) && AllWithin(loc, [])
  {
  }

  lemma {:induction false} WalkIsPostOrder(h: Heap, v: Value, at: Place, visited: set<Addr>)
    requires Closed(h) && Pointers(v) <= h.Keys
    ensures var calls := Walk(h, v, at, visited).calls; ChildrenFirst(calls) && AllWithin(at.loc, calls)
    decreases Unvisited(h, visited), v, 1, 0, 0
  {
    hide Closed, Deref, WalkFrom, ChildrenFirst, AllBeneath, AllWithin, Landed, Unvisited;
    NoCalls(at.loc, 0);
    var d := Deref(h, v, visited);
    if d.node.Some? {
      var here := Landed(at, d.entered);
      WalkFromIsPostOrder(h, d.node.value, 0, here, d.visited);
      OwnCallLast(here, WalkFrom(h, d.node.value, 0, here, d.visited).calls);
    }
  }

  lemma OwnCallLast(at: Place, calls: seq<Place>)
    requires ChildrenFirst(calls) && AllBeneath(at.loc, 0, calls)
    ensures ChildrenFirst(calls + [at]) && ChildrenFirst(calls + [])
    ensures AllWithin(at.loc, calls + [at]) && AllWithin(at.loc, calls + [])
  {
    assert calls + [] == calls;
  }

  lemma {:induction false} ChildIsPostOrder(h: Heap, node: Value, k: nat, at: Place, visited: set<Addr>)
    requires Closed(h) && k < Arity(node) && PointersFrom(node, k) <= h.Keys
    ensures var calls := WalkChild(h, node, k, at, visited).calls;
      ChildrenFirst(calls) && AllWithin(at.loc + [k], calls)
    decreases Unvisited(h, visited), node, 0, Arity(node) - k, 0
  {
    var c := Child(node, k);
    if c.Some? {
      WalkIsPostOrder(h, c.value, Down(at, k), visited);
    }
  }

  lemma {:induction false} WalkFromIsPostOrder(h: Heap, node: Value, k: nat, at: Place, visited: set<Addr>)
    requires Closed(h) && k <= Arity(node) && PointersFrom(node, k) <= h.Keys
    ensures var calls := WalkFrom(h, node, k, at, visited).calls;
      ChildrenFirst(calls) && AllBeneath(at.loc, k, calls)
    decreases Unvisited(h, visited), node, 0, Arity(node) - k, 1
  {
    hide Walk, WalkChild, Closed, Child, Unvisited, ChildrenFirst, AllBeneath, AllWithin;
    NoCalls(at.loc, k);
    if k < Arity(node) {
      ChildPointers(node, k);
      var first := WalkChild(h, node, k, at, visited);
      ChildIsPostOrder(h, node, k, at, visited);
      VisitedGrows(h, visited, first.visited);
      WalkFromIsPostOrder(h, node, k + 1, at, first.visited);
      var rest := WalkFrom(h, node, k + 1, at, first.visited);
      SiblingsApart(at.loc, k, first.calls, rest.calls);
    }
  }

  /** Calls beneath different children of one node are at unrelated places. */
  lemma SiblingsApart(loc: Loc, k: nat, first: seq<Place>, rest: seq<Place>)
    requires AllWithin(loc + [k], first)
    requires AllBeneath(loc, k + 1, rest) && ChildrenFirst(first) && ChildrenFirst(rest)
    ensures ChildrenFirst(first + rest) && AllBeneath(loc, k, first + rest)
  {
    forall i | 0 <= i < |first|
      ensures loc < first[i].loc && first[i].loc[|loc|] == k
    {
      assert (loc + [k])[|loc|] == first[i].loc[|loc|];
      assert loc == (loc + [k])[..|loc|] == first[i].loc[..|loc|];
    }
  }

  // ----- every validator in reach, and each exactly once

  function Bit(b: bool): nat {
    if b then 1 else 0
  }

  /** How often the validator at seat s is called. */
  function Times(calls: seq<Place>, s: Seat): nat {
    if calls == [] then 0 else Times(calls[..|calls| - 1], s) + Bit(calls[|calls| - 1].seat == s)
  }

  lemma {:induction false} TimesJoin(a: seq<Place>, b: seq<Place>, s: Seat)
    ensures Times(a + b, s) == Times(a, s) + Times(b, s)
  {
    if b == [] {
      assert a + b == a;
    } else {
      TimesJoin(a, b[..|b| - 1], s);
      assert (a + b)[..|a + b| - 1] == a + b[..|b| - 1];
    }
  }

  /** s is inline in the value v that sits at seat at, and holds a validator. */
  predicate Holds(v: Value, at: Seat, s: Seat) {
    s.owner == at.owner && at.inner <= s.inner && ValidatorAt(v, s.inner[|at.inner|..])
  }

  /** s is inline in child k of a node or a later one. */
  predicate HoldsFrom(node: Value, k: nat, at: Seat, s: Seat) {
    IsNode(node) && Holds(node, at, s) && at.inner < s.inner && s.inner[|at.inner|] >= k
  }

  /** Seats of validators in the targets of the entered pointers. */
  function Behind(h: Heap, entered: seq<Addr>, s: Seat): nat {
    if entered == [] then 0
    else
      var a := entered[|entered| - 1];
      Behind(h, entered[..|entered| - 1], s) + Bit(a in h && Holds(h[a], Seat(Some(a), []), s))
  }

  lemma {:induction false} BehindJoin(h: Heap, a: seq<Addr>, b: seq<Addr>, s: Seat)
    ensures Behind(h, a + b, s) == Behind(h, a, s) + Behind(h, b, s)
  {
    if b == [] {
      assert a + b == a;
    } else {
      BehindJoin(h, a, b[..|b| - 1], s);
      assert (a + b)[..|a + b| - 1] == a + b[..|b| - 1];
    }
  }

  /** A node's own call and its children's share out the seats inline in it. */
  lemma NodeShares(node: Value, at: Place, s: Seat)
    requires IsNode(node)
    ensures Bit(Holds(node, at.seat, s)) ==
      Bit(HoldsFrom(node, 0, at.seat, s)) + Times(if node.validator then [at] else [], s)
  {
    var own := if node.validator then [at] else [];
    assert own[..0] == [];
    if at.seat.inner <= s.inner && |at.seat.inner| == |s.inner| {
      assert s.inner == at.seat.inner;
    }
  }

  lemma ChildShares(node: Value, k: nat, at: Place, s: Seat)
    requires IsNode(node) && k < Arity(node)
    ensures Bit(HoldsFrom(node, k, at.seat, s)) == Bit(HoldsFrom(node, k + 1, at.seat, s))
      + Bit(Child(node, k).Some? && Holds(Child(node, k).value, Down(at, k).seat, s))
  {
    var n, deeper := |at.seat.inner|, at.seat.inner + [k];
    if at.seat.inner < s.inner {
      assert s.inner[..n + 1] == at.seat.inner + [s.inner[n]];
    }
    if deeper <= s.inner {
      assert s.inner[n] == deeper[n] == k && s.inner[..n] == deeper[..n] == at.seat.inner;
      assert s.inner[n..][1..] == s.inner[n + 1..] && s.inner[n..][0] == k;
    }
  }

  lemma LastShares(node: Value, at: Seat, s: Seat)
    ensures !HoldsFrom(node, Arity(node), at, s)
  {
  }

  /** Following pointers moves the seats of v to the node arrived at and to the targets passed through. */
  lemma {:induction false} DerefShares(h: Heap, v: Value, at: Place, visited: set<Addr>, s: Seat)
    requires Closed(h) && Pointers(v) <= h.Keys
    ensures var d := Deref(h, v, visited);
      Bit(Holds(v, at.seat, s)) + Behind(h, d.entered, s)
      == Bit(d.node.Some? && Holds(d.node.value, Landed(at, d.entered).seat, s))
    decreases Unvisited(h, visited), v
  {
    match v
    case Iface(inner) => DerefShares(h, inner, at, visited, s);
    case Ptr(a) =>
      if a !in visited {
        VisitedGrows(h, visited, visited + {a});
        var target := Place(at.loc, Seat(Some(a), []));
        DerefShares(h, h[a], target, visited + {a}, s);
        var d := Deref(h, h[a], visited + {a});
        BehindJoin(h, [a], d.entered, s);
        assert [a][..0] == [];
        assert Landed(at, [a] + d.entered) == Landed(target, d.entered);
      }
    case _ =>
  }

  /** The calls for seat s are its being inline in v, plus its being inline in a target the walk enters. */
  lemma {:induction false} WalkCalls(h: Heap, v: Value, at: Place, visited: set<Addr>, s: Seat)
    requires Closed(h) && Pointers(v) <= h.Keys
    ensures var o := Walk(h, v, at, visited);
      Times(o.calls, s) == Bit(Holds(v, at.seat, s)) + Behind(h, o.entered, s)
    decreases Unvisited(h, visited), v, 1, 0, 0
  {
    hide Closed, Deref, WalkFrom, Holds, HoldsFrom, Behind, Times;
    var d := Deref(h, v, visited);
    DerefShares(h, v, at, visited, s);
    NothingCalled(s);
    if d.node.Some? {
      var node, here := d.node.value, Landed(at, d.entered);
      var kids := WalkFrom(h, node, 0, here, d.visited);
      WalkFromCalls(h, node, 0, here, d.visited, s);
      NodeShares(node, here, s);
      TimesJoin(kids.calls, if node.validator then [here] else [], s);
      BehindJoin(h, d.entered, kids.entered, s);
    }
  }

  lemma NothingCalled(s: Seat)
    ensures Times([], s) == 0
    ensures forall h :: Behind(h, [], s) == 0
  {
  }

  lemma {:induction false} ChildCalls(h: Heap, node: Value, k: nat, at: Place, visited: set<Addr>, s: Seat)
    requires Closed(h) && k < Arity(node) && PointersFrom(node, k) <= h.Keys
    ensures var c, o := Child(node, k), WalkChild(h, node, k, at, visited);
      Times(o.calls, s) == Bit(c.Some? && Holds(c.value, Down(at, k).seat, s)) + Behind(h, o.entered, s)
    decreases Unvisited(h, visited), node, 0, Arity(node) - k, 0
  {
    hide Holds, Behind, Times;
    NothingCalled(s);
    var c := Child(node, k);
    if c.Some? {
      WalkCalls(h, c.value, Down(at, k), visited, s);
    }
  }

  lemma {:induction false} WalkFromCalls(h: Heap, node: Value, k: nat, at: Place, visited: set<Addr>, s: Seat)
    requires IsNode(node) && Closed(h) && k <= Arity(node) && PointersFrom(node, k) <= h.Keys
    ensures var o := WalkFrom(h, node, k, at, visited);
      Times(o.calls, s) == Bit(HoldsFrom(node, k, at.seat, s)) + Behind(h, o.entered, s)
    decreases Unvisited(h, visited), node, 0, Arity(node) - k, 1
  {
    hide Walk, WalkChild, Closed, Child, Unvisited, Holds, HoldsFrom, Behind, Times;
    NothingCalled(s);
    LastShares(node, at.seat, s);
    if k < Arity(node) {
      ChildPointers(node, k);
      var first := WalkChild(h, node, k, at, visited);
      ChildCalls(h, node, k, at, visited, s);
      ChildShares(node, k, at, s);
      VisitedGrows(h, visited, first.visited);
      WalkFromCalls(h, node, k + 1, at, first.visited, s);
      var rest := WalkFrom(h, node, k + 1, at, first.visited);
      TimesJoin(first.calls, rest.calls, s);
      BehindJoin(h, first.entered, rest.entered, s);
    }
  }

  /** Among pointers entered once each, at most one has a given seat behind it. */
  lemma {:induction false} BehindOnce(h: Heap, entered: seq<Addr>, s: Seat)
    requires NoRepeats(entered)
    ensures Behind(h, entered, s) ==
      Bit(s.owner.Some? && s.owner.value in entered && s.owner.value in h && ValidatorAt(h[s.owner.value], s.inner))
  {
    if entered != [] {
      var front, a := entered[..|entered| - 1], entered[|entered| - 1];
      BehindOnce(h, front, s);
      assert entered == front + [a] && a !in front;
      assert s.inner[0..] == s.inner;
    }
  }

  /**
   Exactly once: the walk calls the validator at a seat once if the seat holds one and lies inline in the root or
   in the target of a pointer that can be reached, and never otherwise; and no call precedes one beneath it.
   */
  lemma ValidatorsRunOnceChildrenFirst(h: Heap, v: Value, s: Seat)
    requires Closed(h) && Pointers(v) <= h.Keys
    ensures Times(Walk(h, v, Root, {}).calls, s) == if InReach(h, v, s) then 1 else 0
    ensures ChildrenFirst(Walk(h, v, Root, {}).calls)
  {
    hide Walk, Closed, Reachable, Behind, Times, ChildrenFirst;
    var o := Walk(h, v, Root, {});
    WalkIsPostOrder(h, v, Root, {});
    WalkCalls(h, v, Root, {}, s);
    WalkVisitsExactlyTheReachable(h, v);
    BehindOnce(h, o.entered, s);
    assert s.inner[0..] == s.inner;
    if s.owner.Some? {
      var a := s.owner.value;
      assert a in o.entered <==> a in Elements(o.entered);
    }
  }
}
