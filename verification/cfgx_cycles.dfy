/**
 Slices and maps are references too, but the walk remembers pointers only. Here
 a container is named by its identity, and the walk is bounded by the number of
 references it may follow in a row: it terminates when some bound is enough.
 Without containers it is the walk of CfgxGraph.
 */
module CfgxCycles {
  import opened Wrappers
  import G = CfgxGraph

  datatype Ref = ToPointer(addr: nat) | ToContainer(id: nat)

  /** Plain stands for everything not descended into; Inline for structs, arrays and what interfaces hold. */
  datatype Part = Plain | To(ref: Ref) | Inline(parts: seq<Part>)

  /** What pointers point to and what slices and maps contain. */
  type Store = map<Ref, Part>

  // ----- what a part refers to without following a reference

  function Refs(p: Part): set<Ref> {
    match p
    case Plain => {}
    case To(r) => {r}
    case Inline(parts) => RefsIn(parts)
  }

  function RefsIn(parts: seq<Part>): set<Ref> {
    if parts == [] then {} else Refs(parts[0]) + RefsIn(parts[1..])
  }

  ghost predicate Known(s: Store, p: Part) {
    Refs(p) <= s.Keys
  }

  ghost predicate Closed(s: Store) {
    forall r :: r in s ==> Known(s, s[r])
  }

  // ----- the walk

  /** The pointers visited afterwards, or None when fuel references in a row were not enough. */
  function Walk(s: Store, p: Part, visited: set<nat>, fuel: nat): (r: Option<set<nat>>)
    requires Closed(s) && Known(s, p)
    ensures r.Some? ==> visited <= r.value
    decreases fuel, p
  {
    match p
    case Plain => Some(visited)
    case To(ToPointer(a)) =>
      if a in visited then Some(visited)
      else if fuel == 0 then None
      else Walk(s, s[p.ref], visited + {a}, fuel - 1)
    case To(ToContainer(_)) => if fuel == 0 then None else Walk(s, s[p.ref], visited, fuel - 1)
    case Inline(parts) => WalkAll(s, parts, visited, fuel)
  }

  function WalkAll(s: Store, parts: seq<Part>, visited: set<nat>, fuel: nat): (r: Option<set<nat>>)
    requires Closed(s) && RefsIn(parts) <= s.Keys
    ensures r.Some? ==> visited <= r.value
    decreases fuel, parts
  {
    if parts == [] then Some(visited)
    else
      var first := Walk(s, parts[0], visited, fuel);
      if first.None? then None else WalkAll(s, parts[1..], first.value, fuel)
  }

  ghost predicate Terminates(s: Store, p: Part, visited: set<nat>)
    requires Closed(s) && Known(s, p)
  {
    exists fuel: nat :: Walk(s, p, visited, fuel).Some?
  }

  // ----- containers inside containers

  /** Containers of the store, each directly inside the one before it. */
  ghost predicate Chain(s: Store, ids: seq<Ref>) {
    (forall i :: 0 <= i < |ids| ==> ids[i] in s && ids[i].ToContainer?)
    && forall i :: 0 < i < |ids| ==> ids[i] in Refs(s[ids[i - 1]])
  }

  /** A container that holds itself, through containers alone. */
  ghost predicate Loop(s: Store, ids: seq<Ref>) {
    |ids| >= 2 && Chain(s, ids) && ids[0] == ids[|ids| - 1]
  }

  ghost predicate HoldsItself(s: Store, r: Ref) {
    exists ids :: Loop(s, ids) && ids[0] == r
  }

  predicate Points(s: Store, a: Ref, b: Ref) {
    a in s && b in Refs(s[a])
  }

  /** path leads from p through the store, one reference at a time. */
  ghost predicate LeadsFrom(s: Store, p: Part, path: seq<Ref>) {
    path != [] && path[0] in Refs(p)
    && forall i {:trigger path[i]} :: 0 < i < |path| ==> Points(s, path[i - 1], path[i])
  }

  ghost predicate Reachable(s: Store, p: Part, r: Ref) {
    exists path :: LeadsFrom(s, p, path) && path[|path| - 1] == r
  }

  /** p reaches, through pointers and containers, a slice or map that holds itself. */
  ghost predicate ReachesLoop(s: Store, p: Part) {
    exists r :: Reachable(s, p, r) && HoldsItself(s, r)
  }

  lemma ReachDirect(s: Store, p: Part, r: Ref)
    requires r in Refs(p)
    ensures Reachable(s, p, r)
  {
    assert LeadsFrom(s, p, [r]);
  }

  lemma ReachBehind(s: Store, p: Part, r: Ref, far: Ref)
    requires r in Refs(p) && r in s && Reachable(s, s[r], far)
    ensures Reachable(s, p, far)
  {
    hide Refs;
    var path :| LeadsFrom(s, s[r], path) && path[|path| - 1] == far;
    var longer := [r] + path;
    forall i {:trigger longer[i]} | 0 < i < |longer| ensures Points(s, longer[i - 1], longer[i]) {
      if i > 1 {
        assert Points(s, path[i - 2], path[i - 1]);
      }
    }
    assert LeadsFrom(s, p, longer) && longer[|longer| - 1] == far;
  }

  /** A part that reaches no loop refers to no loop, nor to anything that reaches one. */
  lemma NoLoopBehind(s: Store, p: Part, r: Ref)
    requires !ReachesLoop(s, p) && r in Refs(p) && r in s
    ensures !HoldsItself(s, r) && !ReachesLoop(s, s[r])
  {
    hide Reachable, HoldsItself;
    ReachDirect(s, p, r);
    forall far | Reachable(s, s[r], far) ensures Reachable(s, p, far) {
      ReachBehind(s, p, r, far);
    }
  }

  lemma ReachInside(s: Store, p: Part, q: Part, r: Ref)
    requires Refs(q) <= Refs(p) && Reachable(s, q, r)
    ensures Reachable(s, p, r)
  {
    hide Refs, Points;
    var path :| LeadsFrom(s, q, path) && path[|path| - 1] == r;
    assert LeadsFrom(s, p, path);
  }

  lemma NoLoopInside(s: Store, p: Part, q: Part)
    requires !ReachesLoop(s, p) && Refs(q) <= Refs(p)
    ensures !ReachesLoop(s, q)
  {
    hide HoldsItself, Reachable, Refs;
    forall r | Reachable(s, q, r) ensures Reachable(s, p, r) {
      ReachInside(s, p, q, r);
    }
  }

  // ----- a container on a loop is never walked to its end

  /** The place after position i of a loop, going round. */
  function After(ids: seq<Ref>, i: nat): nat
    requires |ids| >= 2 && i < |ids|
  {
    if i + 1 < |ids| then i + 1 else 1
  }

  lemma {:induction false} LoopNeverEnds(s: Store, ids: seq<Ref>, i: nat, p: Part, visited: set<nat>, fuel: nat)
    requires Closed(s) && Known(s, p) && Loop(s, ids) && i < |ids| && ids[i] in Refs(p)
    ensures Walk(s, p, visited, fuel).None?
    decreases fuel, p
  {
    match p
    case To(ToContainer(_)) =>
      if fuel > 0 {
        LoopNeverEnds(s, ids, After(ids, i), s[p.ref], visited, fuel - 1);
      }
    case Inline(parts) => LoopNeverEndsIn(s, ids, i, parts, visited, fuel);
  }

  lemma {:induction false} LoopNeverEndsIn(s: Store, ids: seq<Ref>, i: nat, parts: seq<Part>, visited: set<nat>, fuel: nat)
    requires Closed(s) && RefsIn(parts) <= s.Keys && Loop(s, ids) && i < |ids| && ids[i] in RefsIn(parts)
    ensures WalkAll(s, parts, visited, fuel).None?
    decreases fuel, parts
  {
    hide Loop;
    if ids[i] in Refs(parts[0]) {
      LoopNeverEnds(s, ids, i, parts[0], visited, fuel);
    } else {
      var first := Walk(s, parts[0], visited, fuel);
      if first.Some? {
        LoopNeverEndsIn(s, ids, i, parts[1..], first.value, fuel);
      }
    }
  }

  // ----- a walk that ends has been through everything it can reach

  /** The references in refs were dealt with: pointers are visited, containers hold themselves nowhere below. */
  ghost predicate Settled(s: Store, refs: set<Ref>, visited: set<nat>, depth: nat)
    decreases depth
  {
    forall r :: r in refs ==>
      && r in s
      && (r.ToPointer? ==> r.addr in visited)
      && (r.ToContainer? ==> !HoldsItself(s, r) && (depth == 0 || Settled(s, Refs(s[r]), visited, depth - 1)))
  }

  /** So were those in every pointer target that joined between before and after. */
  ghost predicate AllSettled(s: Store, before: set<nat>, after: set<nat>, depth: nat) {
    forall a :: a in after && a !in before ==> ToPointer(a) in s && Settled(s, Refs(s[ToPointer(a)]), after, depth)
  }

  lemma {:induction false} SettledGrows(s: Store, refs: set<Ref>, some: set<nat>, more: set<nat>, depth: nat)
    requires some <= more && Settled(s, refs, some, depth)
    ensures Settled(s, refs, more, depth)
    decreases depth
  {
    hide HoldsItself;
    forall r | r in refs && r.ToContainer? && depth > 0 ensures Settled(s, Refs(s[r]), more, depth - 1) {
      SettledGrows(s, Refs(s[r]), some, more, depth - 1);
    }
  }

  lemma AllSettledJoin(s: Store, a: set<nat>, b: set<nat>, c: set<nat>, depth: nat)
    requires a <= b <= c && AllSettled(s, a, b, depth) && AllSettled(s, b, c, depth)
    ensures AllSettled(s, a, c, depth)
  {
    hide Settled;
    forall x | x in c && x !in a ensures ToPointer(x) in s && Settled(s, Refs(s[ToPointer(x)]), c, depth) {
      if x in b {
        SettledGrows(s, Refs(s[ToPointer(x)]), b, c, depth);
      }
    }
  }

  lemma {:induction false} SettledShallower(s: Store, refs: set<Ref>, visited: set<nat>, depth: nat)
    requires depth > 0 && Settled(s, refs, visited, depth)
    ensures Settled(s, refs, visited, depth - 1)
    decreases depth
  {
    hide HoldsItself;
    if depth > 1 {
      forall r | r in refs && r.ToContainer? ensures Settled(s, Refs(s[r]), visited, depth - 2) {
        SettledShallower(s, Refs(s[r]), visited, depth - 1);
      }
    }
  }

  /** A container whose walk ends holds itself nowhere: a loop through it would never end. */
  lemma NoLoopWhereItEnds(s: Store, p: Part, visited: set<nat>, fuel: nat)
    requires Closed(s) && Known(s, p) && p.To? && p.ref.ToContainer? && Walk(s, p, visited, fuel).Some?
    ensures !HoldsItself(s, p.ref)
  {
    hide Walk;
    if HoldsItself(s, p.ref) {
      var ids :| Loop(s, ids) && ids[0] == p.ref;
      LoopNeverEnds(s, ids, 0, p, visited, fuel);
      assert false;
    }
  }

  lemma {:induction false} WalkSettles(s: Store, p: Part, visited: set<nat>, fuel: nat, depth: nat)
    requires Closed(s) && Known(s, p) && Walk(s, p, visited, fuel).Some?
    ensures var after := Walk(s, p, visited, fuel).value;
      Settled(s, Refs(p), after, depth) && AllSettled(s, visited, after, depth)
    decreases fuel, p
  {
    hide HoldsItself;
    var after := Walk(s, p, visited, fuel).value;
    match p
    case Plain =>
    case To(ToPointer(a)) =>
      if a !in visited {
        WalkSettles(s, s[p.ref], visited + {a}, fuel - 1, depth);
      }
    case To(ToContainer(_)) =>
      NoLoopWhereItEnds(s, p, visited, fuel);
      WalkSettles(s, s[p.ref], visited, fuel - 1, depth);
      if depth > 0 {
        SettledShallower(s, Refs(s[p.ref]), after, depth);
      }
    case Inline(parts) => WalkAllSettles(s, parts, visited, fuel, depth);
  }

  lemma {:induction false} WalkAllSettles(s: Store, parts: seq<Part>, visited: set<nat>, fuel: nat, depth: nat)
    requires Closed(s) && RefsIn(parts) <= s.Keys && WalkAll(s, parts, visited, fuel).Some?
    ensures var after := WalkAll(s, parts, visited, fuel).value;
      Settled(s, RefsIn(parts), after, depth) && AllSettled(s, visited, after, depth)
    decreases fuel, parts
  {
    if parts == [] {
    } else {
      var first, after := Walk(s, parts[0], visited, fuel).value, WalkAll(s, parts, visited, fuel).value;
      WalkSettles(s, parts[0], visited, fuel, depth);
      WalkAllSettles(s, parts[1..], first, fuel, depth);
      SettledGrows(s, Refs(parts[0]), first, after, depth);
      SettledUnion(s, Refs(parts[0]), RefsIn(parts[1..]), after, depth);
      AllSettledJoin(s, visited, first, after, depth);
    }
  }

  lemma SettledUnion(s: Store, some: set<Ref>, others: set<Ref>, visited: set<nat>, depth: nat)
    requires Settled(s, some, visited, depth) && Settled(s, others, visited, depth)
    ensures Settled(s, some + others, visited, depth)
  {
    hide HoldsItself;
  }

  /** Where everything is settled to the depth of a path, the path meets no loop. */
  lemma {:induction false} PathMeetsNoLoop(s: Store, p: Part, path: seq<Ref>, visited: set<nat>, n: nat, depth: nat)
    requires LeadsFrom(s, p, path) && n < |path| && n + depth == |path|
    requires Settled(s, Refs(p), visited, |path|) && AllSettled(s, {}, visited, |path|)
    ensures path[n] in s && !HoldsItself(s, path[n])
    ensures Settled(s, Refs(s[path[n]]), visited, depth - 1)
    decreases n
  {
    hide HoldsItself, Settled;
    var refs := Refs(p);
    if n > 0 {
      PathMeetsNoLoop(s, p, path, visited, n - 1, depth + 1);
      refs := Refs(s[path[n - 1]]);
    }
    SettledStep(s, refs, visited, depth, path[n]);
    if path[n].ToPointer? {
      SettledTo(s, Refs(s[path[n]]), visited, |path|, depth - 1);
    }
  }

  lemma SettledStep(s: Store, refs: set<Ref>, visited: set<nat>, depth: nat, r: Ref)
    requires Settled(s, refs, visited, depth) && r in refs
    ensures r in s && !HoldsItself(s, r)
    ensures r.ToPointer? ==> r.addr in visited && ToPointer(r.addr) == r
    ensures r.ToContainer? && depth > 0 ==> Settled(s, Refs(s[r]), visited, depth - 1)
  {
    if r.ToPointer? {
      OnlyContainersLoop(s, r);
    }
  }

  lemma OnlyContainersLoop(s: Store, r: Ref)
    requires r.ToPointer?
    ensures !HoldsItself(s, r)
  {
  }

  lemma {:induction false} SettledTo(s: Store, refs: set<Ref>, visited: set<nat>, depth: nat, less: nat)
    requires less <= depth && Settled(s, refs, visited, depth)
    ensures Settled(s, refs, visited, less)
    decreases depth
  {
    hide Settled;
    if less < depth {
      SettledShallower(s, refs, visited, depth);
      SettledTo(s, refs, visited, depth - 1, less);
    }
  }

  /** A walk from nothing visited that ends started at a part that reaches no loop. */
  lemma EndsOnlyWithoutLoop(s: Store, p: Part, fuel: nat)
    requires Closed(s) && Known(s, p) && Walk(s, p, {}, fuel).Some?
    ensures !ReachesLoop(s, p)
  {
    hide Walk, HoldsItself, Settled;
    var visited := Walk(s, p, {}, fuel).value;
    forall r | Reachable(s, p, r) ensures !HoldsItself(s, r) {
      var path :| LeadsFrom(s, p, path) && path[|path| - 1] == r;
      WalkSettles(s, p, {}, fuel, |path|);
      PathMeetsNoLoop(s, p, path, visited, |path| - 1, 1);
    }
  }

  // ----- without a loop the walk ends

  function Elements(ids: seq<Ref>): set<Ref> {
    set id | id in ids
  }

  /** A chain that repeats no container is no longer than there are references. */
  lemma {:induction false} ChainFits(ids: seq<Ref>, all: set<Ref>)
    requires Elements(ids) <= all && forall i, j :: 0 <= i < j < |ids| ==> ids[i] != ids[j]
    ensures |ids| <= |all|
  {
    if ids != [] {
      var last := ids[|ids| - 1];
      assert Elements(ids[..|ids| - 1]) <= all - {last};
      ChainFits(ids[..|ids| - 1], all - {last});
    }
  }

  /** A chain of containers none of which holds itself. */
  ghost predicate Straight(s: Store, ids: seq<Ref>) {
    Chain(s, ids) && forall i :: 0 <= i < |ids| ==> !HoldsItself(s, ids[i])
  }

  lemma NoRepeats(s: Store, ids: seq<Ref>)
    requires Straight(s, ids)
    ensures |ids| <= |s.Keys|
  {
    forall i, j | 0 <= i < j < |ids| ensures ids[i] != ids[j] {
      var part := ids[i..j + 1];
      assert forall k :: 0 <= k < |part| ==> part[k] == ids[i + k];
      assert Chain(s, part);
      assert !HoldsItself(s, part[0]);
      assert !Loop(s, part);
    }
    ChainFits(ids, s.Keys);
  }

  /** The pointers of the store that are still unvisited. */
  function Unvisited(s: Store, visited: set<nat>): nat {
    |set r | r in s && r.ToPointer? && r.addr !in visited|
  }

  /** The references refs are those of the container the chain ids has come to. */
  ghost predicate At(s: Store, ids: seq<Ref>, refs: set<Ref>) {
    Straight(s, ids) && (ids != [] ==> refs <= Refs(s[ids[|ids| - 1]]))
  }

  /** Every unvisited pointer may open one chain of containers. */
  function Enough(s: Store, visited: set<nat>, ids: seq<Ref>): int {
    Times(Unvisited(s, visited), |s.Keys| + 1) + |s.Keys| - |ids|
  }

  function Times(a: nat, n: nat): nat {
    a * n
  }

  lemma TimesOrder(a: nat, b: nat, n: nat)
    requires a <= b
    ensures Times(a, n) <= Times(b, n) && Times(a + 1, n) == Times(a, n) + n
  {
  }

  lemma UnvisitedFalls(s: Store, some: set<nat>, more: set<nat>)
    requires some <= more
    ensures Unvisited(s, more) <= Unvisited(s, some)
  {
    var few, many := set r | r in s && r.ToPointer? && r.addr !in more, set r | r in s && r.ToPointer? && r.addr !in some;
    assert many == few + (many - few);
  }

  lemma UnvisitedDrops(s: Store, some: set<nat>, a: nat)
    requires ToPointer(a) in s && a !in some
    ensures Unvisited(s, some + {a}) + 1 == Unvisited(s, some)
  {
    var few := set r | r in s && r.ToPointer? && r.addr !in some + {a};
    assert (set r | r in s && r.ToPointer? && r.addr !in some) == few + {ToPointer(a)};
  }

  lemma FewerUnvisited(s: Store, some: set<nat>, more: set<nat>, ids: seq<Ref>)
    requires some <= more
    ensures Enough(s, more, ids) <= Enough(s, some, ids)
  {
    hide Times, Unvisited;
    UnvisitedFalls(s, some, more);
    TimesOrder(Unvisited(s, more), Unvisited(s, some), |s.Keys| + 1);
  }

  /** A pointer followed for the first time pays for a whole new chain. */
  lemma OneVisited(s: Store, some: set<nat>, a: nat, ids: seq<Ref>)
    requires ToPointer(a) in s && a !in some && |ids| <= |s.Keys|
    ensures Enough(s, some + {a}, []) < Enough(s, some, ids)
  {
    hide Times, Unvisited;
    UnvisitedDrops(s, some, a);
    TimesOrder(Unvisited(s, some + {a}), Unvisited(s, some), |s.Keys| + 1);
  }

  lemma EnoughIsNatural(s: Store, visited: set<nat>, ids: seq<Ref>)
    requires |ids| <= |s.Keys|
    ensures Enough(s, visited, ids) >= 0
  {
  }

  lemma OneDeeper(s: Store, visited: set<nat>, ids: seq<Ref>, id: Ref)
    ensures Enough(s, visited, ids + [id]) == Enough(s, visited, ids) - 1
  {
  }

  lemma StraightNext(s: Store, ids: seq<Ref>, r: Ref, refs: set<Ref>)
    requires At(s, ids, refs) && r in refs && r in s && r.ToContainer? && !HoldsItself(s, r)
    ensures At(s, ids + [r], Refs(s[r]))
  {
    hide HoldsItself;
  }

  lemma StraightNone(s: Store, refs: set<Ref>)
    ensures At(s, [], refs)
  {
  }

  lemma {:induction false} WalkEnds(s: Store, ids: seq<Ref>, p: Part, visited: set<nat>, fuel: nat)
    requires Closed(s) && Known(s, p) && !ReachesLoop(s, p) && At(s, ids, Refs(p)) && fuel >= Enough(s, visited, ids)
    ensures Walk(s, p, visited, fuel).Some?
    decreases fuel, p
  {
    hide ReachesLoop, HoldsItself, Enough, Chain;
    NoRepeats(s, ids);
    match p
    case Plain =>
    case To(ToPointer(a)) =>
      if a !in visited {
        NoLoopBehind(s, p, p.ref);
        OneVisited(s, visited, a, ids);
        EnoughIsNatural(s, visited + {a}, []);
        StraightNone(s, Refs(s[p.ref]));
        WalkEnds(s, [], s[p.ref], visited + {a}, fuel - 1);
      }
    case To(ToContainer(_)) =>
      var deeper := ids + [p.ref];
      NoLoopBehind(s, p, p.ref);
      StraightNext(s, ids, p.ref, Refs(p));
      NoRepeats(s, deeper);
      OneDeeper(s, visited, ids, p.ref);
      EnoughIsNatural(s, visited, deeper);
      WalkEnds(s, deeper, s[p.ref], visited, fuel - 1);
    case Inline(parts) => WalkAllEnds(s, ids, parts, visited, fuel);
  }

  lemma {:induction false} WalkAllEnds(s: Store, ids: seq<Ref>, parts: seq<Part>, visited: set<nat>, fuel: nat)
    requires Closed(s) && RefsIn(parts) <= s.Keys && !ReachesLoop(s, Inline(parts))
    requires At(s, ids, RefsIn(parts)) && fuel >= Enough(s, visited, ids)
    ensures WalkAll(s, parts, visited, fuel).Some?
    decreases fuel, parts
  {
    hide ReachesLoop, Enough, Straight;
    if parts != [] {
      NoLoopInside(s, Inline(parts), parts[0]);
      NoLoopInside(s, Inline(parts), Inline(parts[1..]));
      WalkEnds(s, ids, parts[0], visited, fuel);
      var first := Walk(s, parts[0], visited, fuel).value;
      FewerUnvisited(s, visited, first, ids);
      WalkAllEnds(s, ids, parts[1..], first, fuel);
    }
  }

  /**
   The walk of a value ends, whatever cycles its pointers form, exactly when the value reaches no slice or map that
   holds itself through slices, maps, interfaces and structs alone.
   */
  lemma WalkTerminatesIff(s: Store, p: Part)
    requires Closed(s) && Known(s, p)
    ensures Terminates(s, p, {}) <==> !ReachesLoop(s, p)
  {
    hide Enough, ReachesLoop, Walk;
    if Terminates(s, p, {}) {
      var fuel: nat :| Walk(s, p, {}, fuel).Some?;
      EndsOnlyWithoutLoop(s, p, fuel);
    }
    if !ReachesLoop(s, p) {
      EnoughIsNatural(s, {}, []);
      StraightNone(s, Refs(p));
      WalkEnds(s, [], p, {}, Enough(s, {}, []));
    }
  }

  /** A slice x with x[0] = x, handed to Validate by pointer, is walked for ever. */
  lemma SelfHoldingSlice()
    ensures var s: Store := map[ToPointer(0) := To(ToContainer(0)), ToContainer(0) := Inline([To(ToContainer(0))])];
      Closed(s) && !Terminates(s, To(ToPointer(0)), {})
  {
    var slot := ToContainer(0);
    var s: Store := map[ToPointer(0) := To(slot), slot := Inline([To(slot)])];
    assert Refs(s[slot]) == {slot} by {
      assert RefsIn([To(slot)]) == Refs(To(slot)) + RefsIn([]);
    }
    assert Loop(s, [slot, slot]);
    assert HoldsItself(s, slot);
    assert LeadsFrom(s, To(ToPointer(0)), [ToPointer(0), slot]);
    assert Reachable(s, To(ToPointer(0)), slot);
    WalkTerminatesIff(s, To(ToPointer(0)));
  }

  // ----- graphs without container references: the same walk as CfgxGraph's

  function PartOf(v: G.Value): Part
    decreases v, 1, 0
  {
    match v
    case Nil => Plain
    case Ptr(a) => To(ToPointer(a))
    case Iface(inner) => PartOf(inner)
    case _ => Inline(PartsFrom(v, 0))
  }

  function PartsFrom(node: G.Value, k: nat): seq<Part>
    requires k <= G.Arity(node)
    decreases node, 0, G.Arity(node) - k
  {
    if k == G.Arity(node) then []
    else
      var c := G.Child(node, k);
      (if c.Some? then [PartOf(c.value)] else []) + PartsFrom(node, k + 1)
  }

  function StoreOf(h: G.Heap): Store {
    map r: Ref | r in (set a | a in h :: ToPointer(a)) :: PartOf(h[r.addr])
  }

  function PointersTo(addrs: set<nat>): set<Ref> {
    set a | a in addrs :: ToPointer(a)
  }

  lemma {:induction false} RefsOf(v: G.Value)
    ensures Refs(PartOf(v)) == PointersTo(G.Pointers(v))
    decreases v, 1, 0
  {
    match v
    case Nil =>
    case Ptr(_) =>
    case Iface(inner) => RefsOf(inner);
    case _ => RefsFrom(v, 0);
  }

  lemma {:induction false} RefsFrom(node: G.Value, k: nat)
    requires k <= G.Arity(node)
    ensures RefsIn(PartsFrom(node, k)) == PointersTo(G.PointersFrom(node, k))
    decreases node, 0, G.Arity(node) - k
  {
    if k < G.Arity(node) {
      var c := G.Child(node, k);
      RefsFrom(node, k + 1);
      if c.Some? {
        RefsOf(c.value);
        assert PartsFrom(node, k)[1..] == PartsFrom(node, k + 1);
      } else {
        assert PartsFrom(node, k) == PartsFrom(node, k + 1);
      }
    }
  }

  lemma StoreOfIsClosed(h: G.Heap)
    requires G.Closed(h)
    ensures Closed(StoreOf(h)) && StoreOf(h).Keys == PointersTo(h.Keys)
  {
    hide PartOf;
    forall r | r in StoreOf(h) ensures Known(StoreOf(h), StoreOf(h)[r]) {
      RefsOf(h[r.addr]);
    }
  }

  lemma TargetIsKnown(h: G.Heap, a: nat)
    requires G.Closed(h) && a in h
    ensures G.Pointers(h[a]) <= h.Keys
    ensures ToPointer(a) in StoreOf(h) && StoreOf(h)[ToPointer(a)] == PartOf(h[a])
    ensures Known(StoreOf(h), PartOf(h[a]))
  {
    StoreOfIsClosed(h);
  }

  /** What CfgxGraph's walk visits, case by case. */
  lemma WalkCases(h: G.Heap, v: G.Value, at: G.Place, visited: set<nat>)
    requires G.Closed(h) && G.Pointers(v) <= h.Keys
    ensures v.Nil? || (v.Ptr? && v.addr in visited) ==> G.Walk(h, v, at, visited).visited == visited
    ensures v.Iface? ==> G.Walk(h, v, at, visited).visited == G.Walk(h, v.inner, at, visited).visited
    ensures G.IsNode(v) ==> G.Walk(h, v, at, visited).visited == G.WalkFrom(h, v, 0, at, visited).visited
  {
    hide G.WalkFrom, G.Unvisited;
  }

  lemma WalkBehind(h: G.Heap, a: nat, at: G.Place, visited: set<nat>)
    requires G.Closed(h) && a in h && a !in visited
    ensures G.Pointers(h[a]) <= h.Keys && G.Unvisited(h, visited + {a}) < G.Unvisited(h, visited)
    ensures G.Walk(h, G.Ptr(a), at, visited).visited
      == G.Walk(h, h[a], G.Place(at.loc, G.Seat(Some(a), [])), visited + {a}).visited
  {
    hide G.WalkFrom, G.Unvisited;
    G.VisitedGrows(h, visited, visited + {a});
    var target := G.Place(at.loc, G.Seat(Some(a), []));
    var d := G.Deref(h, h[a], visited + {a});
    assert G.Landed(at, [a] + d.entered) == G.Landed(target, d.entered);
  }

  /** The bounded walk over references visits what the walk of CfgxGraph visits. */
  lemma {:induction false} WalksAgree(h: G.Heap, v: G.Value, at: G.Place, visited: set<nat>, fuel: nat)
    requires G.Closed(h) && G.Pointers(v) <= h.Keys && fuel >= G.Unvisited(h, visited)
    requires Closed(StoreOf(h)) && Known(StoreOf(h), PartOf(v))
    ensures Walk(StoreOf(h), PartOf(v), visited, fuel) == Some(G.Walk(h, v, at, visited).visited)
    decreases G.Unvisited(h, visited), v, 1, 0, 0
  {
    hide G.Unvisited, G.Closed, Closed, G.WalkFrom, WalkAll, G.Walk, StoreOf, PartsFrom;
    WalkCases(h, v, at, visited);
    match v
    case Nil =>
    case Iface(inner) => WalksAgree(h, inner, at, visited, fuel);
    case Ptr(a) =>
      if a !in visited {
        TargetIsKnown(h, a);
        WalkBehind(h, a, at, visited);
        WalksAgree(h, h[a], G.Place(at.loc, G.Seat(Some(a), [])), visited + {a}, fuel - 1);
      }
    case _ => WalksAgreeFrom(h, v, 0, at, visited, fuel);
  }

  lemma {:induction false} WalksAgreeFrom(h: G.Heap, node: G.Value, k: nat, at: G.Place, visited: set<nat>, fuel: nat)
    requires G.Closed(h) && k <= G.Arity(node) && G.PointersFrom(node, k) <= h.Keys && fuel >= G.Unvisited(h, visited)
    requires Closed(StoreOf(h)) && RefsIn(PartsFrom(node, k)) <= StoreOf(h).Keys
    ensures WalkAll(StoreOf(h), PartsFrom(node, k), visited, fuel) == Some(G.WalkFrom(h, node, k, at, visited).visited)
    decreases G.Unvisited(h, visited), node, 0, G.Arity(node) - k, 1
  {
    hide G.Unvisited, G.Closed, Closed, Walk, G.Walk, StoreOf;
    if k < G.Arity(node) {
      G.ChildPointers(node, k);
      var c := G.Child(node, k);
      var first := G.WalkChild(h, node, k, at, visited);
      G.VisitedGrows(h, visited, first.visited);
      if c.Some? {
        assert PartsFrom(node, k)[1..] == PartsFrom(node, k + 1);
        WalksAgree(h, c.value, G.Down(at, k), visited, fuel);
      } else {
        assert PartsFrom(node, k) == PartsFrom(node, k + 1);
      }
      WalksAgreeFrom(h, node, k + 1, at, first.visited, fuel);
    }
  }
}
