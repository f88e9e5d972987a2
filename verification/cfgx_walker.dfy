/**
 The walk in place: one visited set shared by the whole recursion, child
 errors appended in loops. calls records the invocations of Validator.Validate;
 an error is the list of the places whose validator failed, empty for nil.
 */
module CfgxWalker {
  import opened Wrappers
  import opened CfgxGraph
  import opened CfgxTheorems

  /** The places of calls whose validator returns an error, in order: what errors.Join keeps. */
  function Failing(calls: seq<Place>, fails: Seat -> bool): seq<Place> {
    if calls == [] then []
    else
      var last := calls[|calls| - 1];
      Failing(calls[..|calls| - 1], fails) + (if fails(last.seat) then [last] else [])
  }

  lemma {:induction false} FailingJoin(s: seq<Place>, t: seq<Place>, fails: Seat -> bool)
    ensures Failing(s + t, fails) == Failing(s, fails) + Failing(t, fails)
  {
    if t == [] {
      assert s + t == s;
    } else {
      FailingJoin(s, t[..|t| - 1], fails);
      assert (s + t)[..|s + t| - 1] == s + t[..|t| - 1];
    }
  }

  /** A walk reports no error exactly when no validator it called failed. */
  lemma {:induction false} NilIffNoneFails(calls: seq<Place>, fails: Seat -> bool)
    ensures Failing(calls, fails) == [] <==> forall i :: 0 <= i < |calls| ==> !fails(calls[i].seat)
    ensures forall e :: e in Failing(calls, fails) <==> e in calls && fails(e.seat)
  {
    if calls != [] {
      NilIffNoneFails(calls[..|calls| - 1], fails);
      assert calls == calls[..|calls| - 1] + [calls[|calls| - 1]];
    }
  }

  class Walker {
    const heap: Heap
    const fails: Seat -> bool
    var visited: set<Addr>
    var calls: seq<Place>
    ghost var entered: seq<Addr>

    /** runValidator: a fresh visited set for every call of Validate. */
    constructor (heap: Heap, fails: Seat -> bool)
      ensures this.heap == heap && this.fails == fails && visited == {} && calls == [] && entered == []
    {
      this.heap, this.fails := heap, fails;
      visited, calls, entered := {}, [], [];
    }

    /** This walk has added what o says to the state it started from. */
    twostate predicate Did(o: Out)
      reads this
    {
      visited == o.visited && calls == old(calls) + o.calls && entered == old(entered) + o.entered
    }

    lemma DerefPointer(a: Addr, before: set<Addr>)
      requires Closed(heap) && a in heap && a !in before
      ensures Pointers(heap[a]) <= heap.Keys
      ensures var rest := Deref(heap, heap[a], before + {a});
        Deref(heap, Ptr(a), before) == rest.(entered := [a] + rest.entered)
      ensures Unvisited(heap, before + {a}) < Unvisited(heap, before)
    {
      VisitedGrows(heap, before, before + {a});
    }

    lemma DerefElsewhere(v: Value, before: set<Addr>)
      requires Closed(heap) && Pointers(v) <= heap.Keys
      ensures v.Iface? ==> Pointers(v.inner) <= heap.Keys && Deref(heap, v, before) == Deref(heap, v.inner, before)
      ensures v.Nil? || (v.Ptr? && v.addr in before) ==> Deref(heap, v, before) == Dereffed(None, before, [])
      ensures v.Ptr? ==> v.addr in heap
      ensures IsNode(v) ==> Deref(heap, v, before) == Dereffed(Some(v), before, [])
    {
    }

    /** here is the place arrived at: behind a pointer, the pointer's target. */
    method DerefValidate(v: Value, at: Place) returns (node: Option<Value>, here: Place)
      requires Closed(heap) && Pointers(v) <= heap.Keys
      modifies this`visited, this`entered
      ensures var d := Deref(heap, v, old(visited));
        node == d.node && visited == d.visited && entered == old(entered) + d.entered
        && here == Landed(at, d.entered)
    {
      hide Closed, Pointers, Deref, Unvisited;
      var cur := v;
      here := at;
      ghost var d := Deref(heap, v, visited);
      while true
        invariant Pointers(cur) <= heap.Keys
        invariant var rest := Deref(heap, cur, visited);
          d.node == rest.node && d.visited == rest.visited && old(entered) + d.entered == entered + rest.entered
          && Landed(here, rest.entered) == Landed(at, d.entered)
        decreases Unvisited(heap, visited), cur
      {
        DerefElsewhere(cur, visited);
        match cur
        case Nil =>
          return None, here;
        case Iface(inner) =>
          cur := inner;
        case Ptr(a) =>
          if a in visited {
            return None, here;
          }
          DerefPointer(a, visited);
          here := Place(here.loc, Seat(Some(a), []));
          visited := visited + {a};
          entered := entered + [a];
          cur := heap[a];
        case _ =>
          return Some(cur), here;
      }
    }

    method CallValidator(node: Value, at: Place) returns (errs: seq<Place>)
      requires IsNode(node)
      modifies this`calls
      ensures calls == old(calls) + (if node.validator then [at] else [])
      ensures errs == Failing(if node.validator then [at] else [], fails)
    {
      errs := [];
      if node.validator {
        calls := calls + [at];
        if fails(at.seat) {
          errs := [at];
        }
      }
    }

    lemma WalkUnfolds(v: Value, at: Place, before: set<Addr>)
      requires Closed(heap) && Pointers(v) <= heap.Keys
      ensures var d, o := Deref(heap, v, before), Walk(heap, v, at, before);
        if d.node.None? then o == Out(d.visited, d.entered, []) && Failing(o.calls, fails) == []
        else
          var node, here := d.node.value, Landed(at, d.entered);
          PointersFrom(node, 0) <= heap.Keys
          && var kids := WalkFrom(heap, node, 0, here, d.visited);
             var own := if node.validator then [here] else [];
             && o == Out(kids.visited, d.entered + kids.entered, kids.calls + own)
             && Failing(o.calls, fails) == Failing(kids.calls, fails) + Failing(own, fails)
             && (Arity(node) == 0 ==> kids == Out(d.visited, [], []) && Failing(kids.calls, fails) == [])
    {
      var d := Deref(heap, v, before);
      if d.node.Some? {
        var node, here := d.node.value, Landed(at, d.entered);
        FailingJoin(WalkFrom(heap, node, 0, here, d.visited).calls, if node.validator then [here] else [], fails);
      }
    }

    lemma ChildUnfolds(node: Value, k: nat, at: Place, before: set<Addr>)
      requires Closed(heap) && k < Arity(node) && PointersFrom(node, k) <= heap.Keys
      ensures PointersFrom(node, k + 1) <= heap.Keys
      ensures Child(node, k).Some? ==> Pointers(Child(node, k).value) <= heap.Keys
      ensures var c := Child(node, k);
        var first := if c.Some? then Walk(heap, c.value, Down(at, k), before) else Out(before, [], []);
        var all, rest := WalkFrom(heap, node, k, at, before), WalkFrom(heap, node, k + 1, at, first.visited);
        && all == Out(rest.visited, first.entered + rest.entered, first.calls + rest.calls)
        && before <= first.visited
        && Unvisited(heap, first.visited) <= Unvisited(heap, before)
    {
      ChildPointers(node, k);
      VisitedGrows(heap, before, WalkChild(heap, node, k, at, before).visited);
    }

    method WalkValidate(v: Value, at: Place) returns (errs: seq<Place>)
      requires Closed(heap) && Pointers(v) <= heap.Keys
      modifies this
      ensures Did(Walk(heap, v, at, old(visited)))
      ensures errs == Failing(Walk(heap, v, at, old(visited)).calls, fails)
      decreases Unvisited(heap, visited), v, 1, 0, 0
    {
      hide Closed, Pointers, Deref, Landed, Unvisited, Failing, Child, PointersFrom, Walk, WalkFrom;
      ghost var d := Deref(heap, v, visited);
      WalkUnfolds(v, at, visited);
      var node, here := DerefValidate(v, at);
      if node.None? {
        return [];
      }
      var childErrs: seq<Place> := [];
      match node.value {
        case Struct(_, _) => childErrs := WalkChildren(node.value, here);
        case Indexed(_, descendable, _) =>
          if descendable {
            childErrs := WalkChildren(node.value, here);
          }
        case MapOf(_, descendable, _) =>
          if descendable {
            childErrs := WalkChildren(node.value, here);
          }
        case _ =>
      }
      var selfErr := CallValidator(node.value, here);
      errs := childErrs + selfErr;
    }

    /** The loop that walkStructFields, walkIndexed and walkMap share: one child after the other. */
    method WalkChildren(node: Value, at: Place) returns (errs: seq<Place>)
      requires Closed(heap) && PointersFrom(node, 0) <= heap.Keys
      modifies this
      ensures Did(WalkFrom(heap, node, 0, at, old(visited)))
      ensures errs == Failing(WalkFrom(heap, node, 0, at, old(visited)).calls, fails)
      decreases Unvisited(heap, visited), node, 0, 0, 0
    {
      hide Closed, Pointers, Unvisited, Failing, Child, PointersFrom, Walk, WalkFrom;
      errs := [];
      ghost var all := WalkFrom(heap, node, 0, at, visited);
      ghost var done: seq<Place> := [];
      LastChild(node, at);
      for k := 0 to Arity(node)
        invariant PointersFrom(node, k) <= heap.Keys && Unvisited(heap, visited) <= Unvisited(heap, old(visited))
        invariant calls == old(calls) + done && errs == Failing(done, fails)
        invariant var rest := WalkFrom(heap, node, k, at, visited);
          all.visited == rest.visited && all.calls == done + rest.calls
          && old(entered) + all.entered == entered + rest.entered
      {
        ChildUnfolds(node, k, at, visited);
        var c := Child(node, k);
        if c.Some? {
          ghost var first := Walk(heap, c.value, Down(at, k), visited);
          var err := WalkValidate(c.value, Down(at, k));
          FailingJoin(done, first.calls, fails);
          errs := errs + err;
          done := done + first.calls;
        }
      }
      assert all.calls == done;
    }

    lemma LastChild(node: Value, at: Place)
      requires Closed(heap)
      ensures PointersFrom(node, Arity(node)) <= heap.Keys
      ensures forall before {:trigger WalkFrom(heap, node, Arity(node), at, before)} ::
        WalkFrom(heap, node, Arity(node), at, before) == Out(before, [], [])
      ensures Failing([], fails) == []
    {
    }
  }

  /**
   Validate returns nil exactly when no validator in reach of dst fails, and otherwise the failures of exactly
   those that do, each once.
   */
  method Validate(heap: Heap, dst: Value, fails: Seat -> bool) returns (errs: seq<Place>)
    requires Closed(heap) && Pointers(dst) <= heap.Keys
    ensures forall s :: Times(errs, s) == if InReach(heap, dst, s) && fails(s) then 1 else 0
    ensures errs == [] <==> forall s :: InReach(heap, dst, s) ==> !fails(s)
    ensures ChildrenFirst(errs)
  {
    hide Walk, Closed, InReach;
    var walker := new Walker(heap, fails);
    errs := walker.WalkValidate(dst, Root);
    ghost var calls := Walk(heap, dst, Root, {}).calls;
    forall s ensures Times(errs, s) == if InReach(heap, dst, s) && fails(s) then 1 else 0 {
      ValidatorsRunOnceChildrenFirst(heap, dst, s);
      FailingTimes(calls, fails, s);
    }
    assert ChildrenFirst(calls) by {
      ValidatorsRunOnceChildrenFirst(heap, dst, Seat(None, []));
    }
    FailingKeepsOrder(calls, fails);
    NoneCalled(errs);
  }

  /** A list without a call of any seat is empty. */
  lemma NoneCalled(calls: seq<Place>)
    ensures calls == [] <==> forall s :: Times(calls, s) == 0
  {
    if calls != [] {
      assert Times(calls, calls[|calls| - 1].seat) > 0;
    }
  }

  /** Keeping the failing calls keeps each failing seat as often as it was called. */
  lemma {:induction false} FailingTimes(calls: seq<Place>, fails: Seat -> bool, s: Seat)
    ensures Times(Failing(calls, fails), s) == if fails(s) then Times(calls, s) else 0
  {
    if calls != [] {
      var front, last := calls[..|calls| - 1], calls[|calls| - 1];
      var own := if fails(last.seat) then [last] else [];
      FailingTimes(front, fails, s);
      TimesJoin(Failing(front, fails), own, s);
      assert own[..0] == [];
    }
  }

  lemma {:induction false} FailingAmong(calls: seq<Place>, fails: Seat -> bool)
    ensures forall e :: e in Failing(calls, fails) ==> e in calls
  {
    if calls != [] {
      FailingAmong(calls[..|calls| - 1], fails);
    }
  }

  lemma {:induction false} FailingKeepsOrder(calls: seq<Place>, fails: Seat -> bool)
    requires ChildrenFirst(calls)
    ensures ChildrenFirst(Failing(calls, fails))
  {
    if calls != [] {
      var front, last := calls[..|calls| - 1], calls[|calls| - 1];
      assert ChildrenFirst(front) && forall e :: e in front ==> !(e.loc <= last.loc);
      FailingKeepsOrder(front, fails);
      FailingAmong(front, fails);
      LastInOrder(Failing(front, fails), last);
    }
  }

  lemma LastInOrder(calls: seq<Place>, last: Place)
    requires ChildrenFirst(calls) && forall e :: e in calls ==> !(e.loc <= last.loc)
    ensures ChildrenFirst(calls + [last])
  {
  }
}
