/**
 Configuration values as the validator walk sees them, over a heap of pointer
 targets that may form cycles, and the walk itself as a function.
 */
module CfgxGraph {
  import opened Wrappers

  type Addr = nat

  /** validator marks a value whose type implements Validator. A map's entries are in key order. */
  datatype Value =
    | Nil                    // nil pointer, nil interface or invalid value
    | Ptr(addr: Addr)
    | Iface(inner: Value)
    | Leaf(validator: bool)
    | Struct(validator: bool, fields: seq<Field>)
    | Indexed(validator: bool, descendable: bool, elems: seq<Value>)
    | MapOf(validator: bool, descendable: bool, entries: seq<Entry>)

  datatype Field = Field(name: string, exported: bool, skip: bool, inline: bool, value: Value)

  datatype Entry = Entry(key: string, value: Value)

  type Heap = map<Addr, Value>

  /** What follows the pointers and interfaces. */
  predicate IsNode(v: Value) {
    !v.Nil? && !v.Ptr? && !v.Iface?
  }

  function Arity(node: Value): nat {
    match node
    case Struct(_, fields) => |fields|
    case Indexed(_, descendable, elems) => if descendable then |elems| else 0
    case MapOf(_, descendable, entries) => if descendable then |entries| else 0
    case _ => 0
  }

  /** The k-th child, unless it is an unexported or ignored field. */
  function Child(node: Value, k: nat): (c: Option<Value>)
    requires k < Arity(node)
    ensures c.Some? ==> c.value < node
  {
    match node
    case Struct(_, fields) => if fields[k].exported && !fields[k].skip then Some(fields[k].value) else None
    case Indexed(_, _, elems) => Some(elems[k])
    case MapOf(_, _, entries) => Some(entries[k].value)
  }

  // ----- what can be reached

  /** Pointers found in v without following any. */
  function Pointers(v: Value): set<Addr>
    decreases v, 1, 0
  {
    match v
    case Nil => {}
    case Ptr(a) => {a}
    case Iface(inner) => Pointers(inner)
    case _ => PointersFrom(v, 0)
  }

  function PointersFrom(node: Value, k: nat): set<Addr>
    requires k <= Arity(node)
    decreases node, 0, Arity(node) - k
  {
    if k == Arity(node) then
      {}
    else
      var c := Child(node, k);
      (if c.Some? then Pointers(c.value) else {}) + PointersFrom(node, k + 1)
  }

  lemma ChildPointers(node: Value, k: nat)
    requires k < Arity(node)
    ensures PointersFrom(node, k + 1) <= PointersFrom(node, k)
    ensures Child(node, k).Some? ==> Pointers(Child(node, k).value) <= PointersFrom(node, k)
    ensures Child(node, k).None? ==> PointersFrom(node, k) == PointersFrom(node, k + 1)
  {
  }

  ghost predicate Closed(h: Heap) {
    forall a :: a in h ==> Pointers(h[a]) <= h.Keys
  }

  /** path leads from v through the heap, one pointer at a time. */
  ghost predicate LeadsFrom(h: Heap, v: Value, path: seq<Addr>) {
    && path != [] && path[0] in Pointers(v)
    && forall i :: 0 <= i < |path| - 1 ==> path[i] in h && path[i + 1] in Pointers(h[path[i]])
  }

  ghost predicate Reachable(h: Heap, v: Value, a: Addr) {
    exists path :: LeadsFrom(h, v, path) && path[|path| - 1] == a
  }

  // ----- where validators sit

  /** Child indices, from the root of the walk or from the target of a pointer. */
  type Loc = seq<nat>

  /** One value of the graph: the pointer whose target it is inline in, None for the root, and its way down from there. */
  datatype Seat = Seat(owner: Option<Addr>, inner: Loc)

  /** Following path from v through interfaces and children, but no pointer, leads to a validator. */
  predicate ValidatorAt(v: Value, path: Loc)
    decreases v
  {
    match v
    case Nil => false
    case Ptr(_) => false
    case Iface(inner) => ValidatorAt(inner, path)
    case Leaf(validator) => path == [] && validator
    case _ =>
      if path == [] then v.validator
      else path[0] < Arity(v) && var c := Child(v, path[0]); c.Some? && ValidatorAt(c.value, path[1..])
  }

  /** Where validators are, constructor by constructor: nothing of a collection or of an exported field is left out. */
  lemma ValidatorPlaces(v: Value, path: Loc)
    ensures v.Nil? || v.Ptr? ==> !ValidatorAt(v, path)
    ensures v.Iface? ==> (ValidatorAt(v, path) <==> ValidatorAt(v.inner, path))
    ensures IsNode(v) && path == [] ==> (ValidatorAt(v, path) <==> v.validator)
    ensures v.Leaf? && path != [] ==> !ValidatorAt(v, path)
    ensures v.Struct? && path != [] ==>
      (ValidatorAt(v, path) <==> path[0] < |v.fields| && v.fields[path[0]].exported && !v.fields[path[0]].skip
                                 && ValidatorAt(v.fields[path[0]].value, path[1..]))
    ensures v.Indexed? && path != [] ==>
      (ValidatorAt(v, path) <==> v.descendable && path[0] < |v.elems| && ValidatorAt(v.elems[path[0]], path[1..]))
    ensures v.MapOf? && path != [] ==>
      (ValidatorAt(v, path) <==>
        v.descendable && path[0] < |v.entries| && ValidatorAt(v.entries[path[0]].value, path[1..]))
  {
  }

  lemma {:induction false} PointersFromFound(node: Value, k: nat, a: Addr)
    requires k <= Arity(node)
    ensures a in PointersFrom(node, k) <==>
      exists i :: k <= i < Arity(node) && Child(node, i).Some? && a in Pointers(Child(node, i).value)
    decreases Arity(node) - k
  {
    if k < Arity(node) {
      PointersFromFound(node, k + 1, a);
    }
  }

  /** Where pointers are, constructor by constructor. */
  lemma PointerPlaces(v: Value, a: Addr)
    ensures v.Nil? || v.Leaf? ==> a !in Pointers(v)
    ensures v.Ptr? ==> (a in Pointers(v) <==> a == v.addr)
    ensures v.Iface? ==> (a in Pointers(v) <==> a in Pointers(v.inner))
    ensures v.Struct? ==>
      (a in Pointers(v) <==> exists i :: 0 <= i < |v.fields| && v.fields[i].exported && !v.fields[i].skip
                                         && a in Pointers(v.fields[i].value))
    ensures v.Indexed? ==>
      (a in Pointers(v) <==> v.descendable && exists i :: 0 <= i < |v.elems| && a in Pointers(v.elems[i]))
    ensures v.MapOf? ==>
      (a in Pointers(v) <==> v.descendable && exists i :: 0 <= i < |v.entries| && a in Pointers(v.entries[i].value))
  {
    if IsNode(v) {
      PointersFromFound(v, 0, a);
      assert forall i :: 0 <= i < Arity(v) && Child(v, i).Some? ==>
        (Child(v, i).value
         == (if v.Struct? then v.fields[i].value else if v.Indexed? then v.elems[i] else v.entries[i].value));
    }
  }

  /** s is a validator of the root v or of the target of a pointer that v reaches. */
  ghost predicate InReach(h: Heap, v: Value, s: Seat) {
    match s.owner
    case None => ValidatorAt(v, s.inner)
    case Some(a) => Reachable(h, v, a) && a in h && ValidatorAt(h[a], s.inner)
  }

  // ----- the walk

  /** How the walk got to a value, the child indices from the root, and which value it is. */
  datatype Place = Place(loc: Loc, seat: Seat)

  const Root := Place([], Seat(None, []))

  function Down(at: Place, k: nat): Place {
    Place(at.loc + [k], Seat(at.seat.owner, at.seat.inner + [k]))
  }

  /** The place after following the pointers in entered. */
  function Landed(at: Place, entered: seq<Addr>): (here: Place)
    ensures here.loc == at.loc
  {
    if entered == [] then at else Place(at.loc, Seat(Some(entered[|entered| - 1]), []))
  }

  /** A run of the walk: visited afterwards, pointers entered and validators called, in order. */
  datatype Out = Out(visited: set<Addr>, entered: seq<Addr>, calls: seq<Place>)

  datatype Dereffed = Dereffed(node: Option<Value>, visited: set<Addr>, entered: seq<Addr>)

  function Unvisited(h: Heap, visited: set<Addr>): nat {
    |h.Keys - visited|
  }

  lemma VisitedGrows(h: Heap, small: set<Addr>, big: set<Addr>)
    requires small <= big
    ensures Unvisited(h, big) <= Unvisited(h, small)
    ensures forall a :: a in h && a !in small && a in big ==> Unvisited(h, big) < Unvisited(h, small)
  {
    var more, less := h.Keys - small, h.Keys - big;
    assert more == less + (more - less);
    forall a | a in h && a !in small && a in big
      ensures Unvisited(h, big) < Unvisited(h, small)
    {
      assert a in more - less;
    }
  }

  /** derefValidate: follow interfaces and unvisited pointers. */
  function Deref(h: Heap, v: Value, visited: set<Addr>): (d: Dereffed)
    requires Closed(h) && Pointers(v) <= h.Keys
    ensures visited <= d.visited
    ensures d.node.Some? ==> IsNode(d.node.value) && Pointers(d.node.value) <= h.Keys
    ensures d.node.Some? && d.visited == visited ==> d.node.value == v || d.node.value < v
    ensures d.visited != visited ==> Unvisited(h, d.visited) < Unvisited(h, visited)
    decreases Unvisited(h, visited), v
  {
    match v
    case Nil => Dereffed(None, visited, [])
    case Iface(inner) => Deref(h, inner, visited)
    case Ptr(a) =>
      if a in visited then
        Dereffed(None, visited, [])
      else
        VisitedGrows(h, visited, visited + {a});
        var d := Deref(h, h[a], visited + {a});
        VisitedGrows(h, visited + {a}, d.visited);
        d.(entered := [a] + d.entered)
    case _ => Dereffed(Some(v), visited, [])
  }

  /** walkValidate of v at a place. */
  function Walk(h: Heap, v: Value, at: Place, visited: set<Addr>): (o: Out)
    requires Closed(h) && Pointers(v) <= h.Keys
    ensures visited <= o.visited
    decreases Unvisited(h, visited), v, 1, 0, 0
  {
    var d := Deref(h, v, visited);
    if d.node.None? then
      Out(d.visited, d.entered, [])
    else
      var here := Landed(at, d.entered);
      var kids := WalkFrom(h, d.node.value, 0, here, d.visited);
      Out(kids.visited, d.entered + kids.entered, kids.calls + (if d.node.value.validator then [here] else []))
  }

  /** Child k alone. */
  function WalkChild(h: Heap, node: Value, k: nat, at: Place, visited: set<Addr>): (o: Out)
    requires Closed(h) && k < Arity(node) && PointersFrom(node, k) <= h.Keys
    ensures visited <= o.visited
    decreases Unvisited(h, visited), node, 0, Arity(node) - k, 0
  {
    var c := Child(node, k);
    if c.Some? then Walk(h, c.value, Down(at, k), visited) else Out(visited, [], [])
  }

  /** Children k and onwards of one node. */
  function WalkFrom(h: Heap, node: Value, k: nat, at: Place, visited: set<Addr>): (o: Out)
    requires Closed(h) && k <= Arity(node) && PointersFrom(node, k) <= h.Keys
    ensures visited <= o.visited
    decreases Unvisited(h, visited), node, 0, Arity(node) - k, 1
  {
    if k == Arity(node) then
      Out(visited, [], [])
    else
      var first := WalkChild(h, node, k, at, visited);
      VisitedGrows(h, visited, first.visited);
      var rest := WalkFrom(h, node, k + 1, at, first.visited);
      Out(rest.visited, first.entered + rest.entered, first.calls + rest.calls)
  }
}
