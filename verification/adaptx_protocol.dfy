/**
 Every interleaving of the limiter's callers, one channel or atomic operation
 per step. A caller holds its permit from the receive on the semaphore until
 releasePermit, which is longer than it is counted in inFlight. A limit change
 holds the mutex while it sends or pulls permits one by one, and callers that
 need no mutex run in between.
 */
module AdaptxProtocol {
  import opened AdaptxPool
  import opened Census
  import opened Wrappers

  /** Where a caller that holds a permit stands. */
  datatype Phase =
    | Taken       // received a permit, has not looked at closed again
    | Aborting    // saw closed: will put the permit back and leave
    | Admitting   // saw open: about to count itself in flight
    | Running     // counted in flight
    | Adjusting   // owns the mutex inside adjust
    | Recorded    // outcome recorded, still counted in flight
    | Finishing   // no longer counted, permit not yet returned

  /** The mutex as adjust uses it: left sends or pulls are still to be done. */
  datatype Lock =
    | Free
    | Granting(owner: nat, left: nat)
    | Shrinking(owner: nat, left: nat)

  datatype State = State(pool: Pool, inFlight: int, closed: bool, lock: Lock, callers: map<nat, Phase>)

  datatype Step =
    | Take(c: nat)
    | Look(c: nat)
    | Abort(c: nat)
    | Admit(c: nat)
    | Settle(c: nat)                // record without a window closing; a skipped sample takes no lock
    | Decide(c: nat, next: int)     // adjust: law evaluated, limit stored
    | Grant                         // one send of a growing adjust
    | Pull                          // one receive of a shrinking adjust
    | Unlock
    | Leave(c: nat)
    | Return(c: nat)                // releasePermit
    | Close
    | Drain                         // one receive of drainSemaphore
    | ResetStats

  function Init(b: Bounds): State {
    State(Pool(b.initialLimit, 0, b.initialLimit), 0, false, Free, map[])
  }

  predicate At(s: State, c: nat, p: Phase) {
    c in s.callers && s.callers[c] == p
  }

  predicate Counted(p: Phase) {
    p.Running? || p.Adjusting? || p.Recorded?
  }

  predicate Enabled(b: Bounds, s: State, step: Step) {
    match step
    case Take(c) => c !in s.callers && s.pool.idle > 0
    case Look(c) => At(s, c, Taken)
    case Abort(c) => At(s, c, Aborting)
    case Admit(c) => At(s, c, Admitting)
    case Settle(c) => At(s, c, Running)
    case Decide(c, next) => At(s, c, Running) && s.lock.Free? && b.minLimit <= next <= b.maxLimit
    case Grant => s.lock.Granting? && s.lock.left > 0
    case Pull => s.lock.Shrinking? && s.lock.left > 0
    case Unlock => !s.lock.Free? && s.lock.left == 0
    case Leave(c) => At(s, c, Recorded)
    case Return(c) => At(s, c, Finishing) && s.lock.Free?
    case Close => true
    case Drain => s.closed && s.pool.idle > 0
    case ResetStats => s.lock.Free? && s.inFlight == |s.callers|
  }

  function Apply(b: Bounds, s: State, step: Step): State
    requires Enabled(b, s, step)
  {
    match step
    case Take(c) =>
      s.(pool := s.pool.(idle := s.pool.idle - 1), callers := s.callers[c := Taken])
    case Look(c) =>
      s.(callers := s.callers[c := if s.closed then Aborting else Admitting])
    case Abort(c) =>
      s.(pool := s.pool.(idle := Send(s.pool.idle, b.maxLimit)), callers := s.callers - {c})
    case Admit(c) =>
      s.(inFlight := s.inFlight + 1, callers := s.callers[c := Running])
    case Settle(c) =>
      s.(callers := s.callers[c := Recorded])
    case Decide(c, next) =>
      var p := s.pool;
      if next == p.limit then
        s.(callers := s.callers[c := Recorded])
      else if next > p.limit then
        var grant := next - p.limit;
        var paid := if p.debt > 0 then Min(p.debt, grant) else 0;
        s.(pool := p.(limit := next, debt := p.debt - paid),
           lock := Granting(c, Max(grant - paid, 0)),
           callers := s.callers[c := Adjusting])
      else
        s.(pool := p.(limit := next),
           lock := Shrinking(c, p.limit - next),
           callers := s.callers[c := Adjusting])
    case Grant =>
      s.(pool := s.pool.(idle := Send(s.pool.idle, b.maxLimit)), lock := Granting(s.lock.owner, s.lock.left - 1))
    case Pull =>
      if s.pool.idle > 0 then
        s.(pool := s.pool.(idle := s.pool.idle - 1), lock := Shrinking(s.lock.owner, s.lock.left - 1))
      else
        s.(pool := s.pool.(debt := s.pool.debt + s.lock.left), lock := Shrinking(s.lock.owner, 0))
    case Unlock =>
      s.(lock := Free, callers := s.callers[s.lock.owner := Recorded])
    case Leave(c) =>
      s.(inFlight := s.inFlight - 1, callers := s.callers[c := Finishing])
    case Return(c) =>
      s.(pool := Release(s.pool, b.maxLimit), callers := s.callers - {c})
    case Close =>
      s.(closed := true)
    case Drain =>
      s.(pool := s.pool.(idle := s.pool.idle - 1))
    case ResetStats =>
      s.(pool := Reset(b, s.inFlight, s.inFlight))
  }

  /** Every caller in the map holds one permit. */
  function Held(s: State): nat {
    |s.callers|
  }

  /** Permits still to be pulled or sent by a half-done adjust. */
  function ToPull(l: Lock): int {
    if l.Shrinking? then l.left else 0
  }

  function ToSend(l: Lock): int {
    if l.Granting? then l.left else 0
  }

  /** The books, corrected for a half-done adjust; closing may only lose permits. */
  ghost predicate Books(b: Bounds, p: Pool, l: Lock, closed: bool, held: int) {
    var due := p.limit + p.debt + ToPull(l) - ToSend(l);
    && b.minLimit <= p.limit
    && 0 <= p.debt && 0 <= p.idle
    && p.limit + p.debt + ToPull(l) <= b.maxLimit
    && p.idle + held <= due
    && (!closed ==> p.idle + held == due && (p.debt > 0 ==> p.idle == 0))
    && (ToSend(l) > 0 ==> p.debt == 0)
  }

  /** inFlight counts exactly the callers between Admit and Leave; one adjuster owns the mutex. */
  ghost predicate Phases(s: State) {
    && s.inFlight == Count(s.callers, Counted)
    && (!s.lock.Free? ==> At(s, s.lock.owner, Adjusting))
    && (forall c :: At(s, c, Adjusting) ==> !s.lock.Free? && s.lock.owner == c)
    && (forall c :: At(s, c, Aborting) ==> s.closed)
  }

  ghost predicate Inv(b: Bounds, s: State) {
    Books(b, s.pool, s.lock, s.closed, Held(s)) && Phases(s)
  }

  // ----- the size of the caller map

  lemma SetPhase(callers: map<nat, Phase>, c: nat, p: Phase)
    ensures |callers[c := p]| == |callers| + (if c in callers then 0 else 1)
    ensures Count(callers[c := p], Counted) ==
            Count(callers, Counted) + (if Counted(p) then 1 else 0)
            - (if c in callers && Counted(callers[c]) then 1 else 0)
  {
    assert callers[c := p].Keys == callers.Keys + {c};
    Put(callers, c, p, Counted);
  }

  lemma DropCaller(callers: map<nat, Phase>, c: nat)
    requires c in callers
    ensures |callers - {c}| == |callers| - 1
    ensures Count(callers - {c}, Counted) == Count(callers, Counted) - (if Counted(callers[c]) then 1 else 0)
  {
    assert (callers - {c}).Keys == callers.Keys - {c};
    Census.Drop(callers, c, Counted);
  }

  lemma CountedAreHolders(s: State)
    ensures Count(s.callers, Counted) <= Held(s)
  {
    var counted := Where(s.callers, Counted);
    assert s.callers.Keys == counted + (s.callers.Keys - counted);
  }

  // ----- the invariant

  lemma InitInv(b: Bounds)
    requires b.Valid()
    ensures Inv(b, Init(b))
  {
    Nobody<Phase>(Counted);
  }

  /** The caller whose phase a step changes, if any, and the phase it has then, None once it has left. */
  function Mover(s: State, step: Step): Option<nat> {
    match step
    case Grant | Pull | Close | Drain | ResetStats => None
    case Unlock => if s.lock.Free? then None else Some(s.lock.owner)
    case _ => Some(step.c)
  }

  function PhaseAfter(s: State, step: Step): Option<Phase> {
    match step
    case Take(_) => Some(Taken)
    case Look(_) => Some(if s.closed then Aborting else Admitting)
    case Admit(_) => Some(Running)
    case Settle(_) => Some(Recorded)
    case Decide(_, next) => Some(if next == s.pool.limit then Recorded else Adjusting)
    case Unlock => Some(Recorded)
    case Leave(_) => Some(Finishing)
    case _ => None
  }

  lemma StepMovesOne(b: Bounds, s: State, step: Step)
    requires Enabled(b, s, step)
    ensures var m, p := Mover(s, step), PhaseAfter(s, step);
      Apply(b, s, step).callers ==
        if m.None? then s.callers
        else if p.None? then s.callers - {m.value}
        else s.callers[m.value := p.value]
  {
    hide Release, Reset, Send, Min, Max;
  }

  /** Held permits before and after a step. */
  lemma StepHeld(b: Bounds, s: State, step: Step)
    requires Phases(s) && Enabled(b, s, step)
    ensures Held(Apply(b, s, step)) ==
            Held(s) + (if step.Take? then 1 else if step.Abort? || step.Return? then -1 else 0)
  {
    hide Apply, Count, Counted;
    StepMovesOne(b, s, step);
    var m, p := Mover(s, step), PhaseAfter(s, step);
    if m.Some? {
      if p.Some? {
        SetPhase(s.callers, m.value, p.value);
      } else {
        DropCaller(s.callers, m.value);
      }
    }
  }

  /** Only Admit and Leave carry a caller over the line between counted and not counted. */
  lemma CrossesLine(b: Bounds, s: State, step: Step)
    requires Enabled(b, s, step) && Mover(s, step).Some?
    requires !s.lock.Free? ==> At(s, s.lock.owner, Adjusting)
    ensures var m, p := Mover(s, step).value, PhaseAfter(s, step);
      (if p.Some? && Counted(p.value) then 1 else 0) - (if m in s.callers && Counted(s.callers[m]) then 1 else 0)
      == (if step.Admit? then 1 else if step.Leave? then -1 else 0)
  {
  }

  lemma NobodyMoves(s: State, step: Step)
    requires Mover(s, step).None? && (step.Unlock? ==> !s.lock.Free?)
    ensures !step.Admit? && !step.Leave?
  {
  }

  /** Who is counted in flight before and after a step. */
  lemma StepCounted(b: Bounds, s: State, step: Step)
    requires Phases(s) && Enabled(b, s, step)
    ensures Count(Apply(b, s, step).callers, Counted) ==
            Count(s.callers, Counted) + (if step.Admit? then 1 else if step.Leave? then -1 else 0)
  {
    StepMovesOne(b, s, step);
    hide Apply, Count, Counted, Mover, PhaseAfter;
    var m, p := Mover(s, step), PhaseAfter(s, step);
    if m.None? {
      NobodyMoves(s, step);
    } else {
      CrossesLine(b, s, step);
      hide Enabled;
      if p.Some? {
        SetPhase(s.callers, m.value, p.value);
      } else {
        assert m.value in s.callers by { LeaverIsThere(b, s, step); }
        DropCaller(s.callers, m.value);
      }
    }
  }

  lemma LeaverIsThere(b: Bounds, s: State, step: Step)
    requires Enabled(b, s, step) && Mover(s, step).Some? && PhaseAfter(s, step).None?
    ensures Mover(s, step).value in s.callers
  {
  }

  lemma ResetBooks(b: Bounds, p: Pool, closed: bool, held: int)
    requires b.Valid() && Books(b, p, Free, closed, held) && 0 <= held
    ensures Books(b, Reset(b, held, held), Free, closed, held)
  {
    SendManyCounts(0, Max(b.initialLimit, held) - held, b.maxLimit);
  }

  lemma AdjustBooks(b: Bounds, s: State, step: Step)
    requires b.Valid() && Inv(b, s) && Enabled(b, s, step)
    requires step.Decide? || step.Grant? || step.Pull? || step.Unlock?
    ensures var t := Apply(b, s, step); Books(b, t.pool, t.lock, t.closed, Held(s))
  {
  }

  lemma StepKeepsBooks(b: Bounds, s: State, step: Step)
    requires b.Valid() && Inv(b, s) && Enabled(b, s, step)
    ensures var t := Apply(b, s, step); Books(b, t.pool, t.lock, t.closed, Held(t))
  {
    StepHeld(b, s, step);
    if step.ResetStats? {
      ResetBooks(b, s.pool, s.closed, Held(s));
    } else if step.Decide? || step.Grant? || step.Pull? || step.Unlock? {
      AdjustBooks(b, s, step);
    }
  }

  lemma StepKeepsPhases(b: Bounds, s: State, step: Step)
    requires Inv(b, s) && Enabled(b, s, step)
    ensures Phases(Apply(b, s, step))
  {
    StepCounted(b, s, step);
    var t := Apply(b, s, step);
    forall c | At(t, c, Adjusting)
      ensures !t.lock.Free? && t.lock.owner == c
    {
      assert At(s, c, Adjusting) || step.Decide?;
    }
    forall c | At(t, c, Aborting)
      ensures t.closed
    {
      assert At(s, c, Aborting) || step.Look?;
    }
  }

  /** Every single operation of every caller keeps the invariant. */
  lemma StepKeepsInv(b: Bounds, s: State, step: Step)
    requires b.Valid() && Inv(b, s) && Enabled(b, s, step)
    ensures Inv(b, Apply(b, s, step))
  {
    StepKeepsBooks(b, s, step);
    StepKeepsPhases(b, s, step);
  }

  /** A run: any callers, any interleaving, any control-law outputs in bounds. */
  ghost predicate IsRun(b: Bounds, states: seq<State>, steps: seq<Step>) {
    && |states| == |steps| + 1
    && states[0] == Init(b)
    && forall i :: 0 <= i < |steps| ==>
         Enabled(b, states[i], steps[i]) && states[i + 1] == Apply(b, states[i], steps[i])
  }

  lemma {:induction false} RunInv(b: Bounds, states: seq<State>, steps: seq<Step>, n: nat)
    requires b.Valid() && IsRun(b, states, steps) && n < |states|
    ensures Inv(b, states[n])
  {
    if n == 0 {
      InitInv(b);
    } else {
      RunInv(b, states, steps, n - 1);
      StepKeepsInv(b, states[n - 1], steps[n - 1]);
    }
  }

  /**
   Safety of the limiter. In every reachable state no more than maxLimit
   permits are out and in flight is at most that; whenever the limiter is open
   and no adjust is half done the books balance, hence a caller beyond the
   limit is matched by a unit of debt, and an idle limiter owes nothing.
   */
  lemma LimiterSafety(b: Bounds, states: seq<State>, steps: seq<Step>, n: nat)
    requires b.Valid() && IsRun(b, states, steps) && n < |states|
    ensures var s := states[n];
      && s.inFlight <= Held(s) <= b.maxLimit
      && 0 <= s.pool.idle <= b.maxLimit
      && (!s.closed && s.lock.Free? ==>
            && Balanced(b, s.pool, Held(s))
            && (Held(s) > s.pool.limit ==> Held(s) == s.pool.limit + s.pool.debt)
            && (Held(s) == 0 ==> s.pool.debt == 0 && s.pool.idle == s.pool.limit))
      && (s.closed && s.lock.Free? ==> s.pool.idle + Held(s) <= s.pool.limit + s.pool.debt)
  {
    RunInv(b, states, steps, n);
    CountedAreHolders(states[n]);
  }

  /** The steps that put a permit into the channel with a non-blocking send. */
  predicate Sends(s: State, step: Step) {
    step.Abort? || step.Grant? || (step.Return? && s.pool.debt == 0)
  }

  /** No non-blocking send in any run finds the channel full. */
  lemma NoPermitIsDropped(b: Bounds, states: seq<State>, steps: seq<Step>, n: nat)
    requires b.Valid() && IsRun(b, states, steps) && n < |steps|
    requires Sends(states[n], steps[n])
    ensures states[n + 1].pool.idle == states[n].pool.idle + 1
  {
    RunInv(b, states, steps, n);
    var s := states[n];
    if steps[n].Abort? || steps[n].Return? {
      DropCaller(s.callers, steps[n].c);
    } else {
      DropCaller(s.callers, s.lock.owner);
    }
  }

  lemma LimitAfter(b: Bounds, s: State, step: Step)
    requires Enabled(b, s, step)
    ensures Apply(b, s, step).pool.limit ==
      if step.Decide? then step.next else if step.ResetStats? then Max(b.initialLimit, s.inFlight) else s.pool.limit
  {
  }

  /** What the last adjust or reset before state n set the limit to, if any did. */
  function LastSet(b: Bounds, states: seq<State>, steps: seq<Step>, n: nat): Option<int>
    requires n <= |states| && n <= |steps|
  {
    if n == 0 then None
    else match steps[n - 1]
      case Decide(_, next) => Some(next)
      case ResetStats => Some(Max(b.initialLimit, states[n - 1].inFlight))
      case _ => LastSet(b, states, steps, n - 1)
  }

  /** The limit is the initial one until it is set, and then what it was last set to. */
  lemma {:induction false} LimitIsLastSet(b: Bounds, states: seq<State>, steps: seq<Step>, n: nat)
    requires IsRun(b, states, steps) && n < |states|
    ensures var l := LastSet(b, states, steps, n);
      states[n].pool.limit == if l.Some? then l.value else b.initialLimit
  {
    hide Apply, Enabled;
    if n > 0 {
      LimitIsLastSet(b, states, steps, n - 1);
      LimitAfter(b, states[n - 1], steps[n - 1]);
    }
  }

  // ----- callers that nobody interrupts, and closing

  /** An open limiter with an idle permit lets a caller in: three operations later it runs, counted, one permit down. */
  lemma OpenLimiterLetsIn(b: Bounds, s: State, c: nat)
    requires !s.closed && s.pool.idle > 0 && c !in s.callers
    ensures Enabled(b, s, Take(c))
    ensures var taken := Apply(b, s, Take(c)); Enabled(b, taken, Look(c))
    ensures var seen := Apply(b, Apply(b, s, Take(c)), Look(c)); Enabled(b, seen, Admit(c))
    ensures var t := Apply(b, Apply(b, Apply(b, s, Take(c)), Look(c)), Admit(c));
      && t.callers == s.callers[c := Running] && t.inFlight == s.inFlight + 1
      && t.pool == Pool(s.pool.limit, s.pool.debt, s.pool.idle - 1) && !t.closed
  {
    assert s.callers[c := Taken][c := Admitting][c := Running] == s.callers[c := Running];
  }

  /** A running caller gets out again and takes its permit along: to the debt if there is any, else to the channel. */
  lemma CallerGetsOut(b: Bounds, s: State, c: nat)
    requires At(s, c, Running) && s.lock.Free? && 0 <= s.pool.idle < b.maxLimit && 0 <= s.pool.debt
    ensures Enabled(b, s, Settle(c)) && Enabled(b, Apply(b, s, Settle(c)), Leave(c))
    ensures Enabled(b, Apply(b, Apply(b, s, Settle(c)), Leave(c)), Return(c))
    ensures var t := Apply(b, Apply(b, Apply(b, s, Settle(c)), Leave(c)), Return(c));
      && t.callers == s.callers - {c} && t.inFlight == s.inFlight - 1 && t.pool.limit == s.pool.limit
      && t.pool.debt == (if s.pool.debt > 0 then s.pool.debt - 1 else 0)
      && t.pool.idle == (if s.pool.debt > 0 then s.pool.idle else s.pool.idle + 1)
  {
    assert s.callers[c := Recorded][c := Finishing] - {c} == s.callers - {c};
  }

  /** The limiter is closed exactly from its first Close on. */
  lemma {:induction false} ClosedExactly(b: Bounds, states: seq<State>, steps: seq<Step>, n: nat)
    requires IsRun(b, states, steps) && n < |states|
    ensures states[n].closed <==> exists i :: 0 <= i < n && steps[i].Close?
  {
    if n > 0 {
      ClosedExactly(b, states, steps, n - 1);
      assert states[n] == Apply(b, states[n - 1], steps[n - 1]);
    }
  }

  /** Whoever looks after a Close gives its permit back; whoever looks before goes on to be admitted. */
  lemma NobodyEntersAfterClose(b: Bounds, states: seq<State>, steps: seq<Step>, n: nat, c: nat)
    requires IsRun(b, states, steps) && n < |steps| && steps[n] == Look(c)
    ensures At(states[n + 1], c, Aborting) <==> exists i :: 0 <= i < n && steps[i].Close?
    ensures At(states[n + 1], c, Admitting) <==> forall i :: 0 <= i < n ==> !steps[i].Close?
  {
    ClosedExactly(b, states, steps, n);
    assert states[n + 1] == Apply(b, states[n], steps[n]);
  }

  /** An aborting caller leaves without ever having been counted. */
  lemma AbortLeaves(b: Bounds, s: State, c: nat)
    requires At(s, c, Aborting)
    ensures Enabled(b, s, Abort(c))
    ensures var t := Apply(b, s, Abort(c)); t.callers == s.callers - {c} && t.inFlight == s.inFlight
  {
  }

  /** drainSemaphore, alone. */
  function DrainAll(b: Bounds, s: State): State
    decreases s.pool.idle
  {
    if Enabled(b, s, Drain) then DrainAll(b, Apply(b, s, Drain)) else s
  }

  /** Draining a closed limiter leaves no permit to take and touches nothing else. */
  lemma {:induction false} DrainEmpties(b: Bounds, s: State)
    requires s.closed && 0 <= s.pool.idle
    ensures DrainAll(b, s) == s.(pool := s.pool.(idle := 0))
    ensures forall c :: !Enabled(b, DrainAll(b, s), Take(c))
    decreases s.pool.idle
  {
    if s.pool.idle > 0 {
      DrainEmpties(b, Apply(b, s, Drain));
    }
  }

  /**
   A run that ResetStats must not meet: after New, one caller takes a permit and looks at closed. It holds a permit
   that inFlight does not count yet, and a reset at that point would mint one permit too many.
   */
  lemma ResetDuringAdmissionOvercommits() returns (states: seq<State>)
    ensures var b, steps := Bounds(1, 2, 2), [Take(0), Look(0)];
      && b.Valid() && IsRun(b, states, steps)
      && var s := states[2];
         && !s.closed && s.lock.Free? && s.inFlight == 0 && Held(s) == 1
         && !Balanced(b, Reset(b, s.inFlight, s.inFlight), Held(s))
  {
    var b := Bounds(1, 2, 2);
    var taken := Apply(b, Init(b), Take(0));
    states := [Init(b), taken, Apply(b, taken, Look(0))];
    SetPhase(map[], 0, Taken);
    SetPhase(taken.callers, 0, Admitting);
    SendManyCounts(0, 2, 2);
  }

  // ----- an adjust that nobody interrupts is one Resize

  function GrantAll(b: Bounds, s: State): State
    requires s.lock.Granting?
    decreases s.lock.left
  {
    if s.lock.left == 0 then Apply(b, s, Unlock) else GrantAll(b, Apply(b, s, Grant))
  }

  function PullAll(b: Bounds, s: State): State
    requires s.lock.Shrinking?
    decreases s.lock.left
  {
    if s.lock.left == 0 then Apply(b, s, Unlock) else PullAll(b, Apply(b, s, Pull))
  }

  /** Decide and then the owner's own steps, alone. */
  function AdjustAlone(b: Bounds, s: State, c: nat, next: int): State
    requires Enabled(b, s, Decide(c, next))
  {
    var d := Apply(b, s, Decide(c, next));
    match d.lock
    case Free => d
    case Granting(_, _) => GrantAll(b, d)
    case Shrinking(_, _) => PullAll(b, d)
  }

  lemma {:induction false} GrantAllSends(b: Bounds, s: State)
    requires s.lock.Granting?
    ensures GrantAll(b, s) ==
            s.(pool := s.pool.(idle := SendMany(s.pool.idle, s.lock.left, b.maxLimit)),
               lock := Free, callers := s.callers[s.lock.owner := Recorded])
    decreases s.lock.left
  {
    if s.lock.left > 0 {
      GrantAllSends(b, Apply(b, s, Grant));
    }
  }

  lemma {:induction false} PullAllShrinks(b: Bounds, s: State)
    requires s.lock.Shrinking? && 0 <= s.pool.idle
    ensures PullAll(b, s) ==
            s.(pool := Shrink(s.pool, s.lock.left), lock := Free, callers := s.callers[s.lock.owner := Recorded])
    decreases s.lock.left
  {
    if s.lock.left > 0 {
      PullAllShrinks(b, Apply(b, s, Pull));
    }
  }

  /** The single-operation steps of one adjust, run alone, are the atomic Resize. */
  lemma AdjustAloneIsResize(b: Bounds, s: State, c: nat, next: int)
    requires Enabled(b, s, Decide(c, next)) && 0 <= s.pool.idle
    ensures AdjustAlone(b, s, c, next) ==
            s.(pool := Resize(s.pool, next, b.maxLimit), callers := s.callers[c := Recorded])
  {
    var d := Apply(b, s, Decide(c, next));
    match d.lock
    case Free =>
    case Granting(_, _) =>
      GrantAllSends(b, d);
      assert s.callers[c := Adjusting][c := Recorded] == s.callers[c := Recorded];
    case Shrinking(_, _) =>
      PullAllShrinks(b, d);
      assert s.callers[c := Adjusting][c := Recorded] == s.callers[c := Recorded];
  }
}
