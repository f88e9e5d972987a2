/**
 Every interleaving of the bulkhead's callers at the granularity of one atomic
 load, add, channel send or channel receive. Each caller in the map runs its
 own program; the point it has reached says what it does next.
 */
module BulkxAdmission {
  import opened Census
  import opened Wrappers

  /** maxWaiters 0 means no cap. */
  datatype Config = Config(maxConcurrent: nat, maxWaiters: nat) {
    predicate Valid() {
      maxConcurrent >= 1
    }
  }

  /** ticket is what waiters.Add(1) returned to a slow-path caller, 0 for a caller that never queued. */
  datatype Pc =
    | LoadClosed(tries: bool)    // about to read closed; tries marks TryExecute
    | LoadCtx(tries: bool)
    | LoadWaiters(tries: bool)
    | SendFast(tries: bool)      // select with default
    | Recheck(tries: bool)       // holds a slot, about to read waiters again
    | RefundFast(tries: bool)    // holds a slot it gives back to those who queue
    | JoinQueue                  // waiters.Add(1)
    | CheckCap(ticket: int)
    | Blocked(ticket: int)       // select: slot, context, timer or close
    | Commit(ticket: int)        // holds a slot, about to read closed
    | RefundClosed(ticket: int)
    | RecheckCtx(ticket: int)    // holds a slot, about to read ctx
    | RefundCtx(ticket: int)
    | LeaveRejected(ticket: int)               // over the waiter cap: deferred waiters.Add(-1)
    | LeaveQueue(ticket: int, admitted: bool)  // deferred waiters.Add(-1)
    | Activate                   // admitted, about to add itself to active
    | Running(snapshot: int)     // what active.Add(1) returned
    | FreeSlot                   // active given back, slot not yet

  predicate HoldsSlot(pc: Pc) {
    match pc
    case Recheck(_) | RefundFast(_) | Commit(_) | RefundClosed(_) | RecheckCtx(_) | RefundCtx(_) => true
    case LeaveQueue(_, admitted) => admitted
    case Activate | Running(_) | FreeSlot => true
    case _ => false
  }

  predicate IsActive(pc: Pc) {
    pc.Running?
  }

  /** Between waiters.Add(1) and its deferred waiters.Add(-1). */
  predicate IsQueued(pc: Pc) {
    match pc
    case CheckCap(_) | Blocked(_) | LeaveRejected(_) | LeaveQueue(_, _) => true
    case Commit(t) => t > 0
    case RefundClosed(t) => t > 0
    case RecheckCtx(t) => t > 0
    case RefundCtx(t) => t > 0
    case _ => false
  }

  function Ticket(pc: Pc): int {
    match pc
    case CheckCap(t) => t
    case Blocked(t) => t
    case Commit(t) => t
    case RefundClosed(t) => t
    case RecheckCtx(t) => t
    case RefundCtx(t) => t
    case LeaveRejected(t) => t
    case LeaveQueue(t, _) => t
    case _ => 0
  }

  /** Queued and let past the waiter cap. */
  predicate IsWaiting(pc: Pc) {
    IsQueued(pc) && !pc.CheckCap? && !pc.LeaveRejected?
  }

  /** The shared words: channel length, the two atomics, the closed flag and the closed channel. */
  datatype Shared = Shared(sem: int, active: int, waiters: int, closed: bool, closedCh: bool)

  datatype State = State(shared: Shared, callers: map<nat, Pc>)

  function Init(): State {
    State(Shared(0, 0, 0, false, false), map[])
  }

  /** What wakes a blocked caller. */
  datatype Wake = Slot | CtxDone | Timer | ClosedSignal

  datatype Step =
    | Begin(c: nat, tries: bool)
    | Go(c: nat, ctxDone: bool)   // the caller's next operation; ctxDone is what ctx.Err() would say
    | WakeUp(c: nat, cause: Wake)
    | StoreClosed
    | CloseChannel

  /** Receives on sem at these points would block on an empty channel. */
  predicate Receives(pc: Pc) {
    pc.RefundFast? || pc.RefundClosed? || pc.RefundCtx? || pc.FreeSlot?
  }

  predicate Enabled(cfg: Config, s: State, step: Step) {
    match step
    case Begin(c, _) => c !in s.callers
    case Go(c, _) => c in s.callers && !s.callers[c].Blocked? && (Receives(s.callers[c]) ==> s.shared.sem > 0)
    case WakeUp(c, cause) =>
      c in s.callers && s.callers[c].Blocked?
      && (cause == Slot ==> s.shared.sem < cfg.maxConcurrent) && (cause == ClosedSignal ==> s.shared.closedCh)
    case StoreClosed => true
    case CloseChannel => s.shared.closed
  }

  /** One operation: what it adds to the shared counters and where the caller goes, None when it returns. */
  datatype Effect = Effect(next: Option<Pc>, sem: int, active: int, waiters: int)

  function Moves(pc: Pc): Effect {
    Effect(Some(pc), 0, 0, 0)
  }

  const Returns := Effect(None, 0, 0, 0)

  /** finishReserve failed and gave the slot back: a queued caller still has its deferred decrement to do. */
  function Refunds(t: int): Effect {
    Effect(if t > 0 then Some(LeaveQueue(t, false)) else None, -1, 0, 0)
  }

  function Operation(cfg: Config, sh: Shared, pc: Pc, ctxDone: bool): Effect
    requires !pc.Blocked?
  {
    match pc
    case LoadClosed(tries) => if sh.closed then Returns else Moves(LoadCtx(tries))
    case LoadCtx(tries) => if ctxDone then Returns else Moves(LoadWaiters(tries))
    case LoadWaiters(tries) =>
      if sh.waiters == 0 then Moves(SendFast(tries)) else if tries then Returns else Moves(JoinQueue)
    case SendFast(tries) =>
      if sh.sem < cfg.maxConcurrent then Effect(Some(Recheck(tries)), 1, 0, 0)
      else if tries then Returns
      else Moves(JoinQueue)
    case Recheck(tries) => Moves(if sh.waiters > 0 then RefundFast(tries) else Commit(0))
    case RefundFast(tries) => Effect(if tries then None else Some(JoinQueue), -1, 0, 0)
    case JoinQueue => Effect(Some(CheckCap(sh.waiters + 1)), 0, 0, 1)
    case CheckCap(t) => Moves(if cfg.maxWaiters > 0 && t > cfg.maxWaiters then LeaveRejected(t) else Blocked(t))
    case Commit(t) => Moves(if sh.closed then RefundClosed(t) else RecheckCtx(t))
    case RefundClosed(t) => Refunds(t)
    case RecheckCtx(t) => Moves(if ctxDone then RefundCtx(t) else if t > 0 then LeaveQueue(t, true) else Activate)
    case RefundCtx(t) => Refunds(t)
    case LeaveRejected(_) => Effect(None, 0, 0, -1)
    case LeaveQueue(_, admitted) => Effect(if admitted then Some(Activate) else None, 0, 0, -1)
    case Activate => Effect(Some(Running(sh.active + 1)), 0, 1, 0)
    case Running(_) => Effect(Some(FreeSlot), 0, -1, 0)
    case FreeSlot => Effect(None, -1, 0, 0)
  }

  /** The caller's operation or wake-up as an effect; Begin enters at LoadClosed. */
  function EffectOf(cfg: Config, s: State, step: Step): Effect
    requires Enabled(cfg, s, step) && (step.Begin? || step.Go? || step.WakeUp?)
  {
    match step
    case Begin(_, tries) => Moves(LoadClosed(tries))
    case Go(c, ctxDone) => Operation(cfg, s.shared, s.callers[c], ctxDone)
    case WakeUp(c, cause) =>
      var t := s.callers[c].ticket;
      if cause == Slot then Effect(Some(Commit(t)), 1, 0, 0) else Moves(LeaveQueue(t, false))
  }

  function Apply(cfg: Config, s: State, step: Step): State
    requires Enabled(cfg, s, step)
  {
    match step
    case StoreClosed => s.(shared := s.shared.(closed := true))
    case CloseChannel => s.(shared := s.shared.(closedCh := true))
    case _ =>
      var e, sh := EffectOf(cfg, s, step), s.shared;
      State(sh.(sem := sh.sem + e.sem, active := sh.active + e.active, waiters := sh.waiters + e.waiters),
            if e.next.Some? then s.callers[step.c := e.next.value] else s.callers - {step.c})
  }

  /** Queued with a ticket of at most k. */
  ghost function UpTo(k: nat): Pc -> bool {
    pc => IsQueued(pc) && Ticket(pc) <= k
  }

  ghost predicate Counters(cfg: Config, s: State) {
    && s.shared.sem == Count(s.callers, HoldsSlot)
    && s.shared.active == Count(s.callers, IsActive)
    && s.shared.waiters == Count(s.callers, IsQueued)
    && s.shared.sem <= cfg.maxConcurrent
  }

  /** Per caller: snapshots in range, queued callers have a ticket, and past the cap check it is within the cap. */
  predicate Sound(cfg: Config, pc: Pc) {
    && (pc.Running? ==> 1 <= pc.snapshot <= cfg.maxConcurrent)
    && (IsQueued(pc) ==> Ticket(pc) > 0)
    && (IsWaiting(pc) && cfg.maxWaiters > 0 ==> Ticket(pc) <= cfg.maxWaiters)
  }

  ghost predicate AllSound(cfg: Config, s: State) {
    forall c :: c in s.callers ==> Sound(cfg, s.callers[c])
  }

  /** Tickets are handed out so that at most k queued callers hold one of the first k. */
  ghost predicate Tickets(s: State) {
    forall k: nat :: Count(s.callers, UpTo(k)) <= k
  }

  ghost predicate Inv(cfg: Config, s: State) {
    Counters(cfg, s) && AllSound(cfg, s) && Tickets(s)
  }

  // ----- what one step does

  function Says(m: map<nat, Pc>, c: nat, p: Pc -> bool): int {
    if c in m && p(m[c]) then 1 else 0
  }

  /** Any count moves by what the stepping caller says before and after. */
  lemma StepMoves(cfg: Config, s: State, step: Step, p: Pc -> bool)
    requires Enabled(cfg, s, step) && (step.Begin? || step.Go? || step.WakeUp?)
    ensures var t := Apply(cfg, s, step);
      Count(t.callers, p) == Count(s.callers, p) + Says(t.callers, step.c, p) - Says(s.callers, step.c, p)
  {
    hide EffectOf;
    var e := EffectOf(cfg, s, step);
    if e.next.Some? {
      Put(s.callers, step.c, e.next.value, p);
    } else {
      Drop(s.callers, step.c, p);
    }
  }

  function Bit(pc: Option<Pc>, p: Pc -> bool): int {
    if pc.Some? && p(pc.value) then 1 else 0
  }

  /** Every operation moves each counter exactly as the caller's own standing changes. */
  lemma OperationIsAccounted(cfg: Config, sh: Shared, pc: Pc, ctxDone: bool)
    requires !pc.Blocked? && Sound(cfg, pc) && sh.waiters >= 0
    ensures var e := Operation(cfg, sh, pc, ctxDone);
      && e.sem == Bit(e.next, HoldsSlot) - Bit(Some(pc), HoldsSlot)
      && e.active == Bit(e.next, IsActive) - Bit(Some(pc), IsActive)
      && e.waiters == Bit(e.next, IsQueued) - Bit(Some(pc), IsQueued)
  {
  }

  lemma EffectIsAccounted(cfg: Config, s: State, step: Step)
    requires Enabled(cfg, s, step) && (step.Begin? || step.Go? || step.WakeUp?)
    requires AllSound(cfg, s) && s.shared.waiters >= 0
    ensures var e, t := EffectOf(cfg, s, step), Apply(cfg, s, step);
      && e.sem == Says(t.callers, step.c, HoldsSlot) - Says(s.callers, step.c, HoldsSlot)
      && e.active == Says(t.callers, step.c, IsActive) - Says(s.callers, step.c, IsActive)
      && e.waiters == Says(t.callers, step.c, IsQueued) - Says(s.callers, step.c, IsQueued)
  {
    if step.Go? {
      hide Operation;
      OperationIsAccounted(cfg, s.shared, s.callers[step.c], step.ctxDone);
    }
  }

  lemma SendsFit(cfg: Config, s: State, step: Step)
    requires Enabled(cfg, s, step) && s.shared.sem <= cfg.maxConcurrent
    ensures Apply(cfg, s, step).shared.sem <= cfg.maxConcurrent
  {
  }

  lemma StepKeepsCounters(cfg: Config, s: State, step: Step)
    requires Counters(cfg, s) && AllSound(cfg, s) && Enabled(cfg, s, step)
    ensures Counters(cfg, Apply(cfg, s, step))
  {
    SendsFit(cfg, s, step);
    if step.Begin? || step.Go? || step.WakeUp? {
      hide EffectOf, HoldsSlot, IsActive, IsQueued, Sound;
      EffectIsAccounted(cfg, s, step);
      StepMoves(cfg, s, step, HoldsSlot);
      StepMoves(cfg, s, step, IsActive);
      StepMoves(cfg, s, step, IsQueued);
    }
  }

  /** An admitted caller that is not yet active leaves room below sem for its snapshot. */
  lemma RoomForActive(cfg: Config, s: State, c: nat)
    requires Counters(cfg, s) && c in s.callers && s.callers[c].Activate?
    ensures s.shared.active < cfg.maxConcurrent
  {
    Fewer(s.callers - {c}, IsActive, HoldsSlot);
    Drop(s.callers, c, IsActive);
    Drop(s.callers, c, HoldsSlot);
  }

  lemma OperationIsSound(cfg: Config, sh: Shared, pc: Pc, ctxDone: bool)
    requires !pc.Blocked? && Sound(cfg, pc) && sh.waiters >= 0
    requires pc.Activate? ==> 0 <= sh.active < cfg.maxConcurrent
    ensures var e := Operation(cfg, sh, pc, ctxDone); e.next.Some? ==> Sound(cfg, e.next.value)
  {
  }

  lemma StepKeepsSound(cfg: Config, s: State, step: Step)
    requires Counters(cfg, s) && AllSound(cfg, s) && Enabled(cfg, s, step)
    ensures AllSound(cfg, Apply(cfg, s, step))
  {
    if step.Go? {
      hide Operation, Sound;
      var pc := s.callers[step.c];
      if pc.Activate? {
        RoomForActive(cfg, s, step.c);
      }
      OperationIsSound(cfg, s.shared, pc, step.ctxDone);
    }
  }

  /** A caller keeps its ticket; a new one is drawn above all queued callers. */
  lemma OperationKeepsTicket(cfg: Config, sh: Shared, pc: Pc, ctxDone: bool, k: nat)
    requires !pc.Blocked? && sh.waiters >= 0
    ensures var e := Operation(cfg, sh, pc, ctxDone);
      if pc.JoinQueue? then Bit(e.next, UpTo(k)) == (if sh.waiters + 1 <= k then 1 else 0)
      else Bit(e.next, UpTo(k)) <= Bit(Some(pc), UpTo(k))
  {
  }

  lemma StepKeepsTickets(cfg: Config, s: State, step: Step)
    requires Counters(cfg, s) && Tickets(s) && Enabled(cfg, s, step)
    ensures Tickets(Apply(cfg, s, step))
  {
    var t := Apply(cfg, s, step);
    if step.Begin? || step.Go? || step.WakeUp? {
      forall k: nat
        ensures Count(t.callers, UpTo(k)) <= k
      {
        StepKeepsTicket(cfg, s, step, k);
      }
    }
  }

  lemma StepKeepsTicket(cfg: Config, s: State, step: Step, k: nat)
    requires Counters(cfg, s) && Count(s.callers, UpTo(k)) <= k
    requires Enabled(cfg, s, step) && (step.Begin? || step.Go? || step.WakeUp?)
    ensures Count(Apply(cfg, s, step).callers, UpTo(k)) <= k
  {
    StepMoves(cfg, s, step, UpTo(k));
    if step.Go? {
      hide Operation;
      OperationKeepsTicket(cfg, s.shared, s.callers[step.c], step.ctxDone, k);
      Fewer(s.callers, UpTo(k), IsQueued);
    }
  }

  ghost predicate IsRun(cfg: Config, states: seq<State>, steps: seq<Step>) {
    && |states| == |steps| + 1
    && states[0] == Init()
    && forall i :: 0 <= i < |steps| ==>
         Enabled(cfg, states[i], steps[i]) && states[i + 1] == Apply(cfg, states[i], steps[i])
  }

  lemma {:induction false} RunInv(cfg: Config, states: seq<State>, steps: seq<Step>, n: nat)
    requires cfg.Valid() && IsRun(cfg, states, steps) && n < |states|
    ensures Inv(cfg, states[n])
  {
    if n == 0 {
      Nobody<Pc>(HoldsSlot);
      Nobody<Pc>(IsActive);
      Nobody<Pc>(IsQueued);
      forall k: nat ensures Count(Init().callers, UpTo(k)) <= k { Nobody<Pc>(UpTo(k)); }
    } else {
      RunInv(cfg, states, steps, n - 1);
      StepKeepsCounters(cfg, states[n - 1], steps[n - 1]);
      StepKeepsSound(cfg, states[n - 1], steps[n - 1]);
      StepKeepsTickets(cfg, states[n - 1], steps[n - 1]);
    }
  }

  /**
   Safety of the bulkhead in every interleaving: slots in use are exactly the
   callers that hold one, active callers are among them, nobody runs beyond
   maxConcurrent nor was told so, and the queue respects its cap.
   */
  lemma BulkheadSafety(cfg: Config, states: seq<State>, steps: seq<Step>, n: nat)
    requires cfg.Valid() && IsRun(cfg, states, steps) && n < |states|
    ensures var s := states[n];
      && s.shared.sem == Count(s.callers, HoldsSlot)
      && 0 <= s.shared.active <= s.shared.sem <= cfg.maxConcurrent
      && s.shared.waiters == Count(s.callers, IsQueued)
      && (forall c :: c in s.callers && s.callers[c].Running? ==> 1 <= s.callers[c].snapshot <= cfg.maxConcurrent)
      && (cfg.maxWaiters > 0 ==> Count(s.callers, IsWaiting) <= cfg.maxWaiters)
  {
    RunInv(cfg, states, steps, n);
    var s := states[n];
    Fewer(s.callers, IsActive, HoldsSlot);
    if cfg.maxWaiters > 0 {
      Fewer(s.callers, IsWaiting, UpTo(cfg.maxWaiters));
    }
  }

  /** No refund and no release ever waits: the receive finds the caller's own slot. */
  lemma ReceivesNeverBlock(cfg: Config, states: seq<State>, steps: seq<Step>, n: nat, c: nat)
    requires cfg.Valid() && IsRun(cfg, states, steps) && n < |states|
    requires c in states[n].callers && Receives(states[n].callers[c])
    ensures forall ctxDone :: Enabled(cfg, states[n], Go(c, ctxDone))
  {
    RunInv(cfg, states, steps, n);
    Somebody(states[n].callers, c, HoldsSlot);
  }

  /** Past the check of closed that follows a successful send. */
  predicate IsCommitted(pc: Pc) {
    pc.RecheckCtx? || pc.RefundCtx? || (pc.LeaveQueue? && pc.admitted) || pc.Activate? || pc.Running? || pc.FreeSlot?
  }

  lemma CommitNeedsOpen(cfg: Config, s: State, step: Step, c: nat)
    requires Enabled(cfg, s, step) && s.shared.closed
    requires var t := Apply(cfg, s, step); c in t.callers && IsCommitted(t.callers[c])
    ensures c in s.callers && IsCommitted(s.callers[c])
  {
  }

  /** Once closed is stored, the callers that may still run are those already committed. */
  lemma {:induction false} NoCommitAfterClose(cfg: Config, states: seq<State>, steps: seq<Step>, from: nat, n: nat, c: nat)
    requires IsRun(cfg, states, steps) && from <= n < |states|
    requires states[from].shared.closed
    requires c in states[n].callers && IsCommitted(states[n].callers[c])
    ensures c in states[from].callers && IsCommitted(states[from].callers[c])
    decreases n
  {
    hide IsCommitted, Apply, Enabled;
    if from < n {
      StaysClosed(cfg, states, steps, from, n - 1);
      CommitNeedsOpen(cfg, states[n - 1], steps[n - 1], c);
      NoCommitAfterClose(cfg, states, steps, from, n - 1, c);
    }
  }

  lemma {:induction false} StaysClosed(cfg: Config, states: seq<State>, steps: seq<Step>, from: nat, n: nat)
    requires IsRun(cfg, states, steps) && from <= n < |states| && states[from].shared.closed
    ensures states[n].shared.closed
    decreases n
  {
    if from < n {
      StaysClosed(cfg, states, steps, from, n - 1);
    }
  }

  /** After the step that stores closed, whoever is committed was so before that step. */
  lemma CloseShutsTheDoor(cfg: Config, states: seq<State>, steps: seq<Step>, at: nat, n: nat, c: nat)
    requires IsRun(cfg, states, steps) && at < |steps| && steps[at].StoreClosed? && at < n < |states|
    requires c in states[n].callers && IsCommitted(states[n].callers[c])
    ensures c in states[at].callers && IsCommitted(states[at].callers[c])
  {
    assert states[at + 1] == Apply(cfg, states[at], steps[at]);
    NoCommitAfterClose(cfg, states, steps, at + 1, n, c);
  }

  // ----- callers that nobody interrupts

  /** n operations of caller c in a row, its context never done. */
  function Alone(cfg: Config, s: State, c: nat, n: nat): Option<State>
    decreases n
  {
    if n == 0 then Some(s)
    else if Enabled(cfg, s, Go(c, false)) then Alone(cfg, Apply(cfg, s, Go(c, false)), c, n - 1)
    else None
  }

  lemma OneStep(cfg: Config, s: State, c: nat, n: nat, t: State)
    requires n > 0 && Enabled(cfg, s, Go(c, false)) && Apply(cfg, s, Go(c, false)) == t
    ensures Alone(cfg, s, c, n) == Alone(cfg, t, c, n - 1)
  {
  }

  function With(s: State, sh: Shared, c: nat, pc: Pc): State {
    State(sh, s.callers[c := pc])
  }

  /** One operation that only moves the caller and the channel. */
  lemma Moved(cfg: Config, s: State, c: nat, from: Pc, to: Pc, sem: int)
    requires !from.Blocked? && (Receives(from) ==> s.shared.sem > 0)
    requires Operation(cfg, s.shared, from, false) == Effect(Some(to), sem, 0, 0)
    ensures var at := With(s, s.shared, c, from);
      && Enabled(cfg, at, Go(c, false))
      && Apply(cfg, at, Go(c, false)) == With(s, s.shared.(sem := s.shared.sem + sem), c, to)
  {
    hide Operation;
    assert s.callers[c := from][c := to] == s.callers[c := to];
  }

  /** An open bulkhead with a free slot and nobody waiting lets a new caller in by the fast path, TryExecute too. */
  lemma OpenBulkheadLetsIn(cfg: Config, s: State, c: nat, tries: bool)
    requires cfg.Valid() && !s.shared.closed && s.shared.waiters == 0 && 0 <= s.shared.sem < cfg.maxConcurrent
    requires c !in s.callers
    ensures Enabled(cfg, s, Begin(c, tries))
    ensures var t := Alone(cfg, Apply(cfg, s, Begin(c, tries)), c, 8);
      t.Some? && t.value == With(s,
        s.shared.(sem := s.shared.sem + 1, active := s.shared.active + 1), c, Running(s.shared.active + 1))
  {
    hide Alone, Apply, Enabled;
    var sh := s.shared;
    var got := s.(shared := sh.(sem := sh.sem + 1));
    Begins(cfg, s, c, tries);
    var a0 := With(s, sh, c, LoadClosed(tries));
    Moved(cfg, s, c, LoadClosed(tries), LoadCtx(tries), 0);
    OneStep(cfg, a0, c, 8, With(s, sh, c, LoadCtx(tries)));
    Moved(cfg, s, c, LoadCtx(tries), LoadWaiters(tries), 0);
    OneStep(cfg, With(s, sh, c, LoadCtx(tries)), c, 7, With(s, sh, c, LoadWaiters(tries)));
    Moved(cfg, s, c, LoadWaiters(tries), SendFast(tries), 0);
    OneStep(cfg, With(s, sh, c, LoadWaiters(tries)), c, 6, With(s, sh, c, SendFast(tries)));
    Moved(cfg, s, c, SendFast(tries), Recheck(tries), 1);
    OneStep(cfg, With(s, sh, c, SendFast(tries)), c, 5, With(s, got.shared, c, Recheck(tries)));
    Moved(cfg, got, c, Recheck(tries), Commit(0), 0);
    OneStep(cfg, With(s, got.shared, c, Recheck(tries)), c, 4, With(s, got.shared, c, Commit(0)));
    Moved(cfg, got, c, Commit(0), RecheckCtx(0), 0);
    OneStep(cfg, With(s, got.shared, c, Commit(0)), c, 3, With(s, got.shared, c, RecheckCtx(0)));
    Moved(cfg, got, c, RecheckCtx(0), Activate, 0);
    OneStep(cfg, With(s, got.shared, c, RecheckCtx(0)), c, 2, With(s, got.shared, c, Activate));
    LastStep(cfg, got, c);
  }

  lemma Begins(cfg: Config, s: State, c: nat, tries: bool)
    requires c !in s.callers
    ensures Enabled(cfg, s, Begin(c, tries))
    ensures Apply(cfg, s, Begin(c, tries)) == With(s, s.shared, c, LoadClosed(tries))
  {
  }

  lemma LastStep(cfg: Config, s: State, c: nat)
    ensures Alone(cfg, With(s, s.shared, c, Activate), c, 1)
      == Some(With(s, s.shared.(active := s.shared.active + 1), c, Running(s.shared.active + 1)))
  {
    var at := With(s, s.shared, c, Activate);
    var t := With(s, s.shared.(active := s.shared.active + 1), c, Running(s.shared.active + 1));
    assert s.callers[c := Activate][c := Running(s.shared.active + 1)] == t.callers;
    OneStep(cfg, at, c, 1, t);
  }

  /** A waiter that gets a slot from an open bulkhead runs, and no longer counts as waiting. */
  lemma WaiterGetsIn(cfg: Config, s: State, c: nat, ticket: int)
    requires !s.shared.closed && ticket > 0 && 0 <= s.shared.sem < cfg.maxConcurrent
    requires c in s.callers && s.callers[c] == Blocked(ticket)
    ensures Enabled(cfg, s, WakeUp(c, Slot))
    ensures var t := Alone(cfg, Apply(cfg, s, WakeUp(c, Slot)), c, 4);
      t.Some? && t.value == With(s,
        Shared(s.shared.sem + 1, s.shared.active + 1, s.shared.waiters - 1, false, s.shared.closedCh),
        c, Running(s.shared.active + 1))
  {
    hide Alone;
    var sh := s.shared.(sem := s.shared.sem + 1);
    var got := s.(shared := sh);
    assert Apply(cfg, s, WakeUp(c, Slot)) == With(s, sh, c, Commit(ticket));
    Moved(cfg, got, c, Commit(ticket), RecheckCtx(ticket), 0);
    OneStep(cfg, With(s, sh, c, Commit(ticket)), c, 4, With(s, sh, c, RecheckCtx(ticket)));
    Moved(cfg, got, c, RecheckCtx(ticket), LeaveQueue(ticket, true), 0);
    OneStep(cfg, With(s, sh, c, RecheckCtx(ticket)), c, 3, With(s, sh, c, LeaveQueue(ticket, true)));
    var left := got.(shared := sh.(waiters := sh.waiters - 1));
    assert s.callers[c := LeaveQueue(ticket, true)][c := Activate] == s.callers[c := Activate];
    OneStep(cfg, With(s, sh, c, LeaveQueue(ticket, true)), c, 2, With(s, left.shared, c, Activate));
    LastStep(cfg, left, c);
  }

  /** A running caller frees its slot: active first, then the channel. */
  lemma CallerGetsOut(cfg: Config, s: State, c: nat)
    requires c in s.callers && s.callers[c].Running? && s.shared.sem > 0
    ensures Alone(cfg, s, c, 2)
      == Some(State(s.shared.(sem := s.shared.sem - 1, active := s.shared.active - 1), s.callers - {c}))
  {
    var sh := s.shared.(active := s.shared.active - 1);
    var freed := With(s, sh, c, FreeSlot);
    OneStep(cfg, s, c, 2, freed);
    assert s.callers[c := FreeSlot] - {c} == s.callers - {c};
    OneStep(cfg, freed, c, 1, State(sh.(sem := sh.sem - 1), s.callers - {c}));
  }

  /** The fast path and TryExecute never pass a waiter: they commit only when they have just seen nobody waiting. */
  lemma FastPathYields(cfg: Config, s: State, step: Step, c: nat)
    requires AllSound(cfg, s) && Enabled(cfg, s, step) && c in Apply(cfg, s, step).callers
    requires (c in s.callers ==> s.callers[c] != Commit(0)) && Apply(cfg, s, step).callers[c] == Commit(0)
    ensures step.Go? && step.c == c && s.shared.waiters <= 0
  {
  }

  /** A context that is done when it is read admits nobody, and TryExecute never joins the queue. */
  lemma NotAdmitted(cfg: Config, sh: Shared, pc: Pc, ctxDone: bool)
    requires !pc.Blocked?
    ensures var next := Operation(cfg, sh, pc, ctxDone).next;
      && (pc.LoadCtx? && ctxDone ==> next.None?)
      && (pc.RecheckCtx? && ctxDone ==> next.Some? && next.value.RefundCtx?)
      && (pc.LoadClosed? && sh.closed ==> next.None?)
      && (pc.Commit? && sh.closed ==> next.Some? && next.value.RefundClosed?)
      && (pc.LoadClosed? || pc.LoadCtx? || pc.LoadWaiters? || pc.SendFast? || pc.Recheck? || pc.RefundFast? ==>
            pc.tries ==> next.None? || !next.value.JoinQueue?)
  {
  }

  /** What turns a caller away from the fast path: someone waits, no slot is free, or its slot belongs to a waiter. */
  predicate Yields(cfg: Config, sh: Shared, pc: Pc) {
    || (pc.LoadWaiters? && sh.waiters > 0)
    || (pc.SendFast? && sh.sem >= cfg.maxConcurrent)
    || (pc.RefundFast? && sh.sem > 0)
  }

  /** The words once the slot the caller may still hold is given back. */
  function Yielded(sh: Shared, pc: Pc): Shared {
    sh.(sem := sh.sem - (if pc.RefundFast? then 1 else 0))
  }

  /** A caller turned away from the fast path gives back what it holds and waits in line, unless the cap is reached. */
  lemma BusyCallerWaits(cfg: Config, s: State, c: nat)
    requires c in s.callers && Yields(cfg, s.shared, s.callers[c]) && !s.callers[c].tries && s.shared.waiters >= 0
    ensures var t, ticket := Alone(cfg, s, c, 3), s.shared.waiters + 1;
      t.Some? && t.value == With(s, Yielded(s.shared, s.callers[c]).(waiters := ticket), c,
        if cfg.maxWaiters > 0 && ticket > cfg.maxWaiters then LeaveRejected(ticket) else Blocked(ticket))
  {
    var sh, ticket := Yielded(s.shared, s.callers[c]), s.shared.waiters + 1;
    var queued := With(s, sh.(waiters := ticket), c, CheckCap(ticket));
    var last := if cfg.maxWaiters > 0 && ticket > cfg.maxWaiters then LeaveRejected(ticket) else Blocked(ticket);
    OneStep(cfg, s, c, 3, With(s, sh, c, JoinQueue));
    assert s.callers[c := JoinQueue][c := CheckCap(ticket)] == queued.callers;
    OneStep(cfg, With(s, sh, c, JoinQueue), c, 2, queued);
    assert queued.callers[c := last] == s.callers[c := last];
    OneStep(cfg, queued, c, 1, With(s, sh.(waiters := ticket), c, last));
  }

  /** TryExecute leaves instead of waiting, with nothing held. */
  lemma BusyTryLeaves(cfg: Config, s: State, c: nat)
    requires c in s.callers && Yields(cfg, s.shared, s.callers[c]) && s.callers[c].tries
    ensures Alone(cfg, s, c, 1) == Some(State(Yielded(s.shared, s.callers[c]), s.callers - {c}))
  {
    OneStep(cfg, s, c, 1, State(Yielded(s.shared, s.callers[c]), s.callers - {c}));
  }

  /** A waiter woken by its context, its timer or the close leaves the queue without a slot. */
  lemma WaiterGivesUp(cfg: Config, s: State, c: nat, ticket: int, cause: Wake)
    requires c in s.callers && s.callers[c] == Blocked(ticket) && cause != Slot
    requires cause.ClosedSignal? ==> s.shared.closedCh
    ensures Enabled(cfg, s, WakeUp(c, cause))
    ensures Alone(cfg, Apply(cfg, s, WakeUp(c, cause)), c, 1)
      == Some(State(s.shared.(waiters := s.shared.waiters - 1), s.callers - {c}))
  {
    var woken := Apply(cfg, s, WakeUp(c, cause));
    assert woken == With(s, s.shared, c, LeaveQueue(ticket, false));
    assert woken.callers - {c} == s.callers - {c};
    OneStep(cfg, woken, c, 1, State(s.shared.(waiters := s.shared.waiters - 1), s.callers - {c}));
  }

  /** Close wakes everyone who waits. */
  lemma CloseWakesWaiters(cfg: Config, s: State, c: nat)
    requires c in s.callers && s.callers[c].Blocked?
    ensures Enabled(cfg, s, StoreClosed) && Enabled(cfg, Apply(cfg, s, StoreClosed), CloseChannel)
    ensures var t := Apply(cfg, Apply(cfg, s, StoreClosed), CloseChannel);
      t.callers == s.callers && t.shared.closed && Enabled(cfg, t, WakeUp(c, ClosedSignal))
  {
  }

  /** A slot that came too late, after close or with the context done, goes back, and a waiter leaves the queue. */
  lemma LateSlotGoesBack(cfg: Config, s: State, c: nat, ticket: nat)
    requires c in s.callers && s.callers[c] in {RefundClosed(ticket), RefundCtx(ticket)} && s.shared.sem > 0
    ensures var queued := if ticket > 0 then 1 else 0;
      Alone(cfg, s, c, 1 + queued)
      == Some(State(s.shared.(sem := s.shared.sem - 1, waiters := s.shared.waiters - queued), s.callers - {c}))
  {
    var sh := s.shared.(sem := s.shared.sem - 1);
    if ticket > 0 {
      var leaving := With(s, sh, c, LeaveQueue(ticket, false));
      OneStep(cfg, s, c, 2, leaving);
      assert leaving.callers - {c} == s.callers - {c};
      OneStep(cfg, leaving, c, 1, State(sh.(waiters := sh.waiters - 1), s.callers - {c}));
    } else {
      OneStep(cfg, s, c, 1, State(sh, s.callers - {c}));
    }
  }
}
