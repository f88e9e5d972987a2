/**
 Runs of the breaker with any number of calls in flight. One step is one
 critical section: promotion and admission together, one settlement, one
 deferred probe release, one Reset. A call keeps the state and generation it
 was admitted in; identifiers are never reused.
 */
module CircuitxRuns {
  import opened CircuitxBreaker
  import opened Census

  datatype Stage = Running | Settled | Done

  datatype Call = Call(admitState: State, gen: nat, stage: Stage)

  datatype Sys = Sys(core: Core, calls: map<nat, Call>, clock: int)

  datatype Event =
    | Enter(id: nat, now: int)               // tryAdmit; a rejected call leaves no trace
    | Query(now: int)                        // State()
    | Finish(id: nat, verdict: Verdict, now: int)
    | Release(id: nat)                       // the deferred releaseProbe
    | ResetBreaker

  function Init(now: int): Sys {
    Sys(Fresh, map[], now)
  }

  predicate Enabled(s: Sys, e: Event) {
    match e
    case Enter(id, now) => id !in s.calls && now >= s.clock
    case Query(now) => now >= s.clock
    case Finish(id, _, now) => id in s.calls && s.calls[id].stage == Running && now >= s.clock
    case Release(id) => id in s.calls && s.calls[id].stage == Settled
    case ResetBreaker => true
  }

  predicate LetIn(cfg: Config, s: Sys, e: Event) {
    e.Enter? && Admits(cfg, Promote(cfg, s.core, e.now))
  }

  function CoreAfter(cfg: Config, s: Sys, e: Event): Core
    requires Enabled(s, e)
  {
    match e
    case Enter(_, now) => Admit(cfg, s.core, now)
    case Query(now) => Promote(cfg, s.core, now)
    case Finish(id, v, now) => Settle(cfg, s.core, v, s.calls[id].gen, now)
    case Release(id) =>
      if s.calls[id].admitState == HalfOpen then ReleaseProbe(s.core, s.calls[id].gen) else s.core
    case ResetBreaker => Reset(s.core)
  }

  function CallsAfter(cfg: Config, s: Sys, e: Event): map<nat, Call>
    requires Enabled(s, e)
  {
    match e
    case Enter(id, now) =>
      var p := Promote(cfg, s.core, now);
      if Admits(cfg, p) then s.calls[id := Call(p.state, p.generation, Running)] else s.calls
    case Finish(id, _, _) => s.calls[id := s.calls[id].(stage := Settled)]
    case Release(id) => s.calls[id := s.calls[id].(stage := Done)]
    case _ => s.calls
  }

  function ClockAfter(s: Sys, e: Event): int {
    match e
    case Enter(_, now) => now
    case Query(now) => now
    case Finish(_, _, now) => now
    case _ => s.clock
  }

  function Apply(cfg: Config, s: Sys, e: Event): Sys
    requires Enabled(s, e)
  {
    Sys(CoreAfter(cfg, s, e), CallsAfter(cfg, s, e), ClockAfter(s, e))
  }

  /** evs can be performed from s, one after the other. */
  predicate Performs(cfg: Config, s: Sys, evs: seq<Event>)
    decreases |evs|
  {
    evs == [] || (Enabled(s, evs[0]) && Performs(cfg, Apply(cfg, s, evs[0]), evs[1..]))
  }

  function RunFrom(cfg: Config, s: Sys, evs: seq<Event>): Sys
    requires Performs(cfg, s, evs)
    decreases |evs|
  {
    if evs == [] then s else RunFrom(cfg, Apply(cfg, s, evs[0]), evs[1..])
  }

  // ----- generation isolation

  /** A settlement or release of a call admitted in a generation that has ended. */
  predicate Stale(s: Sys, e: Event) {
    (e.Finish? || e.Release?) && e.id in s.calls && s.calls[e.id].gen != s.core.generation
  }

  /** A stale event changes no core field. */
  lemma StaleIsInert(cfg: Config, s: Sys, e: Event)
    requires Enabled(s, e) && Stale(s, e)
    ensures CoreAfter(cfg, s, e) == s.core
  {
  }

  /** evs without its stale events. */
  function Prune(cfg: Config, s: Sys, evs: seq<Event>): seq<Event>
    requires Performs(cfg, s, evs)
    decreases |evs|
  {
    if evs == [] then
      []
    else
      (if Stale(s, evs[0]) then [] else [evs[0]]) + Prune(cfg, Apply(cfg, s, evs[0]), evs[1..])
  }

  /** The core states a run goes through, each change once. */
  function Changes(cfg: Config, s: Sys, evs: seq<Event>): seq<Core>
    requires Performs(cfg, s, evs)
    decreases |evs|
  {
    if evs == [] then
      []
    else
      var t := Apply(cfg, s, evs[0]);
      (if t.core == s.core then [] else [t.core]) + Changes(cfg, t, evs[1..])
  }

  /** s and t agree on the core and on every call of the live generation; older calls may lag behind in t. */
  ghost predicate AgreeOnLive(s: Sys, t: Sys) {
    && s.core == t.core && t.clock <= s.clock && s.calls.Keys == t.calls.Keys
    && (forall id :: id in s.calls ==>
          && s.calls[id].gen == t.calls[id].gen <= s.core.generation
          && (s.calls[id].gen == s.core.generation ==> s.calls[id] == t.calls[id]))
  }

  lemma GenerationNeverFalls(cfg: Config, s: Sys, e: Event)
    requires Enabled(s, e)
    ensures s.core.generation <= CoreAfter(cfg, s, e).generation
  {
  }

  /** A live event does the same on both sides. */
  lemma LiveStepAgrees(cfg: Config, s: Sys, t: Sys, e: Event)
    requires AgreeOnLive(s, t) && Enabled(s, e) && !Stale(s, e)
    ensures Enabled(t, e) && AgreeOnLive(Apply(cfg, s, e), Apply(cfg, t, e))
  {
    GenerationNeverFalls(cfg, s, e);
    assert CoreAfter(cfg, s, e) == CoreAfter(cfg, t, e);
  }

  /** A stale event may be dropped on one side. */
  lemma StaleStepAgrees(cfg: Config, s: Sys, t: Sys, e: Event)
    requires AgreeOnLive(s, t) && Enabled(s, e) && Stale(s, e)
    ensures AgreeOnLive(Apply(cfg, s, e), t)
  {
    StaleIsInert(cfg, s, e);
  }

  lemma {:induction false} PruneAgrees(cfg: Config, s: Sys, t: Sys, evs: seq<Event>)
    requires Performs(cfg, s, evs) && AgreeOnLive(s, t)
    ensures var kept := Prune(cfg, s, evs);
      && Performs(cfg, t, kept)
      && Changes(cfg, t, kept) == Changes(cfg, s, evs)
      && RunFrom(cfg, t, kept).core == RunFrom(cfg, s, evs).core
    decreases |evs|
  {
    if evs != [] {
      var e, rest := evs[0], evs[1..];
      var kept := Prune(cfg, s, evs);
      if Stale(s, e) {
        StaleIsInert(cfg, s, e);
        StaleStepAgrees(cfg, s, t, e);
        assert kept == Prune(cfg, Apply(cfg, s, e), rest);
        PruneAgrees(cfg, Apply(cfg, s, e), t, rest);
      } else {
        LiveStepAgrees(cfg, s, t, e);
        PruneAgrees(cfg, Apply(cfg, s, e), Apply(cfg, t, e), rest);
        assert kept[0] == e && kept[1..] == Prune(cfg, Apply(cfg, s, e), rest);
      }
    }
  }

  /**
   Deleting every settlement and release of calls whose generation has ended
   leaves a run that can still be performed and goes through exactly the same
   core states: a call has no influence beyond the generation it entered in.
   */
  lemma GenerationsAreIsolated(cfg: Config, now: int, evs: seq<Event>)
    requires Performs(cfg, Init(now), evs)
    ensures var kept := Prune(cfg, Init(now), evs);
      && Performs(cfg, Init(now), kept)
      && Changes(cfg, Init(now), kept) == Changes(cfg, Init(now), evs)
      && RunFrom(cfg, Init(now), kept).core == RunFrom(cfg, Init(now), evs).core
  {
    PruneAgrees(cfg, Init(now), Init(now), evs);
  }

  /** Within one generation the state changes at most once, and only to Open. */
  lemma {:induction false} OneChangePerGeneration(cfg: Config, s: Sys, evs: seq<Event>)
    requires Performs(cfg, s, evs)
    ensures var t := RunFrom(cfg, s, evs);
      && s.core.generation <= t.core.generation
      && (s.core.generation == t.core.generation ==>
            t.core.state == s.core.state || (s.core.state != Open && t.core.state == Open))
    decreases |evs|
  {
    if evs != [] {
      GenerationNeverFalls(cfg, s, evs[0]);
      SameGenerationStep(cfg, s, evs[0]);
      OneChangePerGeneration(cfg, Apply(cfg, s, evs[0]), evs[1..]);
    }
  }

  lemma SameGenerationStep(cfg: Config, s: Sys, e: Event)
    requires Enabled(s, e)
    ensures var c := CoreAfter(cfg, s, e);
      c.generation == s.core.generation ==> c.state == s.core.state || (s.core.state != Open && c.state == Open)
  {
  }

  // ----- what the counters mean

  /** The generation in progress: the state it began in and the verdicts settled in it, in order. */
  datatype Epoch = Epoch(began: State, verdicts: seq<Verdict>)

  function EpochAfter(cfg: Config, s: Sys, ep: Epoch, e: Event): Epoch
    requires Enabled(s, e)
  {
    var c := CoreAfter(cfg, s, e);
    if c.generation != s.core.generation then Epoch(c.state, [])
    else if e.Finish? && !Stale(s, e) && s.core.state != Open then ep.(verdicts := ep.verdicts + [e.verdict])
    else ep
  }

  predicate IsFailure(v: Verdict) {
    v.Failure? || v.ForcedFailure?
  }

  /** Counted failures since the last success. */
  function FailureRun(vs: seq<Verdict>): nat {
    if vs == [] then 0
    else
      var v, before := vs[|vs| - 1], vs[..|vs| - 1];
      if v.Success? then 0 else FailureRun(before) + (if IsFailure(v) then 1 else 0)
  }

  function Successes(vs: seq<Verdict>): nat {
    if vs == [] then 0 else Successes(vs[..|vs| - 1]) + (if vs[|vs| - 1].Success? then 1 else 0)
  }

  predicate Opens(v: Verdict) {
    IsFailure(v) || v.TripOnly?
  }

  /** Probes of the live generation that still occupy the budget. */
  ghost function Occupies(gen: nat): Call -> bool {
    (call: Call) => call.gen == gen && call.stage != Done
  }

  ghost predicate EpochInv(cfg: Config, s: Sys, ep: Epoch) {
    var c := s.core;
    && CountersMean(cfg, c, ep)
    && (forall id :: id in s.calls ==>
          s.calls[id].gen <= c.generation && (s.calls[id].gen == c.generation ==> s.calls[id].admitState == ep.began))
    && (ep.began == HalfOpen ==> c.inflight == Count(s.calls, Occupies(c.generation)) <= cfg.halfOpenMax)
  }

  /** What the counters of a core in the live generation mean. */
  ghost predicate CountersMean(cfg: Config, c: Core, ep: Epoch) {
    && ep.began != Open && (c.state != Open ==> c.state == ep.began)
    && (c.state == Closed ==> c.failures == FailureRun(ep.verdicts) < cfg.maxFailures)
    && (c.state == HalfOpen ==>
          && c.probeSuccesses == Successes(ep.verdicts) < cfg.successThreshold
          && forall i :: 0 <= i < |ep.verdicts| ==> !Opens(ep.verdicts[i]))
    && c.trips <= c.generation + (if c.state == Open then 1 else 0)
  }

  lemma CountersSettle(cfg: Config, c: Core, ep: Epoch, v: Verdict, gen: nat, now: int)
    requires cfg.Valid() && CountersMean(cfg, c, ep)
    ensures var c' := Settle(cfg, c, v, gen, now);
      CountersMean(cfg, c',
        if c'.generation != c.generation then Epoch(c'.state, [])
        else if gen == c.generation && c.state != Open then ep.(verdicts := ep.verdicts + [v])
        else ep)
  {
    assert (ep.verdicts + [v])[..|ep.verdicts|] == ep.verdicts;
  }

  lemma CountersStep(cfg: Config, s: Sys, ep: Epoch, e: Event)
    requires cfg.Valid() && CountersMean(cfg, s.core, ep) && Enabled(s, e)
    ensures CountersMean(cfg, CoreAfter(cfg, s, e), EpochAfter(cfg, s, ep, e))
  {
    if e.Finish? {
      hide CountersMean, Settle;
      CountersSettle(cfg, s.core, ep, e.verdict, s.calls[e.id].gen, e.now);
    }
  }

  lemma CallsStep(cfg: Config, s: Sys, ep: Epoch, e: Event)
    requires cfg.Valid() && EpochInv(cfg, s, ep) && Enabled(s, e)
    ensures var t, ep' := Apply(cfg, s, e), EpochAfter(cfg, s, ep, e);
      forall id :: id in t.calls ==>
        t.calls[id].gen <= t.core.generation
        && (t.calls[id].gen == t.core.generation ==> t.calls[id].admitState == ep'.began)
  {
    GenerationNeverFalls(cfg, s, e);
  }

  lemma NobodyInNewGeneration(s: Sys, gen: nat)
    requires forall id :: id in s.calls ==> s.calls[id].gen < gen
    ensures Count(s.calls, Occupies(gen)) == 0
  {
    assert Where(s.calls, Occupies(gen)) == {};
  }

  lemma BudgetStep(cfg: Config, s: Sys, ep: Epoch, e: Event)
    requires cfg.Valid() && EpochInv(cfg, s, ep) && Enabled(s, e)
    ensures var t, ep' := Apply(cfg, s, e), EpochAfter(cfg, s, ep, e);
      ep'.began == HalfOpen ==>
        t.core.inflight == Count(t.calls, Occupies(t.core.generation)) <= cfg.halfOpenMax
  {
    var t := Apply(cfg, s, e);
    var p := Occupies(t.core.generation);
    match e
    case Enter(id, now) =>
      var mid := Promote(cfg, s.core, now);
      if mid.generation != s.core.generation {
        NobodyInNewGeneration(s, mid.generation);
      }
      if Admits(cfg, mid) {
        Put(s.calls, id, Call(mid.state, mid.generation, Running), p);
      }
    case Query(now) =>
      if t.core.generation != s.core.generation {
        NobodyInNewGeneration(s, t.core.generation);
      }
    case Finish(id, v, _) =>
      Put(s.calls, id, s.calls[id].(stage := Settled), p);
    case Release(id) =>
      Put(s.calls, id, s.calls[id].(stage := Done), p);
    case ResetBreaker =>
  }

  function EpochOf(cfg: Config, s: Sys, ep: Epoch, evs: seq<Event>): Epoch
    requires Performs(cfg, s, evs)
    decreases |evs|
  {
    if evs == [] then ep else EpochOf(cfg, Apply(cfg, s, evs[0]), EpochAfter(cfg, s, ep, evs[0]), evs[1..])
  }

  lemma {:induction false} EpochInvAlong(cfg: Config, s: Sys, ep: Epoch, evs: seq<Event>)
    requires cfg.Valid() && EpochInv(cfg, s, ep) && Performs(cfg, s, evs)
    ensures EpochInv(cfg, RunFrom(cfg, s, evs), EpochOf(cfg, s, ep, evs))
    decreases |evs|
  {
    if evs != [] {
      CountersStep(cfg, s, ep, evs[0]);
      CallsStep(cfg, s, ep, evs[0]);
      BudgetStep(cfg, s, ep, evs[0]);
      EpochInvAlong(cfg, Apply(cfg, s, evs[0]), EpochAfter(cfg, s, ep, evs[0]), evs[1..]);
    }
  }

  /**
   In every reachable state the counters are functions of the history of the
   live generation: failures is the run of counted failures, probeSuccesses
   the number of successes of a generation no failure or trip has touched,
   inflight the number of its unreleased probes, and trips is bounded by the
   generation.
   */
  lemma CountersRefineHistory(cfg: Config, now: int, evs: seq<Event>)
    requires cfg.Valid() && Performs(cfg, Init(now), evs)
    ensures EpochInv(cfg, RunFrom(cfg, Init(now), evs), EpochOf(cfg, Init(now), Epoch(Closed, []), evs))
  {
    NobodyInNewGeneration(Init(now), 0);
    EpochInvAlong(cfg, Init(now), Epoch(Closed, []), evs);
  }

  /** Closed trips exactly on maxFailures counted failures in a row or on a Trip. */
  lemma ClosedTripsExactly(cfg: Config, s: Sys, ep: Epoch, e: Event)
    requires cfg.Valid() && EpochInv(cfg, s, ep) && Enabled(s, e) && s.core.state == Closed
    ensures CoreAfter(cfg, s, e).state == Open <==>
      && e.Finish? && !Stale(s, e)
      && (e.verdict.TripOnly? || e.verdict.ForcedFailure?
          || (e.verdict.Failure? && FailureRun(ep.verdicts + [e.verdict]) == cfg.maxFailures))
    ensures CoreAfter(cfg, s, e).state != HalfOpen
  {
    if e.Finish? {
      assert (ep.verdicts + [e.verdict])[..|ep.verdicts|] == ep.verdicts;
    }
  }

  /** HalfOpen heals exactly on the successThreshold-th success and reopens exactly on a failure or trip. */
  lemma HalfOpenSettlesExactly(cfg: Config, s: Sys, ep: Epoch, e: Event)
    requires cfg.Valid() && EpochInv(cfg, s, ep) && Enabled(s, e) && s.core.state == HalfOpen
    ensures var c := CoreAfter(cfg, s, e);
      && (c.state == Closed <==>
            e.ResetBreaker? || (e.Finish? && !Stale(s, e) && e.verdict.Success?
                                && Successes(ep.verdicts + [e.verdict]) == cfg.successThreshold))
      && (c.state == Open <==> e.Finish? && !Stale(s, e) && Opens(e.verdict))
  {
    if e.Finish? {
      assert (ep.verdicts + [e.verdict])[..|ep.verdicts|] == ep.verdicts;
    }
  }

  /** Open ends if and only if someone asks once the timeout has passed, or by Reset. */
  lemma OpenEndsExactly(cfg: Config, s: Sys, e: Event)
    requires cfg.Valid() && Enabled(s, e) && s.core.state == Open
    ensures var t := Apply(cfg, s, e).core;
      && (t.state == HalfOpen <==> (e.Enter? || e.Query?) && e.now - s.core.lastOpen >= cfg.resetTimeout)
      && (t.state == Closed <==> e.ResetBreaker?)
      && (t.state != Open ==> t.generation == s.core.generation + 1 && t.probeSuccesses == 0)
      && (t.state == HalfOpen ==> t.inflight == if e.Enter? then 1 else 0)
  {
  }

  /** A call gets in exactly when the circuit is closed, its timeout has passed, or a probe slot is free. */
  lemma EntersExactly(cfg: Config, s: Sys, ep: Epoch, e: Event)
    requires cfg.Valid() && EpochInv(cfg, s, ep) && Enabled(s, e) && e.Enter?
    ensures var t, c := Apply(cfg, s, e), s.core;
      && (e.id in t.calls <==>
            || c.state == Closed
            || (c.state == Open && e.now - c.lastOpen >= cfg.resetTimeout)
            || (c.state == HalfOpen && Count(s.calls, Occupies(c.generation)) < cfg.halfOpenMax))
      && (e.id in t.calls ==> t.calls == s.calls[e.id := Call(t.core.state, t.core.generation, Running)])
      && (e.id !in t.calls ==> t.calls == s.calls)
  {
    hide Count, Where;
  }

  /** In every run from New: who gets in, told from the state and the probes still out. */
  lemma AdmissionInRuns(cfg: Config, start: int, evs: seq<Event>, id: nat, now: int)
    requires cfg.Valid() && Performs(cfg, Init(start), evs)
    requires Enabled(RunFrom(cfg, Init(start), evs), Enter(id, now))
    ensures var s := RunFrom(cfg, Init(start), evs);
      id in Apply(cfg, s, Enter(id, now)).calls <==>
        || s.core.state == Closed
        || (s.core.state == Open && now - s.core.lastOpen >= cfg.resetTimeout)
        || (s.core.state == HalfOpen && Count(s.calls, Occupies(s.core.generation)) < cfg.halfOpenMax)
  {
    hide EpochInv, Apply, Enabled, RunFrom, Performs;
    CountersRefineHistory(cfg, start, evs);
    EntersExactly(cfg, RunFrom(cfg, Init(start), evs), EpochOf(cfg, Init(start), Epoch(Closed, []), evs), Enter(id, now));
  }

  /** Reset closes the circuit from anywhere, in a new generation with nothing counted. */
  lemma ResetCloses(cfg: Config, s: Sys)
    ensures var t := Apply(cfg, s, Event.ResetBreaker);
      && t.core.state == Closed && t.core.failures == 0 && t.core.inflight == 0 && t.core.probeSuccesses == 0
      && t.core.generation == s.core.generation + 1 && t.core.trips == s.core.trips && t.calls == s.calls
  {
  }
}
