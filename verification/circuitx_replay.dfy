/** A real breaker, driven by any sequence of calls, goes through the states of a run. */
module CircuitxReplay {
  import opened CircuitxBreaker
  import opened CircuitxRuns

  /** What callers do; a finished callback reports its result and the flags it set. */
  datatype Ask =
    | AskEnter(id: nat, now: int)
    | AskState(now: int)
    | AskFinish(id: nat, outcome: Outcome, now: int)
    | AskRelease(id: nat)
    | AskReset

  function EventOf(cfg: Config, a: Ask): Event {
    match a
    case AskEnter(id, now) => Enter(id, now)
    case AskState(now) => Query(now)
    case AskFinish(id, outcome, now) => Finish(id, VerdictOf(cfg, outcome), now)
    case AskRelease(id) => Release(id)
    case AskReset => Event.ResetBreaker
  }

  function EventsOf(cfg: Config, asked: seq<Ask>): seq<Event> {
    if asked == [] then [] else [EventOf(cfg, asked[0])] + EventsOf(cfg, asked[1..])
  }

  /** The edges of the state along a run, each once. */
  function EdgesAlong(cfg: Config, s: Sys, evs: seq<Event>): seq<(State, State)>
    requires Performs(cfg, s, evs)
    decreases |evs|
  {
    if evs == [] then []
    else
      var t := Apply(cfg, s, evs[0]);
      Edge(s.core.state, t.core.state) + EdgesAlong(cfg, t, evs[1..])
  }

  /** One request of a caller is one event of the run; calls are the admitted ones with their state and generation. */
  method Perform(b: Breaker, calls: map<nat, Call>, a: Ask, ghost s: Sys) returns (after: map<nat, Call>)
    requires b.CoreNow() == s.core && calls == s.calls && Enabled(s, EventOf(b.cfg, a))
    modifies b
    ensures var t := Apply(b.cfg, s, EventOf(b.cfg, a));
      b.CoreNow() == t.core && after == t.calls && b.edges == old(b.edges) + Edge(s.core.state, t.core.state)
  {
    hide Promote, Admits, Settle, VerdictOf, ReleaseProbe, Edge;
    after := calls;
    match a
    case AskEnter(id, now) =>
      var state, gen, ok := b.TryAdmit(now);
      EnteredAs(b.cfg, s.core, now);
      if ok {
        after := calls[id := Call(state, gen, Running)];
      }
    case AskState(now) =>
      var state := b.StateNow(now);
    case AskFinish(id, outcome, now) =>
      b.SettleRun(outcome, calls[id].admitState, calls[id].gen, now);
      after := calls[id := calls[id].(stage := Settled)];
    case AskRelease(id) =>
      NoEdge(s.core, calls[id].gen);
      if calls[id].admitState == HalfOpen {
        b.FreeProbe(calls[id].gen);
      }
      after := calls[id := calls[id].(stage := Done)];
    case AskReset =>
      b.ResetBreaker();
  }

  /** Taking a probe slot changes neither state nor generation. */
  lemma EnteredAs(cfg: Config, c: Core, now: int)
    ensures var p, t := Promote(cfg, c, now), Admit(cfg, c, now);
      t.state == p.state && t.generation == p.generation
  {
  }

  lemma NoEdge(c: Core, gen: nat)
    ensures ReleaseProbe(c, gen).state == c.state && Edge(c.state, c.state) == []
  {
  }

  /** From New, any calls in any order: the core is that of the run, and the hook saw every edge exactly once. */
  method Replay(cfg: Config, start: int, asked: seq<Ask>) returns (b: Breaker)
    requires cfg.Valid() && Performs(cfg, Init(start), EventsOf(cfg, asked))
    ensures fresh(b) && b.cfg == cfg
    ensures b.CoreNow() == RunFrom(cfg, Init(start), EventsOf(cfg, asked)).core
    ensures b.edges == EdgesAlong(cfg, Init(start), EventsOf(cfg, asked))
  {
    hide Enabled, Apply, EventOf, Edge;
    b := new Breaker(cfg);
    var calls: map<nat, Call> := map[];
    ghost var s, evs := Init(start), EventsOf(cfg, asked);
    for n := 0 to |asked|
      invariant b.cfg == cfg && fresh(b) && b.CoreNow() == s.core && calls == s.calls
      invariant var left := EventsOf(cfg, asked[n..]);
        && Performs(cfg, s, left) && RunFrom(cfg, s, left) == RunFrom(cfg, Init(start), evs)
        && b.edges + EdgesAlong(cfg, s, left) == EdgesAlong(cfg, Init(start), evs)
    {
      assert asked[n..][1..] == asked[n + 1..];
      ghost var e, later := EventOf(cfg, asked[n]), EventsOf(cfg, asked[n + 1..]);
      assert EventsOf(cfg, asked[n..]) == [e] + later && ([e] + later)[1..] == later;
      calls := Perform(b, calls, asked[n], s);
      s := Apply(cfg, s, e);
    }
  }

  /** An ordinary error: no panic, no cancellation, failureIf says yes, no flag set by the callback. */
  predicate IsPlainFailure(o: Outcome) {
    o.result == Failed(false, false, true) && !o.skipFailure && !o.tripped
  }

  /** Only settlements of live calls, each with an ordinary error. */
  predicate PlainFailures(s: Sys, asked: seq<Ask>) {
    forall i :: 0 <= i < |asked| ==>
      asked[i].AskFinish? && IsPlainFailure(asked[i].outcome)
      && asked[i].id in s.calls && s.calls[asked[i].id].gen == s.core.generation
  }

  /** One more failure in a row: below maxFailures the circuit stays closed, at maxFailures it opens. */
  lemma OneMoreFailure(cfg: Config, s: Sys, a: Ask)
    requires cfg.Valid() && s.core.state == Closed && s.core.failures < cfg.maxFailures
    requires PlainFailures(s, [a]) && Enabled(s, EventOf(cfg, a))
    ensures var t := Apply(cfg, s, EventOf(cfg, a));
      && t.core.generation == s.core.generation && t.calls.Keys == s.calls.Keys
      && (forall id :: id in s.calls ==> t.calls[id].gen == s.calls[id].gen)
      && t.core.failures == s.core.failures + 1
      && t.core.state == if s.core.failures + 1 < cfg.maxFailures then Closed else Open
  {
    assert [a][0] == a;
  }

  /** k ordinary errors in a row take a closed circuit that has seen none to Open exactly if k is maxFailures. */
  lemma {:induction false} FailuresInARow(cfg: Config, s: Sys, asked: seq<Ask>)
    requires cfg.Valid() && s.core.state == Closed && s.core.failures + |asked| <= cfg.maxFailures
    requires s.core.failures < cfg.maxFailures
    requires PlainFailures(s, asked) && Performs(cfg, s, EventsOf(cfg, asked))
    ensures var t := RunFrom(cfg, s, EventsOf(cfg, asked)).core;
      && t.state == (if s.core.failures + |asked| < cfg.maxFailures then Closed else Open)
      && t.failures == s.core.failures + |asked|
    decreases |asked|
  {
    hide Apply, Enabled, EventOf;
    if asked != [] {
      var a, later := asked[0], asked[1..];
      var e := EventOf(cfg, a);
      assert EventsOf(cfg, asked) == [e] + EventsOf(cfg, later) && ([e] + EventsOf(cfg, later))[1..] == EventsOf(cfg, later);
      assert PlainFailures(s, [a]) by {
        assert [a][0] == asked[0];
      }
      OneMoreFailure(cfg, s, a);
      var t := Apply(cfg, s, e);
      assert PlainFailures(t, later) by {
        assert forall i :: 0 <= i < |later| ==> later[i] == asked[i + 1];
      }
      if later != [] {
        FailuresInARow(cfg, t, later);
      }
    }
  }

  /** A new breaker and k calls one after the other, each ending in an ordinary error. */
  method FailTimes(cfg: Config, now: int, k: nat) returns (b: Breaker)
    requires cfg.Valid() && k <= cfg.maxFailures
    ensures b.state == if k < cfg.maxFailures then Closed else Open
    ensures b.totalFail == k && b.rejected == 0 && b.trips == if k < cfg.maxFailures then 0 else 1
  {
    b := new Breaker(cfg);
    for n := 0 to k
      invariant fresh(b) && b.cfg == cfg && b.totalFail == n && b.rejected == 0 && b.generation == 0
      invariant b.failures == n && b.state == (if n < cfg.maxFailures then Closed else Open)
      invariant b.trips == if n < cfg.maxFailures then 0 else 1
    {
      var state, gen, ok := b.TryAdmit(now);
      b.SettleRun(Outcome(Failed(false, false, true), false, false), state, gen, now);
    }
  }
}
