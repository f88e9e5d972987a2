/**
 How often a failing downstream is probed. In runs where every settled call is
 a counted failure and nobody calls Reset, trips keep resetTimeout apart and
 each of the periods between them lets at most halfOpenMax callbacks through.
 */
module CircuitxTiming {
  import opened CircuitxBreaker
  import opened CircuitxRuns
  import opened Arith

  /** Times of the trips so far, promotions to HalfOpen, and callbacks admitted after the first trip. */
  datatype Tally = Tally(trips: seq<int>, promotions: nat, admitted: nat)

  predicate OnlyFails(e: Event) {
    !e.ResetBreaker? && (e.Finish? ==> IsFailure(e.verdict))
  }

  function TallyAfter(cfg: Config, s: Sys, h: Tally, e: Event): Tally
    requires Enabled(s, e)
  {
    var c := CoreAfter(cfg, s, e);
    Tally(if e.Finish? && c.trips > s.core.trips then h.trips + [e.now] else h.trips,
          h.promotions + (if s.core.state == Open && c.state == HalfOpen then 1 else 0),
          h.admitted + (if h.trips != [] && LetIn(cfg, s, e) then 1 else 0))
  }

  function TallyOf(cfg: Config, s: Sys, h: Tally, evs: seq<Event>): Tally
    requires Performs(cfg, s, evs)
    decreases |evs|
  {
    if evs == [] then h else TallyOf(cfg, Apply(cfg, s, evs[0]), TallyAfter(cfg, s, h, evs[0]), evs[1..])
  }

  predicate SpacedBy(times: seq<int>, gap: int) {
    forall i :: 0 < i < |times| ==> times[i] - times[i - 1] >= gap
  }

  /** Before the first trip the breaker has only been Closed. */
  ghost predicate Untripped(s: Sys, h: Tally) {
    s.core.state == Closed && s.core.trips == 0 && h == Tally([], 0, 0)
  }

  /** After it, promotions are paid for with elapsed timeouts and admissions with promotions. */
  ghost predicate Probing(cfg: Config, s: Sys, h: Tally) {
    var c := s.core;
    && h.trips != [] && SpacedBy(h.trips, cfg.resetTimeout)
    && c.trips == |h.trips|
    && c.lastOpen == h.trips[|h.trips| - 1] <= s.clock
    && c.state != Closed
    && (c.state == Open ==>
          && h.promotions * cfg.resetTimeout <= c.lastOpen - h.trips[0]
          && h.admitted <= cfg.halfOpenMax * h.promotions)
    && (c.state == HalfOpen ==>
          && h.promotions >= 1
          && (h.promotions - 1) * cfg.resetTimeout <= c.lastOpen - h.trips[0]
          && s.clock - c.lastOpen >= cfg.resetTimeout
          && 0 <= c.inflight <= cfg.halfOpenMax
          && h.admitted <= cfg.halfOpenMax * (h.promotions - 1) + c.inflight)
  }

  /** While probing, nobody of the live half-open generation has settled: the first to do so reopens. */
  ghost predicate LiveProbesRun(s: Sys) {
    && (forall id :: id in s.calls ==> s.calls[id].gen <= s.core.generation)
    && (s.core.state == HalfOpen ==>
          forall id :: id in s.calls && s.calls[id].gen == s.core.generation ==> s.calls[id].stage == Running)
  }

  ghost predicate TimingInv(cfg: Config, s: Sys, h: Tally) {
    (Untripped(s, h) || Probing(cfg, s, h)) && LiveProbesRun(s)
  }

  lemma LiveProbesStep(cfg: Config, s: Sys, e: Event)
    requires cfg.Valid() && LiveProbesRun(s) && Enabled(s, e) && OnlyFails(e)
    ensures LiveProbesRun(Apply(cfg, s, e))
  {
    GenerationNeverFalls(cfg, s, e);
  }

  lemma FirstTripStep(cfg: Config, s: Sys, h: Tally, e: Event)
    requires cfg.Valid() && Untripped(s, h) && Enabled(s, e) && OnlyFails(e)
    ensures var t, k := Apply(cfg, s, e), TallyAfter(cfg, s, h, e);
      Untripped(t, k) || Probing(cfg, t, k)
  {
  }

  /** Settling while probing: a live failure reopens one timeout or more after the last trip. */
  lemma ProbingFinish(cfg: Config, s: Sys, h: Tally, e: Event)
    requires cfg.Valid() && Probing(cfg, s, h) && LiveProbesRun(s) && Enabled(s, e) && OnlyFails(e) && e.Finish?
    ensures Probing(cfg, Apply(cfg, s, e), TallyAfter(cfg, s, h, e))
  {
    Distribute(h.promotions, cfg.resetTimeout);
    Distribute(h.promotions - 1, cfg.halfOpenMax);
    var k := TallyAfter(cfg, s, h, e);
    if k.trips != h.trips {
      assert k.trips[..|h.trips|] == h.trips;
      assert forall i :: 0 <= i < |h.trips| ==> k.trips[i] == h.trips[i];
    }
  }

  /** Entering or asking while probing: a promotion costs one elapsed timeout, an admission one probe slot. */
  lemma ProbingEnter(cfg: Config, s: Sys, h: Tally, e: Event)
    requires cfg.Valid() && Probing(cfg, s, h) && Enabled(s, e) && (e.Enter? || e.Query?)
    ensures Probing(cfg, Apply(cfg, s, e), TallyAfter(cfg, s, h, e))
  {
    Distribute(h.promotions, cfg.resetTimeout);
    Distribute(h.promotions, cfg.halfOpenMax);
  }

  lemma ProbingStep(cfg: Config, s: Sys, h: Tally, e: Event)
    requires cfg.Valid() && Probing(cfg, s, h) && LiveProbesRun(s) && Enabled(s, e) && OnlyFails(e)
    ensures Probing(cfg, Apply(cfg, s, e), TallyAfter(cfg, s, h, e))
  {
    match e
    case Enter(_, _) => ProbingEnter(cfg, s, h, e);
    case Query(_) => ProbingEnter(cfg, s, h, e);
    case Finish(_, _, _) => ProbingFinish(cfg, s, h, e);
    case Release(_) =>
  }

  lemma {:induction false} TimingInvAlong(cfg: Config, s: Sys, h: Tally, evs: seq<Event>)
    requires cfg.Valid() && TimingInv(cfg, s, h) && Performs(cfg, s, evs)
    requires forall i :: 0 <= i < |evs| ==> OnlyFails(evs[i])
    ensures TimingInv(cfg, RunFrom(cfg, s, evs), TallyOf(cfg, s, h, evs))
    decreases |evs|
  {
    if evs != [] {
      LiveProbesStep(cfg, s, evs[0]);
      if Untripped(s, h) {
        FirstTripStep(cfg, s, h, evs[0]);
      } else {
        ProbingStep(cfg, s, h, evs[0]);
      }
      TimingInvAlong(cfg, Apply(cfg, s, evs[0]), TallyAfter(cfg, s, h, evs[0]), evs[1..]);
    }
  }

  lemma QuotientBound(p: int, w: int, x: int, m: int)
    requires w > 0 && m >= 0 && 0 <= p && p * w <= x
    ensures m * p <= m * (x / w)
  {
    var q := x / w;
    assert x == q * w + x % w;
    MulOrder(q + 1, p, w);
    MulOrder(p, q, m);
  }

  /**
   With a downstream that never recovers, trips are at least resetTimeout
   apart, and up to time T the breaker has admitted at most
   halfOpenMax * floor((T - t1) / resetTimeout) callbacks since its first trip
   at t1.
   */
  lemma ProbeRateIsBounded(cfg: Config, now: int, evs: seq<Event>)
    requires cfg.Valid() && Performs(cfg, Init(now), evs)
    requires forall i :: 0 <= i < |evs| ==> OnlyFails(evs[i])
    ensures var h, t := TallyOf(cfg, Init(now), Tally([], 0, 0), evs), RunFrom(cfg, Init(now), evs);
      && |h.trips| == t.core.trips
      && SpacedBy(h.trips, cfg.resetTimeout)
      && (h.trips != [] ==> h.admitted <= cfg.halfOpenMax * ((t.clock - h.trips[0]) / cfg.resetTimeout))
  {
    TimingInvAlong(cfg, Init(now), Tally([], 0, 0), evs);
    var h, t := TallyOf(cfg, Init(now), Tally([], 0, 0), evs), RunFrom(cfg, Init(now), evs);
    if h.trips != [] {
      Distribute(h.promotions, cfg.resetTimeout);
      Distribute(h.promotions - 1, cfg.halfOpenMax);
      QuotientBound(h.promotions, cfg.resetTimeout, t.clock - h.trips[0], cfg.halfOpenMax);
    }
  }
}
