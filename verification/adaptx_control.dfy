/**
 The windowed control loop on values: what one recorded sample does to the
 limit, the credit, the estimators and the window, and what holds after any
 number of samples when nobody calls ResetStats.
 */
module AdaptxControl {
  import opened Wrappers
  import opened AdaptxPool
  import opened AdaptxLaws
  import opened Arith

  /** The mutex-guarded fields that recordLocked moves, the permit pool and ring aside. */
  datatype Control = Control(limit: int, credit: real, est: Estimators, win: Window, seen: nat, incr: nat, decr: nat)

  /** One call of recordLocked: clock, in-flight count read, outcome, latency, random draws. */
  datatype Event = Event(now: int, inFlight: int, success: bool, latency: int, draws: Draws)

  function Start(cfg: Config, now: int): Control {
    Control(cfg.bounds.initialLimit, 0.0, Estimators(0.0, None), FreshWindow(now), 0, 0, 0)
  }

  /** The sample enters the window and lowers the minima. */
  function Observe(c: Control, e: Event): Control {
    var ns := e.latency as real;
    c.(seen := c.seen + 1,
       est := c.est.(minLat := LowerTo(c.est.minLat, ns)),
       win := Window(c.win.start, c.win.n + 1, c.win.fails + (if e.success then 0 else 1),
                     Max(c.win.maxInFlight, e.inFlight), c.win.rttSum + ns, LowerTo(c.win.minRTT, ns)))
  }

  /** The window closes when it is old enough and warmup is over. */
  predicate Closes(cfg: Config, c: Control, e: Event) {
    e.now - c.win.start >= cfg.sampleWindow && c.seen + 1 >= cfg.warmupSamples
  }

  function Close(cfg: Config, c: Control, now: int, d: Draws): Control
    requires cfg.targetLatency > 0.0
  {
    var (next, credit) := NextLimit(cfg, c.limit, c.credit, c.est, c.win, d);
    c.(limit := next, credit := credit,
       est := UpdateEstimators(cfg, c.est, Mean(c.win)),
       win := FreshWindow(now),
       incr := c.incr + (if next > c.limit then 1 else 0),
       decr := c.decr + (if next < c.limit then 1 else 0))
  }

  function Record(cfg: Config, c: Control, e: Event): Control
    requires cfg.targetLatency > 0.0
  {
    if Closes(cfg, c, e) then Close(cfg, Observe(c, e), e.now, e.draws) else Observe(c, e)
  }

  // ----- runs

  ghost predicate ValidEvents(evs: seq<Event>) {
    forall i :: 0 <= i < |evs| ==> evs[i].latency > 0 && evs[i].draws.Valid()
  }

  function Run(cfg: Config, c: Control, evs: seq<Event>): Control
    requires cfg.targetLatency > 0.0
  {
    if evs == [] then c else Record(cfg, Run(cfg, c, evs[..|evs| - 1]), evs[|evs| - 1])
  }

  /** How many windows evs closes, each of them one evaluation of the control law. */
  function Closings(cfg: Config, c: Control, evs: seq<Event>): nat
    requires cfg.targetLatency > 0.0
  {
    if evs == [] then
      0
    else
      var past := evs[..|evs| - 1];
      Closings(cfg, c, past) + (if Closes(cfg, Run(cfg, c, past), evs[|evs| - 1]) then 1 else 0)
  }

  /** The samples in the window in progress after evs, when w0 were in it before. */
  function WindowEvents(cfg: Config, c: Control, w0: seq<Event>, evs: seq<Event>): seq<Event>
    requires cfg.targetLatency > 0.0
  {
    if evs == [] then
      w0
    else
      var past, e := evs[..|evs| - 1], evs[|evs| - 1];
      if Closes(cfg, Run(cfg, c, past), e) then [] else WindowEvents(cfg, c, w0, past) + [e]
  }

  function Latencies(es: seq<Event>): seq<int> {
    if es == [] then [] else Latencies(es[..|es| - 1]) + [es[|es| - 1].latency]
  }

  /**
   A sample closes the window exactly when the window is old enough and warmup is over; otherwise it only joins it,
   and limit, credit, average and window start stay.
   */
  lemma WindowClosesExactly(cfg: Config, c: Control, e: Event)
    requires cfg.targetLatency > 0.0
    ensures var t := Record(cfg, c, e);
      && t.seen == c.seen + 1
      && if e.now - c.win.start >= cfg.sampleWindow && c.seen + 1 >= cfg.warmupSamples
         then t.win.start == e.now && t.win.n == 0 && t.win.fails == 0
         else
           && t.win.start == c.win.start && t.win.n == c.win.n + 1
           && t.limit == c.limit && t.credit == c.credit && t.est.avgLat == c.est.avgLat
  {
    hide NextLimit, UpdateEstimators, Mean;
  }

  predicate InBounds(cfg: Config, c: Control) {
    cfg.bounds.minLimit <= c.limit <= cfg.bounds.maxLimit
  }

  /** A run in two parts: the second starts where the first ended. */
  lemma {:induction false} RunSplits(cfg: Config, c: Control, a: seq<Event>, b: seq<Event>)
    requires cfg.targetLatency > 0.0
    ensures Run(cfg, c, a + b) == Run(cfg, Run(cfg, c, a), b)
    ensures Closings(cfg, c, a + b) == Closings(cfg, c, a) + Closings(cfg, Run(cfg, c, a), b)
  {
    hide Record, Closes;
    if b == [] {
      assert a + b == a;
    } else {
      var front := b[..|b| - 1];
      RunSplits(cfg, c, a, front);
      assert (a + b)[..|a + b| - 1] == a + front && (a + b)[|a + b| - 1] == b[|b| - 1];
    }
  }

  lemma {:induction false} LimitStaysInBounds(cfg: Config, c: Control, evs: seq<Event>)
    requires cfg.Valid() && InBounds(cfg, c)
    ensures InBounds(cfg, Run(cfg, c, evs))
  {
    if evs != [] {
      var past, e := evs[..|evs| - 1], evs[|evs| - 1];
      LimitStaysInBounds(cfg, c, past);
      var o := Observe(Run(cfg, c, past), e);
      NextLimitInBounds(cfg, o.limit, o.credit, o.est, o.win, e.draws);
    }
  }

  lemma ObserveKeeps(c: Control, e: Event)
    ensures var o := Observe(c, e);
      o.limit == c.limit && o.credit == c.credit && o.win.start == c.win.start
      && o.incr == c.incr && o.decr == c.decr && o.est.avgLat == c.est.avgLat && o.seen == c.seen + 1
  {
  }

  /** k closed windows take at least k sample windows of clock time, and the limit changed at most k times. */
  lemma {:induction false} AdjustmentsAreRateLimited(cfg: Config, c: Control, evs: seq<Event>)
    requires cfg.Valid()
    ensures var t, k := Run(cfg, c, evs), Closings(cfg, c, evs);
      && k * cfg.sampleWindow <= t.win.start - c.win.start
      && t.incr + t.decr <= c.incr + c.decr + k
  {
    hide Law, Jittered, Clamp, UpdateEstimators, Mean, Observe;
    if evs != [] {
      var past, e := evs[..|evs| - 1], evs[|evs| - 1];
      AdjustmentsAreRateLimited(cfg, c, past);
      Distribute(Closings(cfg, c, past), cfg.sampleWindow);
      ObserveKeeps(Run(cfg, c, past), e);
    }
  }

  lemma AimdRecordGain(cfg: Config, c: Control, e: Event)
    requires cfg.Valid() && cfg.algorithm == Aimd && e.draws.Valid()
    requires InBounds(cfg, c) && 0.0 <= c.credit < 1.0
    ensures var next := Record(cfg, c, e);
      && 0.0 <= next.credit < 1.0
      && next.limit as real + next.credit <=
         c.limit as real + c.credit + (if Closes(cfg, c, e) then cfg.increaseRate else 0.0)
  {
    hide NextLimit, UpdateEstimators, Mean;
    var o := Observe(c, e);
    AimdWindowGain(cfg, o.limit, o.credit, o.est, o.win, e.draws);
  }

  /** k windows' worth of growth. */
  function Growth(k: nat, rate: real): real {
    k as real * rate
  }

  lemma OneMoreRate(k: nat, rate: real)
    ensures Growth(k + 1, rate) == Growth(k, rate) + rate && Growth(0, rate) == 0.0
  {
  }

  /** From any state, k closed AIMD windows add at most k * increaseRate to limit plus credit. */
  lemma {:induction false} AimdGrowthIsLinear(cfg: Config, c: Control, evs: seq<Event>)
    requires cfg.Valid() && cfg.algorithm == Aimd && ValidEvents(evs) && InBounds(cfg, c) && 0.0 <= c.credit < 1.0
    ensures var t, k := Run(cfg, c, evs), Closings(cfg, c, evs);
      && 0.0 <= t.credit < 1.0
      && t.limit as real + t.credit <= c.limit as real + c.credit + Growth(k, cfg.increaseRate)
  {
    hide Record, Closes, Growth;
    OneMoreRate(0, cfg.increaseRate);
    if evs != [] {
      var past, e := evs[..|evs| - 1], evs[|evs| - 1];
      AimdGrowthIsLinear(cfg, c, past);
      LimitStaysInBounds(cfg, c, past);
      AimdRecordGain(cfg, Run(cfg, c, past), e);
      OneMoreRate(Closings(cfg, c, past), cfg.increaseRate);
    }
  }

  /** x * ratio^k. */
  function Decayed(x: real, ratio: real, k: nat): real {
    if k == 0 then x else Decayed(x, ratio, k - 1) * ratio
  }

  // ----- what the window counters count

  predicate AnyFailed(es: seq<Event>) {
    exists i :: 0 <= i < |es| && !es[i].success
  }

  function Failures(es: seq<Event>): nat {
    if es == [] then 0 else Failures(es[..|es| - 1]) + (if es[|es| - 1].success then 0 else 1)
  }

  lemma {:induction false} FailuresMeans(es: seq<Event>)
    ensures Failures(es) > 0 <==> AnyFailed(es)
  {
    if es != [] {
      var front := es[..|es| - 1];
      FailuresMeans(front);
      if AnyFailed(front) {
        var i :| 0 <= i < |front| && !front[i].success;
        assert !es[i].success;
      }
      assert forall i :: 0 <= i < |front| ==> front[i] == es[i];
    }
  }

  /** The window has counted the failures of es and holds their largest in-flight count, 0 if there is none larger. */
  ghost predicate CountersAgree(c: Control, es: seq<Event>) {
    && c.win.fails == Failures(es)
    && c.win.maxInFlight >= 0 && (forall i :: 0 <= i < |es| ==> es[i].inFlight <= c.win.maxInFlight)
    && (c.win.maxInFlight == 0 || exists i :: 0 <= i < |es| && es[i].inFlight == c.win.maxInFlight)
  }

  lemma ObserveCounts(c: Control, es: seq<Event>, e: Event)
    requires CountersAgree(c, es)
    ensures CountersAgree(Observe(c, e), es + [e])
  {
    var more, o := es + [e], Observe(c, e);
    assert more[..|es|] == es && more[|es|] == e;
    if o.win.maxInFlight == c.win.maxInFlight && c.win.maxInFlight != 0 {
      var i :| 0 <= i < |es| && es[i].inFlight == c.win.maxInFlight;
      assert more[i].inFlight == o.win.maxInFlight;
    }
  }

  /** In every run fails and maxInFlight are those of the samples since the last close. */
  lemma {:induction false} CountersAgreeInRuns(cfg: Config, c: Control, w0: seq<Event>, evs: seq<Event>)
    requires cfg.Valid() && CountersAgree(c, w0)
    ensures CountersAgree(Run(cfg, c, evs), WindowEvents(cfg, c, w0, evs))
  {
    hide Observe, CountersAgree, NextLimit, UpdateEstimators, Mean;
    if evs != [] {
      var past, e := evs[..|evs| - 1], evs[|evs| - 1];
      CountersAgreeInRuns(cfg, c, w0, past);
      var before := Run(cfg, c, past);
      ObserveCounts(before, WindowEvents(cfg, c, w0, past), e);
      FreshCounts(Run(cfg, c, evs), e.now);
    }
  }

  lemma FreshCounts(c: Control, now: int)
    ensures c.win == FreshWindow(now) ==> CountersAgree(c, [])
  {
  }

  /** Every window that evs closes has a failed sample in it. */
  predicate EveryClosingFails(cfg: Config, c: Control, w0: seq<Event>, evs: seq<Event>)
    requires cfg.targetLatency > 0.0
  {
    if evs == [] then
      true
    else
      var past, e := evs[..|evs| - 1], evs[|evs| - 1];
      EveryClosingFails(cfg, c, w0, past)
      && (Closes(cfg, Run(cfg, c, past), e) ==> AnyFailed(WindowEvents(cfg, c, w0, past) + [e]))
  }

  /** At the floor, or no higher than l0 cut k times. */
  predicate CutKTimes(cfg: Config, limit: int, l0: int, k: nat) {
    limit == cfg.bounds.minLimit || limit as real <= Decayed(l0 as real, cfg.decreaseRatio, k)
  }

  lemma AimdFailingRecord(cfg: Config, c: Control, es: seq<Event>, e: Event)
    requires cfg.Valid() && cfg.algorithm == Aimd && e.draws.Valid()
    requires InBounds(cfg, c)
    requires CountersAgree(c, es) && (Closes(cfg, c, e) ==> AnyFailed(es + [e]))
    ensures var next := Record(cfg, c, e);
      if Closes(cfg, c, e)
      then next.limit == Max(cfg.bounds.minLimit, Cut(cfg, c.limit))
      else next.limit == c.limit
  {
    hide NextLimit, UpdateEstimators, Mean;
    if Closes(cfg, c, e) {
      var o := Observe(c, e);
      ObserveCounts(c, es, e);
      FailuresMeans(es + [e]);
      AimdFailingWindow(cfg, o.limit, o.credit, o.est, o.win, e.draws);
    }
  }

  lemma CutOnceMore(cfg: Config, limit: int, l0: int, k: nat)
    requires cfg.Valid() && limit >= cfg.bounds.minLimit && CutKTimes(cfg, limit, l0, k)
    ensures CutKTimes(cfg, Max(cfg.bounds.minLimit, Cut(cfg, limit)), l0, k + 1)
  {
    CutShrinks(cfg, limit);
    if limit > cfg.bounds.minLimit {
      ScaleMonotone(limit as real, Decayed(l0 as real, cfg.decreaseRatio, k), cfg.decreaseRatio);
    }
  }

  /** From any state with limit L, k failing AIMD windows end at the floor or at no more than L * decreaseRatio^k. */
  lemma {:induction false} AimdDecayIsGeometric(cfg: Config, c: Control, w0: seq<Event>, evs: seq<Event>)
    requires cfg.Valid() && cfg.algorithm == Aimd && ValidEvents(evs) && InBounds(cfg, c)
    requires CountersAgree(c, w0) && EveryClosingFails(cfg, c, w0, evs)
    ensures CutKTimes(cfg, Run(cfg, c, evs).limit, c.limit, Closings(cfg, c, evs))
  {
    hide Record, Closes, Observe, CutKTimes, Cut, Max, CountersAgree, AnyFailed;
    if evs == [] {
      NotCutYet(cfg, c.limit);
    } else {
      var past, e := evs[..|evs| - 1], evs[|evs| - 1];
      AimdDecayIsGeometric(cfg, c, w0, past);
      LimitStaysInBounds(cfg, c, past);
      CountersAgreeInRuns(cfg, c, w0, past);
      var before := Run(cfg, c, past);
      AimdFailingRecord(cfg, before, WindowEvents(cfg, c, w0, past), e);
      CutOnceMore(cfg, before.limit, c.limit, Closings(cfg, c, past));
    }
  }

  lemma NotCutYet(cfg: Config, limit: int)
    ensures CutKTimes(cfg, limit, limit, 0)
  {
  }

  /** Whatever a limiter has been through since New, a burst of k failing windows cuts its limit k times. */
  lemma AimdBurstDecays(cfg: Config, now: int, past: seq<Event>, burst: seq<Event>)
    requires cfg.Valid() && cfg.algorithm == Aimd && ValidEvents(burst)
    requires EveryClosingFails(cfg, Run(cfg, Start(cfg, now), past), WindowEvents(cfg, Start(cfg, now), [], past), burst)
    ensures var before, after := Run(cfg, Start(cfg, now), past), Run(cfg, Start(cfg, now), past + burst);
      var k := Closings(cfg, Start(cfg, now), past + burst) - Closings(cfg, Start(cfg, now), past);
      k >= 0 && CutKTimes(cfg, after.limit, before.limit, k)
  {
    hide Run, Closings, EveryClosingFails, CutKTimes, WindowEvents, CountersAgree;
    LimitStaysInBounds(cfg, Start(cfg, now), past);
    RunSplits(cfg, Start(cfg, now), past, burst);
    FreshCounts(Start(cfg, now), now);
    CountersAgreeInRuns(cfg, Start(cfg, now), [], past);
    AimdDecayIsGeometric(cfg, Run(cfg, Start(cfg, now), past), WindowEvents(cfg, Start(cfg, now), [], past), burst);
  }

  /** In any run a sample that closes an AIMD window with a failed sample in it lowers the limit, until minLimit. */
  lemma AimdFallsStrictly(cfg: Config, now: int, evs: seq<Event>, e: Event)
    requires cfg.Valid() && cfg.algorithm == Aimd && ValidEvents(evs + [e])
    requires Closes(cfg, Run(cfg, Start(cfg, now), evs), e)
    requires AnyFailed(WindowEvents(cfg, Start(cfg, now), [], evs) + [e])
    ensures var before, after := Run(cfg, Start(cfg, now), evs), Run(cfg, Start(cfg, now), evs + [e]);
      after.limit < before.limit || after.limit == before.limit == cfg.bounds.minLimit
  {
    hide Closes, Observe, CountersAgree, AnyFailed, WindowEvents, Record;
    assert (evs + [e])[..|evs|] == evs && e == (evs + [e])[|evs|];
    LimitStaysInBounds(cfg, Start(cfg, now), evs);
    FreshCounts(Start(cfg, now), now);
    CountersAgreeInRuns(cfg, Start(cfg, now), [], evs);
    var c := Run(cfg, Start(cfg, now), evs);
    AimdFailingRecord(cfg, c, WindowEvents(cfg, Start(cfg, now), [], evs), e);
    CutShrinks(cfg, c.limit);
  }

  lemma {:induction false} NothingBeforeFirstClose(cfg: Config, now: int, evs: seq<Event>)
    requires cfg.Valid() && Closings(cfg, Start(cfg, now), evs) == 0
    ensures var c := Run(cfg, Start(cfg, now), evs);
      c.limit == cfg.bounds.initialLimit && c.est.avgLat == 0.0 && c.win.start == now
  {
    hide Observe, Closes, Close;
    if evs != [] {
      var past, e := evs[..|evs| - 1], evs[|evs| - 1];
      NothingBeforeFirstClose(cfg, now, past);
      ObserveKeeps(Run(cfg, Start(cfg, now), past), e);
    }
  }

  /** The first Gradient window holds the limit, since the law is asked before the average exists. */
  lemma FirstGradientWindowHolds(cfg: Config, now: int, evs: seq<Event>, e: Event)
    requires cfg.Valid() && cfg.algorithm == Gradient && ValidEvents(evs + [e])
    requires Closings(cfg, Start(cfg, now), evs) == 0
    requires !AnyFailed(WindowEvents(cfg, Start(cfg, now), [], evs) + [e])
    ensures Run(cfg, Start(cfg, now), evs + [e]).limit == cfg.bounds.initialLimit
  {
    hide CountersAgree, AnyFailed, WindowEvents, Mean;
    assert (evs + [e])[..|evs|] == evs && e == (evs + [e])[|evs|];
    NothingBeforeFirstClose(cfg, now, evs);
    FreshCounts(Start(cfg, now), now);
    CountersAgreeInRuns(cfg, Start(cfg, now), [], evs);
    var c, es := Run(cfg, Start(cfg, now), evs), WindowEvents(cfg, Start(cfg, now), [], evs);
    ObserveCounts(c, es, e);
    NoneFailed(Observe(c, e), es + [e]);
  }

  lemma NoneFailed(c: Control, es: seq<Event>)
    requires CountersAgree(c, es) && !AnyFailed(es)
    ensures c.win.fails == 0
  {
    FailuresMeans(es);
  }

  // ----- estimators

  /** The window counters are those of lats, and the global minimum is below all of them and below the average. */
  ghost predicate EstimatorsAgree(c: Control, lats: seq<int>) {
    && c.win.n == |lats| && c.win.rttSum == Total(lats) as real
    && (c.win.minRTT.Some? <==> lats != [])
    && (c.win.minRTT.Some? ==>
          (exists i :: 0 <= i < |lats| && lats[i] as real == c.win.minRTT.value)
          && forall i :: 0 <= i < |lats| ==> c.win.minRTT.value <= lats[i] as real)
    && (c.est.minLat.Some? <==> c.seen > 0)
    && |lats| <= c.seen
    && (c.est.minLat.None? ==> c.est.avgLat <= 0.0)
    && (c.est.minLat.Some? ==>
          && 0.0 < c.est.minLat.value
          && (c.est.avgLat > 0.0 ==> c.est.minLat.value <= c.est.avgLat)
          && forall i :: 0 <= i < |lats| ==> c.est.minLat.value <= lats[i] as real)
  }

  lemma {:induction false} SumAtLeast(s: seq<int>, m: real)
    requires forall i :: 0 <= i < |s| ==> m <= s[i] as real
    ensures |s| as real * m <= Total(s) as real
  {
    if s != [] {
      SumAtLeast(s[..|s| - 1], m);
      assert |s| as real * m == (|s| - 1) as real * m + m;
    }
  }

  lemma ObserveAgrees(c: Control, lats: seq<int>, e: Event)
    requires EstimatorsAgree(c, lats) && e.latency > 0
    ensures EstimatorsAgree(Observe(c, e), lats + [e.latency])
  {
    var more, o := lats + [e.latency], Observe(c, e);
    assert more[..|lats|] == lats;
    assert o.win.minRTT.Some?;
    if c.win.minRTT.Some? && o.win.minRTT == c.win.minRTT {
      var i :| 0 <= i < |lats| && lats[i] as real == c.win.minRTT.value;
      assert more[i] as real == o.win.minRTT.value;
    } else {
      assert more[|lats|] as real == o.win.minRTT.value;
    }
  }

  lemma RecordAgrees(cfg: Config, c: Control, lats: seq<int>, e: Event)
    requires cfg.Valid() && EstimatorsAgree(c, lats) && e.latency > 0
    ensures EstimatorsAgree(Record(cfg, c, e), if Closes(cfg, c, e) then [] else lats + [e.latency])
  {
    hide Observe, Closes, NextLimit, Mean;
    ObserveAgrees(c, lats, e);
    if Closes(cfg, c, e) {
      ClosingMean(Observe(c, e), lats + [e.latency]);
      EstimatorsStayOrdered(cfg, Observe(c, e).est, Mean(Observe(c, e).win));
    }
  }

  lemma NothingAgrees(cfg: Config, now: int)
    ensures EstimatorsAgree(Start(cfg, now), [])
  {
  }

  /** In every run the minimum never exceeds a sample of the current window nor the average. */
  lemma {:induction false} EstimatorsAgreeInRuns(cfg: Config, now: int, evs: seq<Event>)
    requires cfg.Valid() && ValidEvents(evs)
    ensures EstimatorsAgree(Run(cfg, Start(cfg, now), evs), Latencies(WindowEvents(cfg, Start(cfg, now), [], evs)))
  {
    hide Record, Closes, EstimatorsAgree;
    NothingAgrees(cfg, now);
    if evs != [] {
      var past, e := evs[..|evs| - 1], evs[|evs| - 1];
      EstimatorsAgreeInRuns(cfg, now, past);
      var es := WindowEvents(cfg, Start(cfg, now), [], past);
      assert Latencies(es + [e]) == Latencies(es) + [e.latency] by {
        assert (es + [e])[..|es|] == es;
      }
      RecordAgrees(cfg, Run(cfg, Start(cfg, now), past), Latencies(es), e);
    }
  }

  lemma ClosingMean(c: Control, lats: seq<int>)
    requires EstimatorsAgree(c, lats) && lats != []
    ensures 0.0 < c.est.minLat.value <= Mean(c.win)
    ensures Mean(c.win) * |lats| as real == Total(lats) as real
  {
    SumAtLeast(lats, c.est.minLat.value);
    MeanAtLeast(c.win, c.est.minLat.value);
  }

  /**
   A window of this mean moved the estimators: the average keeps the share 1 - smoothing of its distance to the mean,
   and the minimum, low before, the share 1 - minLatDecay of its distance to the new average.
   */
  ghost predicate Moved(cfg: Config, avgLat: real, low: real, mean: real, after: Estimators) {
    && after.avgLat - mean == (if avgLat <= 0.0 then 0.0 else (1.0 - cfg.smoothing) * (avgLat - mean))
    && after.minLat.Some?
    && after.avgLat - after.minLat.value == (1.0 - cfg.minLatDecay) * (after.avgLat - low)
  }

  lemma UpdateMoves(cfg: Config, est: Estimators, mean: real)
    requires cfg.Valid() && mean > 0.0 && est.minLat.Some?
    ensures Moved(cfg, est.avgLat, est.minLat.value, mean, UpdateEstimators(cfg, est, mean))
  {
    AverageApproachesMean(cfg, est, mean);
    MinimumApproachesAverage(cfg, est, mean);
  }

  function MeanOf(lats: seq<int>): real
    requires lats != []
  {
    Total(lats) as real / |lats| as real
  }

  lemma CloseMoves(cfg: Config, c: Control, lats: seq<int>, e: Event)
    requires cfg.Valid() && EstimatorsAgree(c, lats) && e.latency > 0 && Closes(cfg, c, e)
    ensures Moved(cfg, c.est.avgLat, LowerTo(c.est.minLat, e.latency as real).value, MeanOf(lats + [e.latency]),
                  Record(cfg, c, e).est)
  {
    hide EstimatorsAgree, UpdateEstimators, Closes, Record, Mean, MeanOf, Observe, Moved;
    var o := Observe(c, e);
    ObserveAgrees(c, lats, e);
    ClosingMean(o, lats + [e.latency]);
    RecordedEstimators(cfg, c, e);
    MeanAgrees(o, lats + [e.latency]);
    UpdateMoves(cfg, o.est, Mean(o.win));
  }

  lemma RecordedEstimators(cfg: Config, c: Control, e: Event)
    requires cfg.targetLatency > 0.0 && Closes(cfg, c, e)
    ensures var o := Observe(c, e);
      && Record(cfg, c, e).est == UpdateEstimators(cfg, o.est, Mean(o.win))
      && o.est == Estimators(c.est.avgLat, LowerTo(c.est.minLat, e.latency as real))
  {
    hide NextLimit, UpdateEstimators, Mean;
  }

  lemma MeanAgrees(c: Control, lats: seq<int>)
    requires EstimatorsAgree(c, lats) && lats != []
    ensures Mean(c.win) == MeanOf(lats)
  {
  }

  /** Whenever a window closes in a run, the mean of its latencies moves the estimators. */
  lemma ClosingMovesEstimators(cfg: Config, now: int, evs: seq<Event>, e: Event)
    requires cfg.Valid() && ValidEvents(evs) && e.latency > 0
    requires Closes(cfg, Run(cfg, Start(cfg, now), evs), e)
    ensures var before, after := Run(cfg, Start(cfg, now), evs).est, Run(cfg, Start(cfg, now), evs + [e]).est;
      var lats := Latencies(WindowEvents(cfg, Start(cfg, now), [], evs)) + [e.latency];
      Moved(cfg, before.avgLat, LowerTo(before.minLat, e.latency as real).value, MeanOf(lats), after)
  {
    hide Closes, EstimatorsAgree, WindowEvents, Moved, MeanOf, Record, Start;
    assert (evs + [e])[..|evs|] == evs && e == (evs + [e])[|evs|];
    EstimatorsAgreeInRuns(cfg, now, evs);
    CloseMoves(cfg, Run(cfg, Start(cfg, now), evs), Latencies(WindowEvents(cfg, Start(cfg, now), [], evs)), e);
  }

  /** Whenever a window closes in a run, the Vegas queue it is judged by lies in [0, limit). */
  lemma VegasQueueInRuns(cfg: Config, now: int, evs: seq<Event>, e: Event)
    requires cfg.Valid() && ValidEvents(evs) && e.latency > 0
    requires Closes(cfg, Run(cfg, Start(cfg, now), evs), e)
    ensures var c := Observe(Run(cfg, Start(cfg, now), evs), e);
      && c.est.minLat.Some? && Mean(c.win) > 0.0
      && 0.0 <= VegasQueue(c.limit, c.est.minLat.value, Mean(c.win)) < c.limit as real
  {
    EstimatorsAgreeInRuns(cfg, now, evs);
    LimitStaysInBounds(cfg, Start(cfg, now), evs);
    var c := Run(cfg, Start(cfg, now), evs);
    var lats := Latencies(WindowEvents(cfg, Start(cfg, now), [], evs));
    ObserveAgrees(c, lats, e);
    ClosingMean(Observe(c, e), lats + [e.latency]);
    VegasQueueInRange(c.limit, Observe(c, e).est.minLat.value, Mean(Observe(c, e).win));
  }

  /** The recorded minimum never falls below every sample there ever was. */
  lemma {:induction false} MinimumIsGrounded(cfg: Config, now: int, evs: seq<Event>)
    requires cfg.Valid() && ValidEvents(evs)
    ensures var m := Run(cfg, Start(cfg, now), evs).est.minLat;
      m.Some? ==> exists i :: 0 <= i < |evs| && evs[i].latency as real <= m.value
  {
    hide Mean;
    if evs != [] {
      var past, e := evs[..|evs| - 1], evs[|evs| - 1];
      MinimumIsGrounded(cfg, now, past);
      var before, after := Run(cfg, Start(cfg, now), past), Run(cfg, Start(cfg, now), evs);
      var o := Observe(before, e);
      RecordRaisesMinimum(cfg, now, past, e);
      if before.est.minLat == o.est.minLat {
        var i :| 0 <= i < |past| && past[i].latency as real <= before.est.minLat.value;
        assert evs[i] == past[i];
      } else {
        assert o.est.minLat == Some(e.latency as real);
        assert evs[|evs| - 1] == e;
      }
    }
  }

  lemma RecordRaisesMinimum(cfg: Config, now: int, past: seq<Event>, e: Event)
    requires cfg.Valid() && ValidEvents(past) && e.latency > 0
    ensures var c := Run(cfg, Start(cfg, now), past); var o, t := Observe(c, e), Record(cfg, c, e);
      o.est.minLat.Some? && t.est.minLat.Some? && o.est.minLat.value <= t.est.minLat.value
  {
    hide EstimatorsAgree, UpdateEstimators, Mean, NextLimit;
    EstimatorsAgreeInRuns(cfg, now, past);
    var c, lats := Run(cfg, Start(cfg, now), past), Latencies(WindowEvents(cfg, Start(cfg, now), [], past));
    ObserveAgrees(c, lats, e);
    if Closes(cfg, c, e) {
      var o := Observe(c, e);
      ClosingMean(o, lats + [e.latency]);
      MinBelowAverage(o, lats + [e.latency]);
      EstimatorsStayOrdered(cfg, o.est, Mean(o.win));
    }
  }

  lemma MinBelowAverage(c: Control, lats: seq<int>)
    requires EstimatorsAgree(c, lats) && c.est.minLat.Some?
    ensures c.est.avgLat > 0.0 ==> c.est.minLat.value <= c.est.avgLat
  {
  }
}
