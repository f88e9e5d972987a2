/**
 The limiter's state as the source keeps it, field by field, with the methods
 that run under its mutex. The sample ring is an array; history is the list it
 stands for.
 */
module AdaptxLimiter {
  import opened Wrappers
  import opened AdaptxPool
  import opened AdaptxLaws
  import opened AdaptxControl
  import opened AdaptxRing
  import opened Arith

  class Limiter {
    const cfg: Config
    const samples: array<Sample>

    var idle: int          // len(sem)
    var inFlight: int
    var limit: int
    var debt: int
    var avgLat: real
    var minLat: Option<real>
    var increaseCredit: real
    var window: Window
    var head: nat
    var count: nat
    var seen: nat
    var incr: nat
    var decr: nat
    var success: nat
    var fail: nat

    ghost var history: seq<Sample>  // every sample since New or ResetStats

    ghost predicate Valid()
      reads this, samples
    {
      && cfg.Valid()
      && 0 <= idle <= cfg.bounds.maxLimit && 0 <= debt && 0 <= inFlight
      && cfg.bounds.minLimit <= limit <= cfg.bounds.maxLimit
      && samples.Length > 0 && RingHolds(samples[..], head, count, history)
      && seen == |history| && Measured(history)
    }

    /** Samples without a latency are never recorded. */
    ghost predicate Measured(s: seq<Sample>) {
      forall i :: 0 <= i < |s| ==> s[i].latency > 0
    }

    ghost function PoolNow(): Pool
      reads this
    {
      Pool(limit, debt, idle)
    }

    ghost function ControlNow(): Control
      reads this
    {
      Control(limit, increaseCredit, Estimators(avgLat, minLat), window, seen, incr, decr)
    }

    constructor (cfg: Config, ringCap: nat, now: int, filler: Sample)
      requires cfg.Valid() && ringCap >= 1
      ensures Valid() && this.cfg == cfg && fresh(samples) && samples.Length == ringCap
      ensures PoolNow() == Pool(cfg.bounds.initialLimit, 0, cfg.bounds.initialLimit)
      ensures ControlNow() == AdaptxControl.Start(cfg, now)
      ensures history == [] && inFlight == 0
    {
      this.cfg := cfg;
      samples := new Sample[ringCap](_ => filler);
      idle, inFlight, limit, debt := cfg.bounds.initialLimit, 0, cfg.bounds.initialLimit, 0;
      avgLat, minLat, increaseCredit, window := 0.0, None, 0.0, FreshWindow(now);
      head, count, seen, incr, decr, success, fail := 0, 0, 0, 0, 0, 0, 0;
      history := [];
      new;
      EmptyRing(samples[..]);
    }

    /** returnPermit: a non-blocking send that ignores the debt. */
    method ReturnPermit()
      requires Valid()
      modifies this`idle
      ensures Valid() && idle == Send(old(idle), cfg.bounds.maxLimit)
    {
      if idle < cfg.bounds.maxLimit {
        idle := idle + 1;
      }
    }

    method ReleasePermit()
      requires Valid()
      modifies this`idle, this`debt
      ensures Valid() && PoolNow() == Release(old(PoolNow()), cfg.bounds.maxLimit)
    {
      if debt > 0 {
        debt := debt - 1;
        return;
      }
      if idle < cfg.bounds.maxLimit {
        idle := idle + 1;
      }
    }

    /** Pull idle permits one at a time; the first empty receive turns the rest into debt. */
    method ShrinkBy(drop: nat)
      requires Valid()
      modifies this`idle, this`debt
      ensures Valid() && PoolNow() == Shrink(old(PoolNow()), drop)
    {
      for i := 0 to drop
        invariant Valid() && debt == old(debt) && idle == old(idle) - i
      {
        if idle > 0 {
          idle := idle - 1;
        } else {
          debt := debt + (drop - i);
          return;
        }
      }
    }

    /** n non-blocking sends. */
    method SendPermits(n: nat)
      requires Valid()
      modifies this`idle
      ensures Valid() && idle == SendMany(old(idle), n, cfg.bounds.maxLimit)
    {
      for i := 0 to n
        invariant Valid()
        invariant SendMany(idle, n - i, cfg.bounds.maxLimit) == SendMany(old(idle), n, cfg.bounds.maxLimit)
      {
        if idle < cfg.bounds.maxLimit {
          idle := idle + 1;
        }
      }
    }

    method AimdNext(w: Window) returns (next: int)
      requires Valid()
      modifies this`increaseCredit
      ensures (next, increaseCredit) == AimdLaw(cfg, limit, old(increaseCredit), w)
      ensures Valid()
    {
      if w.fails > 0 {
        increaseCredit := 0.0;
        return Cut(cfg, limit);
      }
      var need := Gate(cfg, limit);
      if w.maxInFlight < need {
        return limit;
      }
      increaseCredit := increaseCredit + cfg.increaseRate;
      var step := increaseCredit.Floor;
      increaseCredit := increaseCredit - step as real;
      return limit + step;
    }

    /** adjust: evaluate the law, jitter, clamp, then move the pool to the new limit. */
    method Adjust(w: Window, d: Draws)
      requires Valid() && d.Valid()
      modifies this`limit, this`debt, this`idle, this`increaseCredit, this`incr, this`decr
      ensures Valid()
      ensures (limit, increaseCredit) ==
              NextLimit(cfg, old(limit), old(increaseCredit), Estimators(avgLat, minLat), w, d)
      ensures PoolNow() == Resize(old(PoolNow()), limit, cfg.bounds.maxLimit)
      ensures incr == old(incr) + (if limit > old(limit) then 1 else 0)
      ensures decr == old(decr) + (if limit < old(limit) then 1 else 0)
    {
      var before := limit;
      var next: int;
      match cfg.algorithm {
        case Vegas => next := VegasLaw(cfg, limit, minLat, Mean(w));
        case Gradient => next := GradientLaw(cfg, limit, avgLat, w.fails, Mean(w));
        case Aimd => next := AimdNext(w);
      }
      if next > before && cfg.jitter > 0.0 {
        var withheld := Withheld(cfg, next - before, d.share);
        if d.coin < 0.5 {
          next := next - withheld;
        }
      }
      if next < cfg.bounds.minLimit {
        next := cfg.bounds.minLimit;
      }
      if next > cfg.bounds.maxLimit {
        next := cfg.bounds.maxLimit;
      }
      MoveLimit(next);
    }

    /** The part of adjust below the clamp: store the limit and settle the pool. */
    method MoveLimit(next: int)
      requires Valid() && cfg.bounds.minLimit <= next <= cfg.bounds.maxLimit
      modifies this`limit, this`debt, this`idle, this`incr, this`decr
      ensures Valid() && PoolNow() == Resize(old(PoolNow()), next, cfg.bounds.maxLimit)
      ensures incr == old(incr) + (if next > old(limit) then 1 else 0)
      ensures decr == old(decr) + (if next < old(limit) then 1 else 0)
    {
      var before := limit;
      if next == before {
        return;
      }
      limit := next;
      if next > before {
        incr := incr + 1;
        var grant := next - before;
        if debt > 0 {
          var paid := Min(debt, grant);
          debt := debt - paid;
          grant := grant - paid;
        }
        SendPermits(grant);
      } else {
        decr := decr + 1;
        ShrinkBy(before - next);
      }
    }

    method RefreshEstimators(mean: real)
      requires Valid()
      modifies this`avgLat, this`minLat
      ensures Valid()
      ensures Estimators(avgLat, minLat) == UpdateEstimators(cfg, Estimators(old(avgLat), old(minLat)), mean)
    {
      if mean <= 0.0 {
        return;
      }
      if avgLat <= 0.0 {
        avgLat := mean;
      } else {
        avgLat := Blend(cfg.smoothing, mean, avgLat);
      }
      if cfg.minLatDecay > 0.0 && minLat.Some? {
        minLat := Some(Drift(minLat.value, cfg.minLatDecay, avgLat));
      }
    }

    /** record: a skipped sample (no latency) counts towards the totals and touches nothing else. */
    method RecordOutcome(e: Event) returns (fire: bool)
      requires Valid() && e.draws.Valid() && e.inFlight == inFlight
      modifies this, samples
      ensures Valid() && inFlight == old(inFlight)
      ensures success == old(success) + (if e.success then 1 else 0)
      ensures fail == old(fail) + (if e.success then 0 else 1)
      ensures ControlNow() == if e.latency > 0 then Record(cfg, old(ControlNow()), e) else old(ControlNow())
      ensures PoolNow() == Resize(old(PoolNow()), limit, cfg.bounds.maxLimit)
      ensures history == old(history) + (if e.latency > 0 then [Sample(e.latency, e.now, e.success)] else [])
      ensures fire <==> old(limit) != limit
    {
      if e.success {
        success := success + 1;
      } else {
        fail := fail + 1;
      }
      if e.latency <= 0 {
        return false;
      }
      var before, after;
      fire, before, after := RecordLocked(e);
    }

    /** The first half of recordLocked: the sample enters the ring, the window and the minima. */
    method ObserveSample(e: Event)
      requires Valid() && e.latency > 0 && e.inFlight == inFlight
      modifies this`head, this`count, this`seen, this`history, this`window, this`minLat, samples
      ensures Valid()
      ensures ControlNow() == Observe(old(ControlNow()), e)
      ensures history == old(history) + [Sample(e.latency, e.now, e.success)]
    {
      if inFlight > window.maxInFlight {
        window := window.(maxInFlight := inFlight);
      }
      Push(Sample(e.latency, e.now, e.success));
      window := window.(n := window.n + 1);
      if !e.success {
        window := window.(fails := window.fails + 1);
      }
      var ns := e.latency as real;
      window := window.(rttSum := window.rttSum + ns, minRTT := LowerTo(window.minRTT, ns));
      minLat := LowerTo(minLat, ns);
    }

    /** The second half: one evaluation of the law, then the estimators, then a fresh window. */
    method CloseWindow(now: int, d: Draws)
      requires Valid() && d.Valid()
      modifies this`limit, this`debt, this`idle, this`increaseCredit, this`incr, this`decr,
               this`avgLat, this`minLat, this`window
      ensures Valid()
      ensures ControlNow() == Close(cfg, old(ControlNow()), now, d)
      ensures PoolNow() == Resize(old(PoolNow()), limit, cfg.bounds.maxLimit)
    {
      hide Law, Jittered, Clamp, NextLimit, Resize, UpdateEstimators, RingHolds;
      var w := window;
      Adjust(w, d);
      RefreshEstimators(Mean(w));
      window := FreshWindow(now);
    }

    /** recordLocked for a sample that was not skipped. */
    method RecordLocked(e: Event) returns (fire: bool, before: int, after: int)
      requires Valid() && e.latency > 0 && e.draws.Valid() && e.inFlight == inFlight
      modifies this`head, this`count, this`seen, this`history, this`limit, this`debt, this`idle,
               this`increaseCredit, this`incr, this`decr, this`avgLat, this`minLat, this`window, samples
      ensures Valid()
      ensures ControlNow() == Record(cfg, old(ControlNow()), e)
      ensures PoolNow() == Resize(old(PoolNow()), limit, cfg.bounds.maxLimit)
      ensures history == old(history) + [Sample(e.latency, e.now, e.success)]
      ensures fire ==> before == old(limit) && after == limit
      ensures fire <==> old(limit) != limit
    {
      hide Observe, Close, Resize, RingHolds;
      fire, before, after := false, 0, 0;
      ObserveSample(e);
      ObserveKeeps(old(ControlNow()), e);
      ResizeToSelf(PoolNow(), cfg.bounds.maxLimit);
      if e.now - window.start < cfg.sampleWindow || seen < cfg.warmupSamples {
        return;
      }
      before := limit;
      CloseWindow(e.now, e.draws);
      after := limit;
      fire := after != before;
    }

    /** Overwrite the oldest slot and move head. */
    method Push(s: Sample)
      requires Valid() && s.latency > 0
      modifies this`head, this`count, this`seen, this`history, samples
      ensures Valid() && history == old(history) + [s]
    {
      PushKeepsRing(samples[..], head, count, history, s);
      samples[head] := s;
      head := (head + 1) % samples.Length;
      if count < samples.Length {
        count := count + 1;
      }
      seen := seen + 1;
      history := history + [s];
    }

    /** reconcilePermitsLocked: drain the channel, then refill it to limit minus in-flight. */
    method ReconcilePermits()
      requires Valid()
      modifies this`idle
      ensures Valid()
      ensures idle == SendMany(0, Max(limit - inFlight, 0), cfg.bounds.maxLimit)
    {
      while idle > 0
        invariant Valid()
      {
        idle := idle - 1;
      }
      var want := limit - inFlight;
      if want < 0 {
        want := 0;
      }
      SendPermits(want);
    }

    method ClearSamples(filler: Sample)
      requires Valid() && history == []
      modifies samples
      ensures Valid()
    {
      for i := 0 to samples.Length
        invariant Valid()
      {
        samples[i] := filler;
      }
    }

    /** The field assignments of ResetStats. */
    method ForgetControl(resetLimit: int, now: int)
      requires Valid() && cfg.bounds.minLimit <= resetLimit <= cfg.bounds.maxLimit
      modifies this`limit, this`debt, this`avgLat, this`minLat, this`increaseCredit, this`head, this`count,
               this`seen, this`history, this`window
      ensures Valid() && history == [] && seen == 0 && debt == 0 && limit == resetLimit && increaseCredit == 0.0
      ensures Estimators(avgLat, minLat) == Estimators(0.0, None) && window == FreshWindow(now)
    {
      EmptyRing(samples[..]);
      limit, debt, avgLat, minLat, increaseCredit := resetLimit, 0, 0.0, None, 0.0;
      head, count, seen, history := 0, 0, 0, [];
      window := FreshWindow(now);
    }

    /** ResetStats, run alone. inFlight is at most maxLimit in every reachable state. */
    method ResetStats(now: int, filler: Sample)
      requires Valid() && inFlight <= cfg.bounds.maxLimit
      modifies this`limit, this`debt, this`idle, this`avgLat, this`minLat, this`increaseCredit, this`head, this`count,
               this`seen, this`history, this`window, this`incr, this`decr, this`success, this`fail, samples
      ensures Valid() && history == [] && success == 0 && fail == 0
      ensures PoolNow() == Reset(cfg.bounds, inFlight, inFlight)
      ensures ControlNow() == AdaptxControl.Start(cfg, now).(limit := limit)
    {
      hide RingHolds, SendMany;
      var resetLimit := cfg.bounds.initialLimit;
      if resetLimit < inFlight {
        resetLimit := inFlight;
      }
      ForgetControl(resetLimit, now);
      ClearSamples(filler);
      ReconcilePermits();
      incr, decr, success, fail := 0, 0, 0, 0;
    }

    /** The read half of Stats: latencies of the retained samples younger than one sample window. */
    method RecentLatencies(now: int) returns (lats: seq<int>)
      requires Valid()
      ensures lats == YoungerThan(LastOf(history, samples.Length), now - cfg.sampleWindow)
      ensures forall i :: 0 <= i < |lats| ==> lats[i] > 0
    {
      lats := [];
      var cutoff := now - cfg.sampleWindow;
      ghost var kept := LastOf(history, samples.Length);
      for i := 0 to count
        invariant lats == YoungerThan(kept[..i], cutoff) && forall j :: 0 <= j < |lats| ==> lats[j] > 0
      {
        var idx := (head - count + i + samples.Length) % samples.Length;
        ReadIndex(samples[..], head, count, history, i);
        var s := samples[idx];
        assert s == kept[i] && kept[..i + 1][..i] == kept[..i];
        if s.ts > cutoff {
          lats := lats + [s.latency];
        }
      }
      assert kept[..count] == kept;
    }

    /** The latency half of Stats. */
    method Stats(now: int) returns (r: Summary)
      requires Valid()
      ensures var lats := YoungerThan(LastOf(history, samples.Length), now - cfg.sampleWindow);
        if lats == [] then r == Summary(0, 0, 0, 0, 0)
        else
          && r.min in lats && r.max in lats && r.p50 in lats && r.p99 in lats
          && r.min <= r.p50 <= r.p99 <= r.max && r.min <= r.avg <= r.max
          && IsPercentile(lats, 50, r.p50) && IsPercentile(lats, 99, r.p99)
          && r.avg * |lats| <= Total(lats) < (r.avg + 1) * |lats|
          && forall x :: x in lats ==> r.min <= x <= r.max
    {
      hide RingHolds, YoungerThan, LastOf, IsPercentile;
      var lats := RecentLatencies(now);
      r := Summarize(lats);
    }
  }
}
