/**
 The circuit breaker: what each critical section does to its core fields, as
 functions, and the class whose methods do it in place.
 */
module CircuitxBreaker {
  datatype State = Closed | Open | HalfOpen

  /** The floors New enforces. Times are nanoseconds. */
  datatype Config = Config(maxFailures: int, resetTimeout: int, halfOpenMax: int, successThreshold: int,
                           countCanceled: bool)
  {
    predicate Valid() {
      maxFailures >= 1 && resetTimeout > 0 && halfOpenMax >= 1 && successThreshold >= 1
    }
  }

  /** Everything that decides admission; generation is the epoch of the half-open budget. */
  datatype Core = Core(state: State, failures: int, lastOpen: int, inflight: int, probeSuccesses: int,
                       generation: nat, trips: nat)

  const Fresh := Core(Closed, 0, 0, 0, 0, 0, 0)

  /** State(): promotes an Open breaker whose timeout has elapsed. */
  function Promote(cfg: Config, c: Core, now: int): Core {
    if c.state != Open || now - c.lastOpen < cfg.resetTimeout then
      c
    else
      c.(state := HalfOpen, generation := c.generation + 1, inflight := 0, probeSuccesses := 0)
  }

  /** tryAdmit after the promotion: is the call let through? */
  predicate Admits(cfg: Config, c: Core) {
    match c.state
    case Closed => true
    case Open => false
    case HalfOpen => c.inflight < cfg.halfOpenMax
  }

  function Admit(cfg: Config, c: Core, now: int): Core {
    var p := Promote(cfg, c, now);
    if p.state == HalfOpen && Admits(cfg, p) then p.(inflight := p.inflight + 1) else p
  }

  function ReleaseProbe(c: Core, admitGen: nat): Core {
    if admitGen != c.generation || c.inflight <= 0 then c else c.(inflight := c.inflight - 1)
  }

  function RecordSuccess(cfg: Config, c: Core, admitGen: nat): Core {
    if c.state == Closed && c.failures == 0 then
      c
    else if admitGen != c.generation then
      c
    else
      match c.state
      case HalfOpen =>
        if c.probeSuccesses + 1 < cfg.successThreshold then
          c.(probeSuccesses := c.probeSuccesses + 1)
        else
          c.(probeSuccesses := 0, failures := 0, generation := c.generation + 1, state := Closed)
      case Closed => c.(failures := 0)
      case Open => c
  }

  function Trip(c: Core, now: int): Core {
    c.(state := Open, lastOpen := now, trips := c.trips + 1)
  }

  function RecordFailure(cfg: Config, c: Core, forced: bool, admitGen: nat, now: int): Core {
    if admitGen != c.generation || c.state == Open then
      c
    else
      var counted := c.(failures := c.failures + 1);
      if !forced && c.state == Closed && counted.failures < cfg.maxFailures then counted
      else Trip(if c.state == HalfOpen then counted.(probeSuccesses := 0) else counted, now)
  }

  function OpenFrom(c: Core, admitGen: nat, now: int): Core {
    if admitGen != c.generation || c.state == Open then c else Trip(c, now)
  }

  function Reset(c: Core): Core {
    c.(failures := 0, state := Closed, generation := c.generation + 1, inflight := 0, probeSuccesses := 0)
  }

  /** What the callback returned: classified is the answer of failureIf, true when none is set. */
  datatype Result = Ok | Failed(panicked: bool, canceled: bool, classified: bool)

  /** The result and the flags the callback set on its controller. */
  datatype Outcome = Outcome(result: Result, skipFailure: bool, tripped: bool)

  predicate CountsAsFailure(cfg: Config, r: Result) {
    r.Failed? && (r.panicked || (!(r.canceled && !cfg.countCanceled) && r.classified))
  }

  datatype Verdict = Success | Failure | ForcedFailure | TripOnly | Ignored

  function VerdictOf(cfg: Config, o: Outcome): Verdict {
    if CountsAsFailure(cfg, o.result) && !o.skipFailure then (if o.tripped then ForcedFailure else Failure)
    else if o.tripped then TripOnly
    else if o.result.Failed? then Ignored
    else Success
  }

  /**
   A failed call counts if and only if the callback did not skip it and it panicked, or failureIf agrees and it is no
   cancellation to be ignored. A Trip opens with or without a failure; only a clean return is a success; the rest
   leaves no trace.
   */
  lemma VerdictRules(cfg: Config, o: Outcome)
    ensures var v := VerdictOf(cfg, o);
      var counted := o.result.Failed? && !o.skipFailure
        && (o.result.panicked || (o.result.classified && (cfg.countCanceled || !o.result.canceled)));
      && (v.Failure? || v.ForcedFailure? <==> counted)
      && (v.ForcedFailure? || v.TripOnly? <==> o.tripped)
      && (v.Success? <==> o.result.Ok? && !o.tripped)
      && (v.Ignored? <==> o.result.Failed? && !counted && !o.tripped)
  {
  }

  /** executeRun after the callback returned. */
  function Settle(cfg: Config, c: Core, v: Verdict, admitGen: nat, now: int): Core {
    match v
    case Failure => RecordFailure(cfg, c, false, admitGen, now)
    case ForcedFailure => RecordFailure(cfg, c, true, admitGen, now)
    case TripOnly => OpenFrom(c, admitGen, now)
    case Ignored => c
    case Success => RecordSuccess(cfg, c, admitGen)
  }

  /** The edges the state-change hook should see for one transition. */
  function Edge(from: State, to: State): seq<(State, State)> {
    if from == to then [] else [(from, to)]
  }

  class Breaker {
    const cfg: Config

    var state: State
    var failures: int
    var lastOpen: int
    var halfOpenInflight: int
    var halfOpenSuccesses: int
    var generation: nat
    var trips: nat
    var successes: nat
    var totalFail: nat
    var rejected: nat
    var edges: seq<(State, State)>  // the calls of the onStateChange hook

    ghost function CoreNow(): Core
      reads this
    {
      Core(state, failures, lastOpen, halfOpenInflight, halfOpenSuccesses, generation, trips)
    }

    constructor (cfg: Config)
      requires cfg.Valid()
      ensures this.cfg == cfg && CoreNow() == Fresh && edges == []
      ensures successes == 0 && totalFail == 0 && rejected == 0
    {
      this.cfg := cfg;
      state, failures, lastOpen, halfOpenInflight, halfOpenSuccesses := Closed, 0, 0, 0, 0;
      generation, trips, successes, totalFail, rejected, edges := 0, 0, 0, 0, 0, [];
    }

    method FireStateChange(from: State, to: State)
      modifies this`edges
      ensures edges == old(edges) + [(from, to)]
    {
      edges := edges + [(from, to)];
    }

    method StateNow(now: int) returns (s: State)
      modifies this`state, this`generation, this`halfOpenInflight, this`halfOpenSuccesses, this`edges
      ensures CoreNow() == Promote(cfg, old(CoreNow()), now) && s == state
      ensures edges == old(edges) + Edge(old(state), state)
    {
      s := state;
      if s != Open {
        return;
      }
      if now - lastOpen < cfg.resetTimeout {
        return;
      }
      state := HalfOpen;
      generation := generation + 1;
      halfOpenInflight := 0;
      halfOpenSuccesses := 0;
      FireStateChange(Open, HalfOpen);
      s := HalfOpen;
    }

    method TryAdmitProbe() returns (ok: bool)
      modifies this`halfOpenInflight
      ensures ok == (old(halfOpenInflight) < cfg.halfOpenMax)
      ensures halfOpenInflight == old(halfOpenInflight) + (if ok then 1 else 0)
    {
      var cur := halfOpenInflight;
      if cur >= cfg.halfOpenMax {
        return false;
      }
      halfOpenInflight := cur + 1;
      ok := true;
    }

    method TryAdmit(now: int) returns (s: State, gen: nat, ok: bool)
      modifies this`state, this`generation, this`halfOpenInflight, this`halfOpenSuccesses, this`edges, this`rejected
      ensures CoreNow() == Admit(cfg, old(CoreNow()), now)
      ensures s == state && gen == generation
      ensures ok == Admits(cfg, Promote(cfg, old(CoreNow()), now))
      ensures rejected == old(rejected) + (if ok then 0 else 1)
      ensures edges == old(edges) + Edge(old(state), state)
    {
      s := StateNow(now);
      gen := generation;
      if s == Open {
        rejected := rejected + 1;
        return s, gen, false;
      }
      if s == HalfOpen {
        var room := TryAdmitProbe();
        if !room {
          rejected := rejected + 1;
          return s, gen, false;
        }
      }
      ok := true;
    }

    method FreeProbe(admitGen: nat)
      modifies this`halfOpenInflight
      ensures CoreNow() == ReleaseProbe(old(CoreNow()), admitGen)
    {
      if admitGen != generation {
        return;
      }
      var cur := halfOpenInflight;
      if cur <= 0 {
        return;
      }
      halfOpenInflight := cur - 1;
    }

    method NoteSuccess(admitGen: nat)
      modifies this`state, this`failures, this`halfOpenSuccesses, this`generation, this`edges
      ensures CoreNow() == RecordSuccess(cfg, old(CoreNow()), admitGen)
      ensures edges == old(edges) + Edge(old(state), state)
    {
      if state == Closed && failures == 0 {
        return;
      }
      if admitGen != generation {
        return;
      }
      match state {
        case HalfOpen =>
          halfOpenSuccesses := halfOpenSuccesses + 1;
          if halfOpenSuccesses < cfg.successThreshold {
            return;
          }
          halfOpenSuccesses := 0;
          failures := 0;
          generation := generation + 1;
          state := Closed;
          FireStateChange(HalfOpen, Closed);
        case Closed =>
          failures := 0;
        case Open =>
      }
    }

    method NoteFailure(forced: bool, admitGen: nat, now: int)
      modifies this`state, this`failures, this`halfOpenSuccesses, this`lastOpen, this`trips, this`edges
      ensures CoreNow() == RecordFailure(cfg, old(CoreNow()), forced, admitGen, now)
      ensures edges == old(edges) + Edge(old(state), state)
    {
      if admitGen != generation {
        return;
      }
      var live := state;
      if live == Open {
        return;
      }
      failures := failures + 1;
      if !forced && live == Closed && failures < cfg.maxFailures {
        return;
      }
      if live == HalfOpen {
        halfOpenSuccesses := 0;
      }
      state, lastOpen, trips := Open, now, trips + 1;
      FireStateChange(live, Open);
    }

    method ForceOpen(admitState: State, admitGen: nat, now: int)
      modifies this`state, this`lastOpen, this`trips, this`edges
      ensures CoreNow() == OpenFrom(old(CoreNow()), admitGen, now)
      ensures edges == old(edges) + Edge(old(state), state)
    {
      if admitGen != generation {
        return;
      }
      var prev := state;
      if prev == Open {
        return;
      }
      state, lastOpen, trips := Open, now, trips + 1;
      var from := admitState;
      if prev != admitState {
        from := prev;
      }
      FireStateChange(from, Open);
    }

    /** executeRun from the return of the callback up to, not including, the deferred FreeProbe. */
    method SettleRun(o: Outcome, admitState: State, admitGen: nat, now: int)
      modifies this`state, this`failures, this`halfOpenSuccesses, this`generation, this`lastOpen, this`trips,
               this`edges, this`successes, this`totalFail
      ensures CoreNow() == Settle(cfg, old(CoreNow()), VerdictOf(cfg, o), admitGen, now)
      ensures edges == old(edges) + Edge(old(state), state)
      ensures successes == old(successes) + (if VerdictOf(cfg, o) == Success then 1 else 0)
      ensures totalFail == old(totalFail) + (if VerdictOf(cfg, o) in {Failure, ForcedFailure} then 1 else 0)
    {
      if o.result.Failed? && !o.skipFailure && CountsAsFailure(cfg, o.result) {
        totalFail := totalFail + 1;
        NoteFailure(o.tripped, admitGen, now);
        return;
      }
      if o.tripped {
        ForceOpen(admitState, admitGen, now);
        return;
      }
      if o.result.Failed? {
        return;
      }
      successes := successes + 1;
      NoteSuccess(admitGen);
    }

    method ResetBreaker()
      modifies this`state, this`failures, this`halfOpenInflight, this`halfOpenSuccesses, this`generation, this`edges
      ensures CoreNow() == Reset(old(CoreNow()))
      ensures edges == old(edges) + Edge(old(state), state)
    {
      failures := 0;
      var prev := state;
      state := Closed;
      generation := generation + 1;
      halfOpenInflight := 0;
      halfOpenSuccesses := 0;
      if prev != Closed {
        FireStateChange(prev, Closed);
      }
    }
  }
}
