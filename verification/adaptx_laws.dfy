/**
 The control laws of the adaptive limiter over real numbers, the window they
 are fed and the latency estimators, and the bounds these keep over runs.
 int(x) of a non-negative float is the floor.
 */
module AdaptxLaws {
  import opened Wrappers
  import opened AdaptxPool

  datatype Algorithm = Aimd | Vegas | Gradient

  datatype Config = Config(
    algorithm: Algorithm, bounds: Bounds, warmupSamples: nat,
    smoothing: real, increaseRate: real, decreaseRatio: real, tolerance: real,
    minLatDecay: real, jitter: real, utilization: real,
    targetLatency: real, sampleWindow: int)
  {
    /** What the option setters and New leave behind. */
    predicate Valid() {
      && bounds.Valid()
      && 0.0 < smoothing <= 1.0 && 0.0 < increaseRate && 0.0 < decreaseRatio < 1.0
      && 0.0 < tolerance <= 1.0 && 0.0 <= minLatDecay <= 1.0 && 0.0 <= jitter <= 1.0
      && 0.0 < utilization <= 1.0 && 0.0 < targetLatency && 0 < sampleWindow
    }
  }

  /** The window in progress; minRTT is None where Go stores MaxFloat64. */
  datatype Window = Window(start: int, n: nat, fails: nat, maxInFlight: int, rttSum: real, minRTT: Option<real>)

  datatype Estimators = Estimators(avgLat: real, minLat: Option<real>)

  /** What jitter draws: two numbers in [0, 1). */
  datatype Draws = Draws(share: real, coin: real) {
    predicate Valid() {
      0.0 <= share < 1.0 && 0.0 <= coin < 1.0
    }
  }

  function FreshWindow(now: int): Window {
    Window(now, 0, 0, 0, 0.0, None)
  }

  function LowerTo(m: Option<real>, x: real): Option<real> {
    if m.None? || x < m.value then Some(x) else m
  }

  function Mean(w: Window): real {
    if w.n > 0 then w.rttSum / w.n as real else 0.0
  }

  /** The smallest integer not below x. */
  function Ceil(x: real): int {
    if x.Floor as real == x then x.Floor else x.Floor + 1
  }

  function Cut(cfg: Config, limit: int): int {
    (limit as real * cfg.decreaseRatio).Floor
  }

  /** The window peak AIMD asks for before it grows. */
  function Gate(cfg: Config, limit: int): int {
    Ceil(limit as real * cfg.utilization)
  }

  // ----- the three laws: next limit before jitter and clamping

  /** AIMD also moves the increase credit. */
  function AimdLaw(cfg: Config, limit: int, credit: real, w: Window): (int, real) {
    if w.fails > 0 then
      (Cut(cfg, limit), 0.0)
    else if w.maxInFlight < Gate(cfg, limit) then
      (limit, credit)
    else
      var total := credit + cfg.increaseRate;
      (limit + total.Floor, total - total.Floor as real)
  }

  function VegasAlpha(cfg: Config, limit: int, minRTT: real): real
    requires cfg.targetLatency > 0.0
  {
    if cfg.targetLatency > minRTT then
      limit as real * cfg.tolerance * (1.0 - minRTT / cfg.targetLatency)
    else
      limit as real * cfg.tolerance
  }

  function VegasQueue(limit: int, minRTT: real, rtt: real): real
    requires rtt > 0.0
  {
    limit as real * (1.0 - minRTT / rtt)
  }

  function VegasLaw(cfg: Config, limit: int, minLat: Option<real>, rtt: real): int
    requires cfg.targetLatency > 0.0
  {
    if minLat.None? || rtt <= 0.0 || minLat.value <= 0.0 then
      limit
    else
      var queue, alpha := VegasQueue(limit, minLat.value, rtt), VegasAlpha(cfg, limit, minLat.value);
      if queue < alpha then limit + 1
      else if queue > alpha * 2.0 then Cut(cfg, limit)
      else limit
  }

  function MaxReal(a: real, b: real): real {
    if a < b then b else a
  }

  function Factor(cfg: Config, g: real): real {
    MaxReal(1.0 - g * cfg.decreaseRatio, cfg.decreaseRatio)
  }

  function BackOff(cfg: Config, limit: int, g: real): int {
    (limit as real * Factor(cfg, g)).Floor
  }

  function GradientLaw(cfg: Config, limit: int, avgLat: real, fails: nat, mean: real): int {
    if fails > 0 then
      Cut(cfg, limit)
    else if avgLat <= 0.0 then
      limit
    else
      var g := (mean - avgLat) / avgLat;
      if g < -cfg.tolerance then limit + 2
      else if g <= cfg.tolerance then limit + 1
      else BackOff(cfg, limit, g)
  }

  function Law(cfg: Config, limit: int, credit: real, est: Estimators, w: Window): (int, real)
    requires cfg.targetLatency > 0.0
  {
    match cfg.algorithm
    case Vegas => (VegasLaw(cfg, limit, est.minLat, Mean(w)), credit)
    case Gradient => (GradientLaw(cfg, limit, est.avgLat, w.fails, Mean(w)), credit)
    case Aimd => AimdLaw(cfg, limit, credit, w)
  }

  function Share(rise: real, jitter: real, share: real): real {
    rise * jitter * share
  }

  function Withheld(cfg: Config, rise: int, share: real): int {
    Share(rise as real, cfg.jitter, share).Floor
  }

  /** Jitter may withhold part of an increase. */
  function Jittered(cfg: Config, limit0: int, next: int, d: Draws): int {
    if next > limit0 && cfg.jitter > 0.0 && d.coin < 0.5 then
      next - Withheld(cfg, next - limit0, d.share)
    else
      next
  }

  function Clamp(b: Bounds, next: int): int {
    var up := if next < b.minLimit then b.minLimit else next;
    if up > b.maxLimit then b.maxLimit else up
  }

  /** The limit and credit after one closed window. */
  function NextLimit(cfg: Config, limit: int, credit: real, est: Estimators, w: Window, d: Draws): (int, real)
    requires cfg.targetLatency > 0.0
  {
    var (next, left) := Law(cfg, limit, credit, est, w);
    (Clamp(cfg.bounds, Jittered(cfg, limit, next, d)), left)
  }

  // ----- the estimators

  function Blend(weight: real, x: real, y: real): real {
    weight * x + (1.0 - weight) * y
  }

  function Drift(m: real, decay: real, avg: real): real {
    m + decay * (avg - m)
  }

  function UpdateEstimators(cfg: Config, est: Estimators, mean: real): Estimators {
    if mean <= 0.0 then
      est
    else
      var avg := if est.avgLat <= 0.0 then mean else Blend(cfg.smoothing, mean, est.avgLat);
      Estimators(avg,
                 if cfg.minLatDecay > 0.0 && est.minLat.Some?
                 then Some(Drift(est.minLat.value, cfg.minLatDecay, avg))
                 else est.minLat)
  }

  // ----- arithmetic of one window

  lemma CutShrinks(cfg: Config, limit: int)
    requires cfg.Valid() && limit >= 1
    ensures 0 <= Cut(cfg, limit) < limit
    ensures Cut(cfg, limit) as real <= limit as real * cfg.decreaseRatio
  {
    ScaleBelow(limit as real, cfg.decreaseRatio);
  }

  lemma PositiveProduct(x: real, y: real)
    requires x > 0.0 && y > 0.0
    ensures x * y > 0.0
  {
  }

  lemma NonNegativeProduct(x: real, y: real)
    requires x >= 0.0 && y >= 0.0
    ensures x * y >= 0.0
  {
  }

  /** A positive number times a factor in [0, 1) stays below itself. */
  lemma ScaleBelow(x: real, f: real)
    requires x > 0.0 && 0.0 <= f < 1.0
    ensures 0.0 <= x * f < x
    ensures f > 0.0 ==> x * f > 0.0
  {
    PositiveProduct(x, 1.0 - f);
    NonNegativeProduct(x, f);
  }

  /** Dividing by a positive number keeps the order. */
  lemma DivideKeepsOrder(x: real, y: real, d: real)
    requires d > 0.0 && x <= y
    ensures x / d <= y / d
  {
    NonNegativeProduct(y - x, 1.0 / d);
    assert (y - x) * (1.0 / d) == y / d - x / d;
  }

  lemma ScaleMonotone(x: real, y: real, f: real)
    requires x <= y && f >= 0.0
    ensures x * f <= y * f
  {
    NonNegativeProduct(y - x, f);
  }

  lemma ShareIsAPart(x: real, f: real, g: real)
    requires x > 0.0 && 0.0 <= f <= 1.0 && 0.0 <= g < 1.0
    ensures 0.0 <= Share(x, f, g) < x
  {
    NonNegativeProduct(x, f);
    ScaleMonotone(f, 1.0, x);
    ScaleAtMost(x * f, x, g);
  }

  lemma ScaleAtMost(y: real, x: real, g: real)
    requires 0.0 <= y <= x && 0.0 < x && 0.0 <= g < 1.0
    ensures 0.0 <= y * g < x
  {
    NonNegativeProduct(y, g);
    calc {
      y * g;
    <= { ScaleMonotone(y, x, g); }
      x * g;
    <  { ScaleBelow(x, g); }
      x;
    }
  }

  lemma WithheldIsAPart(cfg: Config, rise: int, share: real)
    requires cfg.Valid() && 0.0 <= share < 1.0 && rise >= 1
    ensures 0 <= Withheld(cfg, rise, share) < rise
  {
    ShareIsAPart(rise as real, cfg.jitter, share);
  }

  lemma JitterWithholdsAPart(cfg: Config, limit0: int, next: int, d: Draws)
    requires cfg.Valid() && d.Valid()
    ensures next <= limit0 ==> Jittered(cfg, limit0, next, d) == next
    ensures next > limit0 ==> limit0 < Jittered(cfg, limit0, next, d) <= next
  {
    if next > limit0 {
      WithheldIsAPart(cfg, next - limit0, d.share);
    }
  }

  /** Whatever the law says, the limit stays within its configured bounds. */
  lemma NextLimitInBounds(cfg: Config, limit: int, credit: real, est: Estimators, w: Window, d: Draws)
    requires cfg.Valid()
    ensures cfg.bounds.minLimit <= NextLimit(cfg, limit, credit, est, w, d).0 <= cfg.bounds.maxLimit
  {
  }

  /** One AIMD window adds at most increaseRate to limit plus credit, jitter and clamps included. */
  lemma AimdWindowGain(cfg: Config, limit: int, credit: real, est: Estimators, w: Window, d: Draws)
    requires cfg.Valid() && d.Valid() && cfg.algorithm == Aimd
    requires cfg.bounds.minLimit <= limit <= cfg.bounds.maxLimit && 0.0 <= credit < 1.0
    ensures var (next, left) := NextLimit(cfg, limit, credit, est, w, d);
      && 0.0 <= left < 1.0
      && next as real + left <= limit as real + credit + cfg.increaseRate
  {
    var (raw, left) := AimdLaw(cfg, limit, credit, w);
    JitterWithholdsAPart(cfg, limit, raw, d);
    CutShrinks(cfg, limit);
  }

  /** A window with a failure cuts the limit once: strictly, unless it is at its floor already. */
  lemma AimdFailingWindow(cfg: Config, limit: int, credit: real, est: Estimators, w: Window, d: Draws)
    requires cfg.Valid() && d.Valid() && cfg.algorithm == Aimd && w.fails > 0
    requires cfg.bounds.minLimit <= limit <= cfg.bounds.maxLimit
    ensures var (next, left) := NextLimit(cfg, limit, credit, est, w, d);
      && left == 0.0
      && next == Max(cfg.bounds.minLimit, Cut(cfg, limit))
      && (limit > cfg.bounds.minLimit ==> next < limit)
      && (limit == cfg.bounds.minLimit ==> next == limit)
  {
    CutShrinks(cfg, limit);
  }

  lemma GateIsShare(cfg: Config, limit: int)
    ensures limit as real * cfg.utilization <= Gate(cfg, limit) as real
  {
  }

  /** The law itself rises exactly out of a busy window without failures, once a whole unit of credit is there. */
  lemma AimdLawRises(cfg: Config, limit: int, credit: real, w: Window)
    requires cfg.Valid() && limit >= 1
    ensures AimdLaw(cfg, limit, credit, w).0 > limit <==>
      w.fails == 0 && Gate(cfg, limit) <= w.maxInFlight && credit + cfg.increaseRate >= 1.0
  {
    hide Gate, Cut;
    CutShrinks(cfg, limit);
  }

  lemma GateReached(cfg: Config, limit: int, peak: int)
    ensures Gate(cfg, limit) <= peak <==> limit as real * cfg.utilization <= peak as real
  {
  }

  /** Jitter and clamping raise the limit exactly when the law did and there is room. */
  lemma RiseComesFromLaw(cfg: Config, limit: int, next: int, d: Draws)
    requires cfg.Valid() && d.Valid() && cfg.bounds.minLimit <= limit <= cfg.bounds.maxLimit
    ensures Clamp(cfg.bounds, Jittered(cfg, limit, next, d)) > limit <==> next > limit && limit < cfg.bounds.maxLimit
  {
    hide Jittered;
    JitterWithholdsAPart(cfg, limit, next, d);
  }

  /**
   AIMD moves up if and only if the window had no failure, its peak reached the utilization gate, a whole unit of
   credit is there and maxLimit is not reached. Jitter never withholds all of it.
   */
  lemma AimdGrowsOnlyWhenBusy(cfg: Config, limit: int, credit: real, est: Estimators, w: Window, d: Draws)
    requires cfg.Valid() && d.Valid() && cfg.algorithm == Aimd
    requires cfg.bounds.minLimit <= limit <= cfg.bounds.maxLimit && 0.0 <= credit < 1.0
    ensures NextLimit(cfg, limit, credit, est, w, d).0 > limit <==>
      && w.fails == 0
      && w.maxInFlight as real >= limit as real * cfg.utilization
      && credit + cfg.increaseRate >= 1.0
      && limit < cfg.bounds.maxLimit
  {
    hide AimdLaw, Gate, Jittered, Clamp;
    var raw := AimdLaw(cfg, limit, credit, w).0;
    RiseComesFromLaw(cfg, limit, raw, d);
    AimdLawRises(cfg, limit, credit, w);
    GateReached(cfg, limit, w.maxInFlight);
  }

  /**
   A busy window without failures banks exactly the rate; what does not make a whole permit stays as credit. A window
   that was not busy keeps limit and credit.
   */
  lemma AimdBanksTheRate(cfg: Config, limit: int, credit: real, w: Window)
    requires cfg.Valid() && w.fails == 0 && 0.0 <= credit < 1.0
    ensures var (next, left) := AimdLaw(cfg, limit, credit, w);
      if w.maxInFlight as real >= limit as real * cfg.utilization
      then next as real + left == limit as real + credit + cfg.increaseRate && 0.0 <= left < 1.0
      else next == limit && left == credit
  {
    hide Gate;
    GateReached(cfg, limit, w.maxInFlight);
  }

  /** Jitter takes something of a rise only on one side of its coin, and then the whole permits of its share. */
  lemma JitterTakesItsShare(cfg: Config, limit0: int, next: int, d: Draws)
    requires cfg.Valid() && d.Valid() && next > limit0
    ensures d.coin >= 0.5 || cfg.jitter == 0.0 ==> Jittered(cfg, limit0, next, d) == next
    ensures d.coin < 0.5 && cfg.jitter > 0.0 ==>
      var taken, share := next - Jittered(cfg, limit0, next, d), (next - limit0) as real * cfg.jitter * d.share;
      taken as real <= share < taken as real + 1.0
  {
  }

  lemma FractionOrder(m: real, a: real, b: real)
    requires m >= 0.0 && 0.0 < a <= b
    ensures m / b <= m / a
  {
    DivideKeepsOrder(m * a, m * b, a * b) by {
      ScaleMonotone(a, b, m);
    }
    assert (m * a) / (a * b) == m / b;
    assert (m * b) / (a * b) == m / a;
  }

  lemma FractionAtMostOne(m: real, r: real)
    requires 0.0 < m <= r
    ensures 0.0 < m / r <= 1.0
  {
    DivideKeepsOrder(m, r, r);
  }

  /** With the estimator invariant minLat <= mean the estimated queue fits the limit. */
  lemma VegasQueueInRange(limit: int, minRTT: real, rtt: real)
    requires limit >= 1 && 0.0 < minRTT <= rtt
    ensures 0.0 <= VegasQueue(limit, minRTT, rtt) < limit as real
  {
    FractionAtMostOne(minRTT, rtt);
    var f := 1.0 - minRTT / rtt;
    ScaleBelow(limit as real, f);
  }

  lemma VegasAlphaPositive(cfg: Config, limit: int, minRTT: real)
    requires cfg.Valid() && limit >= 1 && minRTT > 0.0
    ensures VegasAlpha(cfg, limit, minRTT) > 0.0
  {
    PositiveProduct(limit as real, cfg.tolerance);
    if cfg.targetLatency > minRTT {
      PositiveProduct(cfg.targetLatency - minRTT, 1.0 / cfg.targetLatency);
      assert (cfg.targetLatency - minRTT) * (1.0 / cfg.targetLatency) == 1.0 - minRTT / cfg.targetLatency;
      PositiveProduct(limit as real * cfg.tolerance, 1.0 - minRTT / cfg.targetLatency);
    }
  }

  /** The queue estimate grows with the window mean. */
  lemma VegasQueueGrows(limit: int, minRTT: real, fast: real, slow: real)
    requires limit >= 1 && 0.0 < minRTT && 0.0 < fast <= slow
    ensures VegasQueue(limit, minRTT, fast) <= VegasQueue(limit, minRTT, slow)
  {
    FractionOrder(minRTT, fast, slow);
    ScaleMonotone(1.0 - minRTT / fast, 1.0 - minRTT / slow, limit as real);
  }

  /** A product with a positive factor compares as the other factor does. */
  lemma ScaleCompare(f: real, x: real, y: real)
    requires f > 0.0
    ensures f * x < f * y <==> x < y
  {
    if x < y {
      PositiveProduct(f, y - x);
    } else {
      NonNegativeProduct(f, x - y);
    }
  }

  /** The share of the limit that queues, and the share Vegas aims at, do not depend on the limit. */
  function QueueShare(minRTT: real, rtt: real): real
    requires rtt > 0.0
  {
    1.0 - minRTT / rtt
  }

  function AimedShare(cfg: Config, minRTT: real): real
    requires cfg.targetLatency > 0.0
  {
    cfg.tolerance * (if cfg.targetLatency > minRTT then 1.0 - minRTT / cfg.targetLatency else 1.0)
  }

  lemma SharesScale(cfg: Config, limit: int, minRTT: real, rtt: real)
    requires cfg.Valid() && rtt > 0.0
    ensures VegasQueue(limit, minRTT, rtt) == limit as real * QueueShare(minRTT, rtt)
    ensures VegasAlpha(cfg, limit, minRTT) == limit as real * AimedShare(cfg, minRTT)
  {
    var l := limit as real;
    if cfg.targetLatency > minRTT {
      var f := 1.0 - minRTT / cfg.targetLatency;
      assert l * cfg.tolerance * f == l * (cfg.tolerance * f);
    } else {
      assert cfg.tolerance * 1.0 == cfg.tolerance;
    }
  }

  /**
   Vegas rises by one exactly below the share of the limit it lets queue, cuts exactly above twice that share, and
   holds in between or while nothing has been measured.
   */
  lemma VegasSteers(cfg: Config, limit: int, minLat: Option<real>, rtt: real)
    requires cfg.Valid() && limit >= 1
    ensures minLat.None? || rtt <= 0.0 || minLat.value <= 0.0 ==> VegasLaw(cfg, limit, minLat, rtt) == limit
    ensures minLat.Some? && rtt > 0.0 && minLat.value > 0.0 ==>
      var next := VegasLaw(cfg, limit, minLat, rtt);
      var queued, aimed := QueueShare(minLat.value, rtt), AimedShare(cfg, minLat.value);
      && (next == limit + 1 <==> queued < aimed)
      && (next > limit ==> next == limit + 1)
      && (next < limit <==> queued > 2.0 * aimed)
      && (next < limit ==> next == Cut(cfg, limit))
  {
    hide VegasQueue, VegasAlpha, QueueShare, AimedShare, Cut;
    CutShrinks(cfg, limit);
    if minLat.Some? && rtt > 0.0 && minLat.value > 0.0 {
      var l, queued, aimed := limit as real, QueueShare(minLat.value, rtt), AimedShare(cfg, minLat.value);
      SharesScale(cfg, limit, minLat.value, rtt);
      VegasAlphaPositive(cfg, limit, minLat.value);
      ScaleCompare(l, queued, aimed);
      ScaleCompare(l, 2.0 * aimed, queued);
      assert l * (2.0 * aimed) == l * aimed * 2.0;
    }
  }

  /** For a fixed state, a slower window never earns a larger Vegas limit. */
  lemma VegasNonIncreasing(cfg: Config, limit: int, minLat: Option<real>, fast: real, slow: real)
    requires cfg.Valid() && limit >= 1 && 0.0 < fast <= slow
    ensures VegasLaw(cfg, limit, minLat, slow) <= VegasLaw(cfg, limit, minLat, fast)
  {
    CutShrinks(cfg, limit);
    if minLat.Some? && minLat.value > 0.0 {
      VegasAlphaPositive(cfg, limit, minLat.value);
      VegasQueueGrows(limit, minLat.value, fast, slow);
    }
  }

  lemma GradientSlope(avgLat: real, fast: real, slow: real)
    requires avgLat > 0.0 && fast <= slow
    ensures (fast - avgLat) / avgLat <= (slow - avgLat) / avgLat
  {
    DivideKeepsOrder(fast - avgLat, slow - avgLat, avgLat);
  }

  /** Gradient's backoff factor lies between decreaseRatio and 1, and falls as latency climbs. */
  lemma BackoffFactor(cfg: Config, g: real, h: real)
    requires cfg.Valid() && cfg.tolerance < g <= h
    ensures cfg.decreaseRatio <= Factor(cfg, h) <= Factor(cfg, g) < 1.0
  {
    PositiveProduct(g, cfg.decreaseRatio);
    ScaleMonotone(g, h, cfg.decreaseRatio);
  }

  /** Backing off removes at least one permit and at most what decreaseRatio removes. */
  lemma BackoffBounds(cfg: Config, limit: int, g: real, h: real)
    requires cfg.Valid() && limit >= 1 && cfg.tolerance < g <= h
    ensures Cut(cfg, limit) <= BackOff(cfg, limit, h) <= BackOff(cfg, limit, g) <= limit - 1
  {
    hide Factor;
    BackoffFactor(cfg, g, h);
    FloorOfScaled(limit, Factor(cfg, h), Factor(cfg, g));
    FloorOfScaled(limit, cfg.decreaseRatio, Factor(cfg, h));
  }

  lemma FloorOfScaled(n: int, f: real, g: real)
    requires n >= 1 && 0.0 <= f <= g < 1.0
    ensures (n as real * f).Floor <= (n as real * g).Floor <= n - 1
  {
    ScaleMonotone(f, g, n as real);
    ScaleBelow(n as real, g);
  }

  /** How a mean compares with a multiple of the average is how its gradient compares. */
  lemma GradientCompare(avgLat: real, mean: real, k: real)
    requires avgLat > 0.0
    ensures (mean - avgLat) / avgLat < k <==> mean < (1.0 + k) * avgLat
    ensures (mean - avgLat) / avgLat > k <==> mean > (1.0 + k) * avgLat
  {
    var g := (mean - avgLat) / avgLat;
    assert avgLat * g == mean - avgLat;
    assert avgLat * (1.0 + k) == avgLat + avgLat * k;
    ScaleCompare(avgLat, g, k);
    ScaleCompare(avgLat, k, g);
  }

  /**
   Gradient cuts a window with a failure, holds until there is an average, and else rises by two well below the
   average, by one within the tolerance band around it, and falls exactly above the band.
   */
  lemma GradientSteers(cfg: Config, limit: int, avgLat: real, fails: nat, mean: real)
    requires cfg.Valid() && limit >= 1
    ensures var next := GradientLaw(cfg, limit, avgLat, fails, mean);
      && (fails > 0 ==> next < limit && next == Cut(cfg, limit))
      && (fails == 0 && avgLat <= 0.0 ==> next == limit)
      && (fails == 0 && avgLat > 0.0 ==>
            && (next == limit + 2 <==> mean < (1.0 - cfg.tolerance) * avgLat)
            && (next == limit + 1 <==> (1.0 - cfg.tolerance) * avgLat <= mean <= (1.0 + cfg.tolerance) * avgLat)
            && (next < limit <==> mean > (1.0 + cfg.tolerance) * avgLat))
  {
    hide BackOff, Cut;
    CutShrinks(cfg, limit);
    if fails == 0 && avgLat > 0.0 {
      GradientCompare(avgLat, mean, -cfg.tolerance);
      GradientCompare(avgLat, mean, cfg.tolerance);
      var g := (mean - avgLat) / avgLat;
      if g > cfg.tolerance {
        BackoffBounds(cfg, limit, g, g);
      }
      BandIsOrdered(cfg, avgLat);
    }
  }

  lemma BandIsOrdered(cfg: Config, avgLat: real)
    requires cfg.Valid() && avgLat > 0.0
    ensures (1.0 - cfg.tolerance) * avgLat < (1.0 + cfg.tolerance) * avgLat
  {
    ScaleCompare(avgLat, 1.0 - cfg.tolerance, 1.0 + cfg.tolerance);
  }

  /** A failure-free window slower than the tolerance band backs off by at least one and at most decreaseRatio. */
  lemma GradientBackoff(cfg: Config, limit: int, avgLat: real, mean: real)
    requires cfg.Valid() && limit >= 1 && avgLat > 0.0
    requires (mean - avgLat) / avgLat > cfg.tolerance
    ensures Cut(cfg, limit) <= GradientLaw(cfg, limit, avgLat, 0, mean) <= limit - 1
  {
    var g := (mean - avgLat) / avgLat;
    BackoffBounds(cfg, limit, g, g);
  }

  /** n is the integer part of l * rest / a. */
  predicate IsPart(n: int, l: real, rest: real, a: real) {
    n as real * a <= l * rest < (n as real + 1.0) * a
  }

  /**
   Above the band a window slower than the average by some part of it loses decreaseRatio times that part of the
   limit, rounded up to whole permits, but never more than a failing window.
   */
  lemma GradientTakesTheSlowdown(cfg: Config, limit: int, avgLat: real, mean: real)
    requires cfg.Valid() && limit >= 1 && avgLat > 0.0 && mean > (1.0 + cfg.tolerance) * avgLat
    ensures var next, lost := GradientLaw(cfg, limit, avgLat, 0, mean), cfg.decreaseRatio * (mean - avgLat);
      if lost <= (1.0 - cfg.decreaseRatio) * avgLat
      then IsPart(next, limit as real, avgLat - lost, avgLat)
      else next == Cut(cfg, limit)
  {
    hide IsPart, BackOff, Cut;
    GradientCompare(avgLat, mean, cfg.tolerance);
    BackOffIsPart(cfg, limit, avgLat, mean);
  }

  lemma BackOffIsPart(cfg: Config, limit: int, avgLat: real, mean: real)
    requires avgLat > 0.0
    ensures var next, lost := BackOff(cfg, limit, (mean - avgLat) / avgLat), cfg.decreaseRatio * (mean - avgLat);
      if lost <= (1.0 - cfg.decreaseRatio) * avgLat
      then IsPart(next, limit as real, avgLat - lost, avgLat)
      else next == Cut(cfg, limit)
  {
    hide IsPart, Factor, BackOff;
    var g, lost := (mean - avgLat) / avgLat, cfg.decreaseRatio * (mean - avgLat);
    KeptShare(cfg, avgLat, mean);
    BackOffFloors(cfg, limit, g, avgLat);
    if lost <= (1.0 - cfg.decreaseRatio) * avgLat {
      assert avgLat * Factor(cfg, g) == avgLat - lost;
      assert IsPart(BackOff(cfg, limit, g), limit as real, avgLat * Factor(cfg, g), avgLat);
    }
  }

  lemma BackOffFloors(cfg: Config, limit: int, g: real, avgLat: real)
    requires avgLat > 0.0
    ensures IsPart(BackOff(cfg, limit, g), limit as real, avgLat * Factor(cfg, g), avgLat)
    ensures Factor(cfg, g) == cfg.decreaseRatio ==> BackOff(cfg, limit, g) == Cut(cfg, limit)
  {
    hide Factor;
    var l, f := limit as real, Factor(cfg, g);
    var n, kept := BackOff(cfg, limit, g) as real, l * f;
    ScaleMonotone(n, kept, avgLat);
    ScaleCompare(avgLat, kept, n + 1.0);
    assert kept * avgLat == l * (avgLat * f);
  }

  lemma KeptShare(cfg: Config, avgLat: real, mean: real)
    requires avgLat > 0.0
    ensures var kept, lost := Factor(cfg, (mean - avgLat) / avgLat), cfg.decreaseRatio * (mean - avgLat);
      if lost <= (1.0 - cfg.decreaseRatio) * avgLat then avgLat * kept == avgLat - lost else kept == cfg.decreaseRatio
  {
    SlowdownScales(avgLat, mean, cfg.decreaseRatio);
    SlowdownWithin(avgLat, mean, cfg.decreaseRatio);
  }

  lemma SlowdownWithin(avgLat: real, mean: real, r: real)
    requires avgLat > 0.0
    ensures r * (mean - avgLat) <= (1.0 - r) * avgLat <==> (mean - avgLat) / avgLat * r <= 1.0 - r
  {
    SlowdownScales(avgLat, mean, r);
    ScaleCompare(avgLat, 1.0 - r, (mean - avgLat) / avgLat * r);
  }

  lemma SlowdownScales(avgLat: real, mean: real, r: real)
    requires avgLat > 0.0
    ensures var g := (mean - avgLat) / avgLat;
      avgLat * (g * r) == r * (mean - avgLat) && avgLat * (1.0 - g * r) == avgLat - r * (mean - avgLat)
  {
    var g := (mean - avgLat) / avgLat;
    assert avgLat * g == mean - avgLat;
    assert avgLat * (g * r) == (avgLat * g) * r;
  }

  /** For a fixed state, a slower failure-free window never earns a larger Gradient limit. */
  lemma GradientNonIncreasing(cfg: Config, limit: int, avgLat: real, fast: real, slow: real)
    requires cfg.Valid() && limit >= 1 && fast <= slow
    ensures GradientLaw(cfg, limit, avgLat, 0, slow) <= GradientLaw(cfg, limit, avgLat, 0, fast)
  {
    hide BackOff, Cut;
    if avgLat > 0.0 {
      GradientSlope(avgLat, fast, slow);
      var gf, gs := (fast - avgLat) / avgLat, (slow - avgLat) / avgLat;
      if gf > cfg.tolerance {
        BackoffBounds(cfg, limit, gf, gs);
      } else if gs > cfg.tolerance {
        BackoffBounds(cfg, limit, gs, gs);
      }
    }
  }

  /** Clamping and jitter keep a fall a fall, unless the limit is at its floor. */
  lemma FallComesFromLaw(cfg: Config, limit: int, next: int, d: Draws)
    requires cfg.Valid() && d.Valid() && cfg.bounds.minLimit <= limit <= cfg.bounds.maxLimit
    ensures Clamp(cfg.bounds, Jittered(cfg, limit, next, d)) < limit <==> next < limit && limit > cfg.bounds.minLimit
    ensures next < limit ==> Clamp(cfg.bounds, Jittered(cfg, limit, next, d)) == Max(cfg.bounds.minLimit, next)
  {
    hide Jittered;
    JitterWithholdsAPart(cfg, limit, next, d);
  }

  /** What one closed Vegas window does to the limit, told from the shares of the limit that queue and may queue. */
  lemma VegasMoves(cfg: Config, limit: int, credit: real, est: Estimators, w: Window, d: Draws)
    requires cfg.Valid() && d.Valid() && cfg.algorithm == Vegas
    requires cfg.bounds.minLimit <= limit <= cfg.bounds.maxLimit
    requires est.minLat.Some? && est.minLat.value > 0.0 && Mean(w) > 0.0
    ensures var next, queued, aimed :=
        NextLimit(cfg, limit, credit, est, w, d), QueueShare(est.minLat.value, Mean(w)), AimedShare(cfg, est.minLat.value);
      && (next.0 > limit <==> queued < aimed && limit < cfg.bounds.maxLimit)
      && (next.0 < limit <==> queued > 2.0 * aimed && limit > cfg.bounds.minLimit)
      && (next.0 < limit ==> next.0 == Max(cfg.bounds.minLimit, Cut(cfg, limit)))
      && next.1 == credit
  {
    hide VegasLaw, Jittered, Clamp, Mean, QueueShare, AimedShare, Cut, Max;
    var raw := VegasLaw(cfg, limit, est.minLat, Mean(w));
    VegasSteers(cfg, limit, est.minLat, Mean(w));
    RiseComesFromLaw(cfg, limit, raw, d);
    FallComesFromLaw(cfg, limit, raw, d);
  }

  /** What one closed Gradient window does to the limit, told from its failures and its mean against the average. */
  lemma GradientMoves(cfg: Config, limit: int, credit: real, est: Estimators, w: Window, d: Draws)
    requires cfg.Valid() && d.Valid() && cfg.algorithm == Gradient
    requires cfg.bounds.minLimit <= limit <= cfg.bounds.maxLimit
    ensures var next, avg, mean := NextLimit(cfg, limit, credit, est, w, d), est.avgLat, Mean(w);
      && (next.0 > limit <==>
            w.fails == 0 && avg > 0.0 && mean <= (1.0 + cfg.tolerance) * avg && limit < cfg.bounds.maxLimit)
      && (next.0 < limit <==>
            (w.fails > 0 || (avg > 0.0 && mean > (1.0 + cfg.tolerance) * avg)) && limit > cfg.bounds.minLimit)
      && (w.fails > 0 ==> next.0 == Max(cfg.bounds.minLimit, Cut(cfg, limit)))
      && next.1 == credit
  {
    hide GradientLaw, Jittered, Clamp, Mean, Cut, Max;
    var raw := GradientLaw(cfg, limit, est.avgLat, w.fails, Mean(w));
    GradientSteers(cfg, limit, est.avgLat, w.fails, Mean(w));
    RiseComesFromLaw(cfg, limit, raw, d);
    FallComesFromLaw(cfg, limit, raw, d);
    if est.avgLat > 0.0 {
      BandIsOrdered(cfg, est.avgLat);
    }
  }

  /** A blend of two numbers not below m is not below m. */
  lemma BlendKeepsFloor(weight: real, x: real, y: real, m: real)
    requires 0.0 <= weight <= 1.0 && m <= x && m <= y
    ensures m <= Blend(weight, x, y)
  {
    NonNegativeProduct(weight, x - m);
    NonNegativeProduct(1.0 - weight, y - m);
  }

  /** A window whose samples are all at least m has a mean of at least m. */
  lemma MeanAtLeast(w: Window, m: real)
    requires w.n > 0 && w.rttSum >= w.n as real * m
    ensures Mean(w) >= m
  {
    var n := w.n as real;
    DivideKeepsOrder(n * m, w.rttSum, n);
    assert (n * m) / n == m;
  }

  /** The first window sets the average; later ones leave the share 1 - smoothing of its distance to the mean. */
  lemma AverageApproachesMean(cfg: Config, est: Estimators, mean: real)
    requires cfg.Valid() && mean > 0.0
    ensures var e := UpdateEstimators(cfg, est, mean);
      e.avgLat - mean == if est.avgLat <= 0.0 then 0.0 else (1.0 - cfg.smoothing) * (est.avgLat - mean)
  {
    assert (1.0 - cfg.smoothing) * (est.avgLat - mean) == (1.0 - cfg.smoothing) * est.avgLat - (mean - cfg.smoothing * mean);
  }

  /** Decay leaves the minimum the share 1 - minLatDecay of its distance to the new average. */
  lemma MinimumApproachesAverage(cfg: Config, est: Estimators, mean: real)
    requires cfg.Valid() && mean > 0.0 && est.minLat.Some?
    ensures var e := UpdateEstimators(cfg, est, mean);
      e.minLat.Some? && e.avgLat - e.minLat.value == (1.0 - cfg.minLatDecay) * (e.avgLat - est.minLat.value)
  {
    hide Blend;
    var avg, m := UpdateEstimators(cfg, est, mean).avgLat, est.minLat.value;
    assert (1.0 - cfg.minLatDecay) * (avg - m) == (avg - m) - cfg.minLatDecay * (avg - m);
  }

  /** Decay moves the minimum towards the average and never past it. */
  lemma EstimatorsStayOrdered(cfg: Config, est: Estimators, mean: real)
    requires cfg.Valid() && est.minLat.Some? && 0.0 < est.minLat.value <= mean
    requires est.avgLat > 0.0 ==> est.minLat.value <= est.avgLat
    ensures var e := UpdateEstimators(cfg, est, mean);
      e.minLat.Some? && est.minLat.value <= e.minLat.value <= e.avgLat
  {
    var m := est.minLat.value;
    if est.avgLat > 0.0 {
      BlendKeepsFloor(cfg.smoothing, mean, est.avgLat, m);
    }
    var avg := UpdateEstimators(cfg, est, mean).avgLat;
    NonNegativeProduct(cfg.minLatDecay, avg - m);
    NonNegativeProduct(1.0 - cfg.minLatDecay, avg - m);
  }
}
