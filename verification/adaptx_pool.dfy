/**
 The permit pool of the adaptive limiter, on values: what one pass through
 each critical section does to the live limit, the shrink debt and the number
 of idle permits in the semaphore channel.
 */
module AdaptxPool {

  /** The bounds New resolves: 1 <= minLimit <= initialLimit <= maxLimit. */
  datatype Bounds = Bounds(minLimit: int, initialLimit: int, maxLimit: int) {
    predicate Valid() {
      1 <= minLimit <= initialLimit <= maxLimit
    }
  }

  /** limit and debt are guarded by the mutex; idle is the channel's length. */
  datatype Pool = Pool(limit: int, debt: int, idle: int)

  function Min(a: int, b: int): int {
    if a < b then a else b
  }

  function Max(a: int, b: int): int {
    if a < b then b else a
  }

  /** A non-blocking send on a channel of capacity cap: dropped when full. */
  function Send(idle: int, cap: int): int {
    if idle < cap then idle + 1 else idle
  }

  /** n non-blocking sends in a row. */
  function SendMany(idle: int, n: nat, cap: int): int
    decreases n
  {
    if n == 0 then idle else SendMany(Send(idle, cap), n - 1, cap)
  }

  lemma {:induction false} SendManyCounts(idle: int, n: nat, cap: int)
    requires 0 <= idle <= cap
    ensures SendMany(idle, n, cap) == Min(cap, idle + n)
    decreases n
  {
    if n > 0 {
      SendManyCounts(Send(idle, cap), n - 1, cap);
    }
  }

  /** Retire drop permits: idle ones first, the rest becomes debt. */
  function Shrink(p: Pool, drop: nat): Pool
    requires 0 <= p.idle
  {
    var pulled := Min(drop, p.idle);
    p.(idle := p.idle - pulled, debt := p.debt + drop - pulled)
  }

  /** Move the limit: growth pays debt before it mints permits. */
  function Resize(p: Pool, next: int, cap: int): Pool
    requires 0 <= p.idle
  {
    if next == p.limit then
      p
    else if next > p.limit then
      var grant := next - p.limit;
      var paid := if p.debt > 0 then Min(p.debt, grant) else 0;
      Pool(next, p.debt - paid, SendMany(p.idle, Max(grant - paid, 0), cap))
    else
      Shrink(p.(limit := next), p.limit - next)
  }

  lemma ResizeToSelf(p: Pool, cap: int)
    requires 0 <= p.idle
    ensures Resize(p, p.limit, cap) == p
  {
  }

  /** A finished call's permit: it pays debt if there is any. */
  function Release(p: Pool, cap: int): Pool {
    if p.debt > 0 then p.(debt := p.debt - 1) else p.(idle := Send(p.idle, cap))
  }

  /**
   ResetStats: limit back to initial (or to the load), pool refilled. The in-flight count is read twice, for the
   limit and again for the refill; a call admitted or finished in between makes the two differ.
   */
  function Reset(b: Bounds, first: int, second: int): Pool {
    var limit := Max(b.initialLimit, first);
    Pool(limit, 0, SendMany(0, Max(limit - second, 0), b.maxLimit))
  }

  /**
   The books balance for held permits when every permit the limit and the debt
   stand for is either idle or held, debt is owed only by an empty channel, and
   limit plus debt fit the channel.
   */
  ghost predicate Balanced(b: Bounds, p: Pool, held: int) {
    && b.minLimit <= p.limit
    && 0 <= p.debt && 0 <= p.idle && 0 <= held
    && p.idle + held == p.limit + p.debt <= b.maxLimit
    && (p.debt > 0 ==> p.idle == 0)
  }

  /** What a caller may conclude from balanced books. */
  lemma BalancedMeans(b: Bounds, p: Pool, held: int)
    requires b.Valid() && Balanced(b, p, held)
    ensures held <= b.maxLimit
    ensures held > p.limit ==> held == p.limit + p.debt
    ensures held <= p.limit ==> p.debt == 0 && p.idle == p.limit - held
    ensures held == 0 ==> p.debt == 0 && p.idle == p.limit
    ensures held > 0 ==> p.idle < b.maxLimit
  {
  }

  /** Every limit change the control law may ask for keeps the books. */
  lemma ResizeKeepsBalance(b: Bounds, p: Pool, held: int, next: int)
    requires b.Valid() && Balanced(b, p, held)
    requires b.minLimit <= next <= b.maxLimit
    ensures Balanced(b, Resize(p, next, b.maxLimit), held)
    ensures Resize(p, next, b.maxLimit).limit == next
  {
    if next > p.limit {
      var grant := next - p.limit;
      var paid := if p.debt > 0 then Min(p.debt, grant) else 0;
      SendManyCounts(p.idle, grant - paid, b.maxLimit);
    }
  }

  /** A finished call gives its one permit back to the books. */
  lemma ReleaseKeepsBalance(b: Bounds, p: Pool, held: int)
    requires b.Valid() && Balanced(b, p, held) && held > 0
    ensures Balanced(b, Release(p, b.maxLimit), held - 1)
    ensures Release(p, b.maxLimit).idle > p.idle <==> held <= p.limit
  {
  }

  /**
   ResetStats balances the books exactly when its second read sees every held permit, or holders fill a limit that
   the read already exceeds; when both reads agree, exactly when no admission or release is half done.
   */
  lemma ResetBalancesIffQuiescent(b: Bounds, first: int, second: int, held: int)
    requires b.Valid() && 0 <= first <= b.maxLimit && 0 <= second && 0 <= held
    ensures Balanced(b, Reset(b, first, second), held) <==> held == Min(second, Max(b.initialLimit, first))
    ensures first == second ==> (Balanced(b, Reset(b, first, second), held) <==> held == first)
  {
    var limit := Max(b.initialLimit, first);
    SendManyCounts(0, Max(limit - second, 0), b.maxLimit);
  }
}
