/** Sums, products and quotients of integers, where the solver needs a nudge. */
module Arith {
  function Total(s: seq<int>): int {
    if s == [] then 0 else Total(s[..|s| - 1]) + s[|s| - 1]
  }

  lemma MulOrder(a: int, b: int, n: int)
    requires n >= 0
    ensures a <= b ==> a * n <= b * n
  {
    if a <= b {
      assert (b - a) * n >= 0;
    }
  }

  lemma Distribute(k: int, w: int)
    ensures (k + 1) * w == k * w + w && w * (k + 1) == w * k + w
    ensures (k - 1) * w == k * w - w
  {
  }

  lemma DivideBetween(total: int, n: int, lo: int, hi: int)
    requires n > 0 && n * lo <= total <= n * hi
    ensures lo <= total / n <= hi
    ensures (total / n) * n <= total < (total / n + 1) * n
  {
    var q := total / n;
    assert total == q * n + total % n;
    MulOrder(q + 1, lo, n);
    MulOrder(hi + 1, q, n);
  }
}
