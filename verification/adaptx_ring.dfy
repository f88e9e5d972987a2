/**
 The sample ring as a list, and the latency summary Stats computes from it.
 */
module AdaptxRing {
  import opened Arith

  datatype Sample = Sample(latency: int, ts: int, success: bool)

  /** The last n elements, or all of them. */
  function LastOf(s: seq<Sample>, n: nat): seq<Sample> {
    if |s| <= n then s else s[|s| - n..]
  }

  /** Sample j of the history sits in slot j, wrapped around, as long as it is retained. */
  ghost predicate RingHolds(ring: seq<Sample>, head: nat, count: nat, history: seq<Sample>) {
    && |ring| > 0
    && head == Slot(|history|, |ring|)
    && count == (if |history| < |ring| then |history| else |ring|)
    && forall j :: |history| - count <= j < |history| ==> ring[Slot(j, |ring|)] == history[j]
  }

  lemma EmptyRing(ring: seq<Sample>)
    requires |ring| > 0
    ensures RingHolds(ring, 0, 0, [])
  {
  }

  /** Position j of the history, wrapped around a ring of cap slots. */
  function Slot(j: nat, cap: nat): (k: nat)
    requires cap > 0
    ensures k < cap
  {
    if j < cap then j else Slot(j - cap, cap)
  }

  /** What % does to an index less than two laps ahead. */
  lemma OneLap(x: nat, cap: nat)
    requires cap > 0 && x < 2 * cap
    ensures x % cap == if x < cap then x else x - cap
  {
  }

  lemma {:induction false} NextSlot(j: nat, cap: nat)
    requires cap > 0
    ensures Slot(j + 1, cap) == if Slot(j, cap) + 1 == cap then 0 else Slot(j, cap) + 1
  {
    if j >= cap {
      NextSlot(j - cap, cap);
    }
  }

  /** Going back less than one lap. */
  lemma {:induction false} EarlierSlot(j: nat, back: nat, cap: nat)
    requires back <= j && back <= cap && cap > 0
    ensures Slot(j - back, cap) == if back <= Slot(j, cap) then Slot(j, cap) - back else Slot(j, cap) - back + cap
  {
    if back > 0 {
      EarlierSlot(j, back - 1, cap);
      NextSlot(j - back, cap);
    }
  }

  /** Writing at head and advancing it appends to the list the ring stands for. */
  lemma PushKeepsRing(ring: seq<Sample>, head: nat, count: nat, history: seq<Sample>, s: Sample)
    requires RingHolds(ring, head, count, history)
    ensures RingHolds(ring[head := s], (head + 1) % |ring|,
                      if count < |ring| then count + 1 else count, history + [s])
  {
    var cap, n, more := |ring|, |history|, history + [s];
    NextSlot(n, cap);
    OneLap(head + 1, cap);
    forall j | |more| - (if count < cap then count + 1 else count) <= j < |more|
      ensures ring[head := s][Slot(j, cap)] == more[j]
    {
      if j < n {
        EarlierSlot(n, n - j, cap);
      }
    }
  }

  /** The index arithmetic of Stats reads the retained samples in order. */
  lemma ReadIndex(ring: seq<Sample>, head: nat, count: nat, history: seq<Sample>, i: nat)
    requires RingHolds(ring, head, count, history) && i < count
    ensures var idx := (head - count + i + |ring|) % |ring|;
      && |LastOf(history, |ring|)| == count
      && ring[idx] == LastOf(history, |ring|)[i]
  {
    var cap, n := |ring|, |history|;
    EarlierSlot(n, count - i, cap);
    OneLap(head - count + i + cap, cap);
  }

  /** Latencies of the samples stamped after cutoff, in order. */
  function YoungerThan(s: seq<Sample>, cutoff: int): seq<int> {
    if s == [] then
      []
    else
      var last := s[|s| - 1];
      YoungerThan(s[..|s| - 1], cutoff) + (if last.ts > cutoff then [last.latency] else [])
  }

  /** How many samples are stamped after cutoff with latency x. */
  function Stamped(s: seq<Sample>, cutoff: int, x: int): nat {
    if s == [] then 0
    else
      var last := s[|s| - 1];
      Stamped(s[..|s| - 1], cutoff, x) + (if last.ts > cutoff && last.latency == x then 1 else 0)
  }

  /** Every sample stamped after the cutoff is kept with its latency, and no other. */
  lemma {:induction false} YoungerKeepsStamped(s: seq<Sample>, cutoff: int, x: int)
    ensures multiset(YoungerThan(s, cutoff))[x] == Stamped(s, cutoff, x)
  {
    if s != [] {
      YoungerKeepsStamped(s[..|s| - 1], cutoff, x);
    }
  }

  // ----- the summary

  datatype Summary = Summary(avg: int, min: int, max: int, p50: int, p99: int)

  predicate Sorted(s: seq<int>) {
    forall i, j :: 0 <= i <= j < |s| ==> s[i] <= s[j]
  }

  /** slices.SortFunc with cmp.Compare, by insertion. */
  function SortedCopy(s: seq<int>): (r: seq<int>)
    ensures Sorted(r) && multiset(r) == multiset(s) && |r| == |s|
  {
    if s == [] then
      []
    else
      assert s == s[..|s| - 1] + [s[|s| - 1]];
      InsertSorted(SortedCopy(s[..|s| - 1]), s[|s| - 1]);
      Insert(SortedCopy(s[..|s| - 1]), s[|s| - 1])
  }

  function Insert(s: seq<int>, x: int): (r: seq<int>)
    ensures multiset(r) == multiset(s) + multiset{x} && |r| == |s| + 1
  {
    if s == [] then
      [x]
    else if s[|s| - 1] <= x then
      s + [x]
    else
      assert s == s[..|s| - 1] + [s[|s| - 1]];
      Insert(s[..|s| - 1], x) + [s[|s| - 1]]
  }

  lemma AppendSorted(s: seq<int>, x: int)
    requires Sorted(s) && forall y :: y in s ==> y <= x
    ensures Sorted(s + [x])
  {
    forall i, j | 0 <= i <= j < |s + [x]| ensures (s + [x])[i] <= (s + [x])[j] {
      assert i < |s| ==> s[i] in s;
    }
  }

  lemma InsertElements(s: seq<int>, x: int)
    ensures forall y :: y in Insert(s, x) ==> y == x || y in s
  {
    hide Insert;
    forall y | y in Insert(s, x) ensures y == x || y in s {
      assert y in multiset(Insert(s, x));
    }
  }

  lemma {:induction false} InsertSorted(s: seq<int>, x: int)
    requires Sorted(s)
    ensures Sorted(Insert(s, x))
  {
    if s != [] {
      var front, last := s[..|s| - 1], s[|s| - 1];
      if last <= x {
        AppendSorted(s, x);
      } else {
        InsertSorted(front, x);
        InsertElements(front, x);
        AppendSorted(Insert(front, x), last);
      }
    }
  }

  /** The rank of a percentile given in hundredths: int((n-1) * p). */
  function Rank(n: nat, hundredths: nat): (k: nat)
    requires n > 0 && hundredths < 100
    ensures k < n
  {
    (n - 1) * hundredths / 100
  }

  /** The loop of Stats over the filtered latencies, which are all positive. */
  method Summarize(lats: seq<int>) returns (r: Summary)
    requires forall i :: 0 <= i < |lats| ==> lats[i] > 0
    ensures lats == [] ==> r == Summary(0, 0, 0, 0, 0)
    ensures lats != [] ==>
      && r.min in lats && r.max in lats && r.p50 in lats && r.p99 in lats
      && (forall x :: x in lats ==> r.min <= x <= r.max)
      && r.min <= r.p50 <= r.p99 <= r.max
      && r.min <= r.avg <= r.max
      && IsPercentile(lats, 50, r.p50) && IsPercentile(lats, 99, r.p99)
      && r.avg * |lats| <= Total(lats) < (r.avg + 1) * |lats|
  {
    hide SortedCopy, Rank, IsPercentile;
    if lats == [] {
      return Summary(0, 0, 0, 0, 0);
    }
    var total, lo, hi := 0, lats[0], 0;
    for i := 0 to |lats|
      invariant total == Total(lats[..i])
      invariant lo in lats && (forall j :: 0 <= j < i ==> lo <= lats[j] <= hi)
      invariant if i == 0 then hi == 0 else hi in lats
    {
      assert lats[..i + 1][..i] == lats[..i];
      total := total + lats[i];
      if lats[i] < lo {
        lo := lats[i];
      }
      if lats[i] > hi {
        hi := lats[i];
      }
    }
    assert lats[..|lats|] == lats;
    AverageBetween(lats, lo, hi);
    var sorted := SortedCopy(lats);
    SortedWithin(lats);
    RankIsPercentile(lats, 50);
    RankIsPercentile(lats, 99);
    r := Summary(total / |lats|, lo, hi, sorted[Rank(|lats|, 50)], sorted[Rank(|lats|, 99)]);
  }

  lemma {:induction false} TotalBetween(s: seq<int>, lo: int, hi: int)
    requires forall i :: 0 <= i < |s| ==> lo <= s[i] <= hi
    ensures |s| * lo <= Total(s) <= |s| * hi
  {
    if s != [] {
      TotalBetween(s[..|s| - 1], lo, hi);
      assert |s| * lo == (|s| - 1) * lo + lo && |s| * hi == (|s| - 1) * hi + hi;
    }
  }

  lemma AverageBetween(s: seq<int>, lo: int, hi: int)
    requires s != [] && forall i :: 0 <= i < |s| ==> lo <= s[i] <= hi
    ensures lo <= Total(s) / |s| <= hi
    ensures (Total(s) / |s|) * |s| <= Total(s) < (Total(s) / |s| + 1) * |s|
  {
    TotalBetween(s, lo, hi);
    DivideBetween(Total(s), |s|, lo, hi);
  }

  lemma RankOrder(n: nat, lower: nat, upper: nat)
    requires n > 0 && lower <= upper < 100
    ensures Rank(n, lower) <= Rank(n, upper)
  {
    var a, b := (n - 1) * lower, (n - 1) * upper;
    assert a <= b by {
      MulOrder(lower, upper, n - 1);
    }
    QuotientOrder(a, b);
  }

  lemma QuotientOrder(a: nat, b: nat)
    requires a <= b
    ensures a / 100 <= b / 100
  {
  }

  /** Percentile ranks pick elements of the list, in order. */
  lemma SortedWithin(s: seq<int>)
    requires s != []
    ensures var r := SortedCopy(s);
      r[Rank(|s|, 50)] in s && r[Rank(|s|, 99)] in s && r[Rank(|s|, 50)] <= r[Rank(|s|, 99)]
  {
    hide SortedCopy, Rank;
    RankOrder(|s|, 50, 99);
    SameElements(SortedCopy(s), s);
  }

  // ----- percentiles by how many samples lie below and at them

  function Below(s: seq<int>, x: int): nat {
    if s == [] then 0 else Below(s[..|s| - 1], x) + (if s[|s| - 1] < x then 1 else 0)
  }

  function AtMost(s: seq<int>, x: int): nat {
    if s == [] then 0 else AtMost(s[..|s| - 1], x) + (if s[|s| - 1] <= x then 1 else 0)
  }

  lemma {:induction false} CountsJoin(a: seq<int>, b: seq<int>, x: int)
    ensures Below(a + b, x) == Below(a, x) + Below(b, x) && AtMost(a + b, x) == AtMost(a, x) + AtMost(b, x)
  {
    if b == [] {
      assert a + b == a;
    } else {
      CountsJoin(a, b[..|b| - 1], x);
      assert (a + b)[..|a + b| - 1] == a + b[..|b| - 1];
    }
  }

  /** A list without its element at i. */
  function Without(s: seq<int>, i: nat): seq<int>
    requires i < |s|
  {
    s[..i] + s[i + 1..]
  }

  lemma WithoutElements(s: seq<int>, i: nat)
    requires i < |s|
    ensures multiset(Without(s, i)) == multiset(s) - multiset{s[i]}
  {
    assert s == s[..i] + [s[i]] + s[i + 1..];
  }

  lemma WithoutCounts(s: seq<int>, i: nat, x: int)
    requires i < |s|
    ensures Below(s, x) == Below(Without(s, i), x) + (if s[i] < x then 1 else 0)
    ensures AtMost(s, x) == AtMost(Without(s, i), x) + (if s[i] <= x then 1 else 0)
  {
    assert s == s[..i] + [s[i]] + s[i + 1..];
    CountsJoin(s[..i], s[i + 1..], x);
    CountsJoin(s[..i] + [s[i]], s[i + 1..], x);
    CountsJoin(s[..i], [s[i]], x);
    assert [s[i]][..0] == [];
  }

  /** Sorting changes no count. */
  lemma {:induction false} CountsPermute(a: seq<int>, b: seq<int>, x: int)
    requires multiset(a) == multiset(b)
    ensures Below(a, x) == Below(b, x) && AtMost(a, x) == AtMost(b, x)
    decreases |a|
  {
    if a == [] {
      assert |multiset(b)| == 0;
    } else {
      hide Below, AtMost, Without;
      assert a[0] in multiset(b);
      var i :| 0 <= i < |b| && b[i] == a[0];
      WithoutElements(a, 0);
      WithoutElements(b, i);
      WithoutCounts(a, 0, x);
      WithoutCounts(b, i, x);
      assert |Without(a, 0)| < |a| by { WithoutIsShorter(a, 0); }
      CountsPermute(Without(a, 0), Without(b, i), x);
    }
  }

  lemma WithoutIsShorter(s: seq<int>, i: nat)
    requires i < |s|
    ensures |Without(s, i)| == |s| - 1
  {
  }

  /** In a sorted list at most k elements are below the one at k, and more than k are not above it. */
  lemma {:induction false} SortedCounts(s: seq<int>, k: nat)
    requires Sorted(s) && k < |s|
    ensures Below(s, s[k]) <= k < AtMost(s, s[k])
    decreases |s|
  {
    var front := s[..|s| - 1];
    CountsAreBounded(front, s[k]);
    if k < |front| {
      SortedCounts(front, k);
    } else {
      AllAtMost(front, s[k]);
    }
  }

  lemma {:induction false} CountsAreBounded(s: seq<int>, x: int)
    ensures Below(s, x) <= |s| && AtMost(s, x) <= |s|
  {
    if s != [] {
      CountsAreBounded(s[..|s| - 1], x);
    }
  }

  lemma {:induction false} AllAtMost(s: seq<int>, x: int)
    requires forall i :: 0 <= i < |s| ==> s[i] <= x
    ensures AtMost(s, x) == |s|
  {
    if s != [] {
      AllAtMost(s[..|s| - 1], x);
    }
  }

  /** x is a percentile of s, in hundredths: that share of the other samples at most lies below it, and not less up to it. */
  predicate IsPercentile(s: seq<int>, hundredths: nat, x: int) {
    x in s && Below(s, x) * 100 <= (|s| - 1) * hundredths < AtMost(s, x) * 100
  }

  lemma RankIsPercentile(s: seq<int>, hundredths: nat)
    requires s != [] && hundredths < 100
    ensures IsPercentile(s, hundredths, SortedCopy(s)[Rank(|s|, hundredths)])
  {
    hide SortedCopy, Rank, Below, AtMost;
    var k := Rank(|s|, hundredths);
    SortedCounts(SortedCopy(s), k);
    CountsPermute(SortedCopy(s), s, SortedCopy(s)[k]);
    SameElements(SortedCopy(s), s);
    RankBounds(|s|, hundredths);
  }

  lemma RankBounds(n: nat, hundredths: nat)
    requires n > 0 && hundredths < 100
    ensures Rank(n, hundredths) * 100 <= (n - 1) * hundredths < (Rank(n, hundredths) + 1) * 100
  {
    var a := (n - 1) * hundredths;
    assert a == (a / 100) * 100 + a % 100;
  }

  lemma SameElements(a: seq<int>, b: seq<int>)
    requires multiset(a) == multiset(b)
    ensures forall x :: x in a <==> x in b
  {
    forall x ensures x in a <==> x in b {
      assert x in a <==> x in multiset(a);
      assert x in b <==> x in multiset(b);
    }
  }
}
