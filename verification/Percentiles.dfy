/** The percentile sweep over a latency histogram in fig7/perf_util.py. */
module Percentiles {

  /** A latency and how often it was measured. */
  datatype Bin = Bin(key: int, count: nat)

  /** `sorted(lat_hist.items())`: the keys of a dictionary, in order. */
  predicate Sorted(hist: seq<Bin>) {
    forall i, j :: 0 <= i < j < |hist| ==> hist[i].key < hist[j].key
  }

  function Sum(hist: seq<Bin>, n: nat): nat
    requires n <= |hist|
  {
    if n == 0 then 0 else Sum(hist, n - 1) + hist[n - 1].count
  }

  function Total(hist: seq<Bin>): nat {
    Sum(hist, |hist|)
  }

  /** How many measurements were at most x. */
  function AtMost(hist: seq<Bin>, x: int): nat {
    if hist == [] then 0
    else
      var last := hist[|hist| - 1];
      AtMost(hist[..|hist| - 1], x) + if last.key <= x then last.count else 0
  }

  /** n times p. */
  function Times(p: nat, n: nat): nat {
    if p == 0 then 0 else Times(p - 1, n) + n
  }

  lemma {:induction false} TimesIs(p: nat, n: nat)
    ensures Times(p, n) == p * n
  {
    if p > 0 {
      TimesIs(p - 1, n);
      assert p * n == (p - 1) * n + n;
    }
  }

  lemma {:induction false} TimesGrows(p: nat, q: nat, n: nat)
    requires p <= q
    ensures Times(p, n) <= Times(q, n)
  {
    if p < q {
      TimesGrows(p, q - 1, n);
    }
  }

  lemma Finished(cur: nat, n: nat)
    requires n > 0 && 100 * n <= Times(cur, n)
    ensures cur >= 100
  {
    if cur < 100 {
      TimesGrows(cur + 1, 100, n);
      TimesIs(100, n);
    }
  }

  /** k is the least key such that strictly more than p percent of the measurements are at most k. */
  ghost predicate IsPercentile(hist: seq<Bin>, p: nat, k: int) {
    && (exists i :: 0 <= i < |hist| && hist[i].key == k)
    && 100 * AtMost(hist, k) > Times(p, Total(hist))
    && forall i :: 0 <= i < |hist| && 100 * AtMost(hist, hist[i].key) > Times(p, Total(hist)) ==> k <= hist[i].key
  }

  lemma {:induction false} SumOfFront(hist: seq<Bin>, m: nat, n: nat)
    requires n <= m <= |hist|
    ensures Sum(hist[..m], n) == Sum(hist, n)
  {
    if n > 0 {
      SumOfFront(hist, m, n - 1);
    }
  }

  lemma {:induction false} SumGrows(hist: seq<Bin>, m: nat, n: nat)
    requires m <= n <= |hist|
    ensures Sum(hist, m) <= Sum(hist, n)
  {
    if m < n {
      SumGrows(hist, m, n - 1);
    }
  }

  /** In a sorted histogram the measurements up to a key are those of the bins up to it. */
  lemma {:induction false} AtMostIs(hist: seq<Bin>, i: nat)
    requires Sorted(hist) && i < |hist|
    ensures AtMost(hist, hist[i].key) == Sum(hist, i + 1)
  {
    var front := hist[..|hist| - 1];
    if i < |hist| - 1 {
      AtMostIs(front, i);
      SumOfFront(hist, |hist| - 1, i + 1);
    } else {
      AllAtMost(front, hist[i].key);
      SumOfFront(hist, |hist| - 1, |hist| - 1);
    }
  }

  lemma {:induction false} AllAtMost(hist: seq<Bin>, x: int)
    requires forall i :: 0 <= i < |hist| ==> hist[i].key <= x
    ensures AtMost(hist, x) == Total(hist)
  {
    if hist != [] {
      AllAtMost(hist[..|hist| - 1], x);
      SumOfFront(hist, |hist| - 1, |hist| - 1);
    }
  }

  /** The bin at which the running count first passes p percent holds the percentile. */
  lemma Crossing(hist: seq<Bin>, p: nat, i: nat)
    requires Sorted(hist) && i < |hist|
    requires 100 * Sum(hist, i) <= Times(p, Total(hist)) < 100 * Sum(hist, i + 1)
    ensures IsPercentile(hist, p, hist[i].key)
  {
    AtMostIs(hist, i);
    forall j | 0 <= j < |hist| && 100 * AtMost(hist, hist[j].key) > Times(p, Total(hist)) ensures hist[i].key <= hist[j].key {
      AtMostIs(hist, j);
      if j < i {
        SumGrows(hist, j + 1, i);
      }
    }
  }

  // ---------------------------------------------------------------- the measurements themselves

  /** hist counts how often each of its keys occurs in xs, and nothing else occurs. */
  ghost predicate Counts(hist: seq<Bin>, xs: seq<int>) {
    && (forall x :: x in xs ==> exists i :: 0 <= i < |hist| && hist[i].key == x)
    && (forall i :: 0 <= i < |hist| ==> multiset(xs)[hist[i].key] == hist[i].count)
  }

  /** How many of xs are at most x. */
  ghost function UpTo(xs: seq<int>, x: int): nat {
    if xs == [] then 0 else UpTo(xs[..|xs| - 1], x) + if xs[|xs| - 1] <= x then 1 else 0
  }

  /** One measurement less in bin i. */
  ghost function Less(hist: seq<Bin>, i: nat): seq<Bin>
    requires i < |hist| && hist[i].count > 0
  {
    hist[i := Bin(hist[i].key, hist[i].count - 1)]
  }

  lemma {:induction false} AtMostLess(hist: seq<Bin>, i: nat, x: int)
    requires i < |hist| && hist[i].count > 0
    ensures AtMost(hist, x) == AtMost(Less(hist, i), x) + if hist[i].key <= x then 1 else 0
  {
    var n := |hist| - 1;
    if i < n {
      AtMostLess(hist[..n], i, x);
      assert Less(hist, i)[..n] == Less(hist[..n], i);
    } else {
      assert Less(hist, i)[..n] == hist[..n];
    }
  }

  lemma {:induction false} NoneAtMost(hist: seq<Bin>, x: int)
    requires forall i :: 0 <= i < |hist| ==> hist[i].count == 0
    ensures AtMost(hist, x) == 0
  {
    if hist != [] {
      NoneAtMost(hist[..|hist| - 1], x);
    }
  }

  lemma CountsLess(hist: seq<Bin>, xs: seq<int>, i: nat)
    requires Sorted(hist) && Counts(hist, xs) && xs != [] && i < |hist| && hist[i].key == xs[|xs| - 1]
    ensures hist[i].count > 0 && Sorted(Less(hist, i)) && Counts(Less(hist, i), xs[..|xs| - 1])
  {
    var front, v := xs[..|xs| - 1], xs[|xs| - 1];
    assert xs == front + [v];
    var less := Less(hist, i);
    assert multiset(xs) == multiset(front) + multiset{v};
    forall x | x in front ensures exists j :: 0 <= j < |less| && less[j].key == x {
      assert x in xs;
      var j :| 0 <= j < |hist| && hist[j].key == x;
      assert less[j].key == x;
    }
  }

  /** Counting over the bins is counting the measurements. */
  lemma {:induction false} AtMostCounts(hist: seq<Bin>, xs: seq<int>, x: int)
    requires Sorted(hist) && Counts(hist, xs)
    ensures AtMost(hist, x) == UpTo(xs, x)
    decreases |xs|
  {
    if xs == [] {
      NoneAtMost(hist, x);
    } else {
      assert xs[|xs| - 1] in xs;
      var i :| 0 <= i < |hist| && hist[i].key == xs[|xs| - 1];
      CountsLess(hist, xs, i);
      AtMostCounts(Less(hist, i), xs[..|xs| - 1], x);
      AtMostLess(hist, i, x);
    }
  }

  lemma {:induction false} UpToAll(xs: seq<int>, x: int)
    requires forall i :: 0 <= i < |xs| ==> xs[i] <= x
    ensures UpTo(xs, x) == |xs|
  {
    if xs != [] {
      UpToAll(xs[..|xs| - 1], x);
    }
  }

  lemma NothingCounted(hist: seq<Bin>, xs: seq<int>)
    requires Counts(hist, xs)
    ensures xs != [] ==> hist != []
  {
    if xs != [] {
      var x := xs[0];
      assert x in xs;
      var i :| 0 <= i < |hist| && hist[i].key == x;
    }
  }

  lemma TotalCounts(hist: seq<Bin>, xs: seq<int>)
    requires Sorted(hist) && Counts(hist, xs)
    ensures Total(hist) == |xs|
  {
    if hist == [] {
      NothingCounted(hist, xs);
    } else {
      var x := hist[|hist| - 1].key;
      AllAtMost(hist, x);
      AtMostCounts(hist, xs, x);
      forall i | 0 <= i < |xs| ensures xs[i] <= x {
        assert xs[i] in xs;
      }
      UpToAll(xs, x);
    }
  }

  /** Between two keys the count does not change. */
  lemma {:induction false} AtMostAtKey(hist: seq<Bin>, x: int)
    requires Sorted(hist) && AtMost(hist, x) > 0
    ensures exists i :: 0 <= i < |hist| && hist[i].key <= x && AtMost(hist, hist[i].key) == AtMost(hist, x)
  {
    var n := |hist| - 1;
    if hist[n].key <= x {
      AllAtMost(hist, x);
      AllAtMost(hist, hist[n].key);
    } else {
      AtMostAtKey(hist[..n], x);
      var i :| 0 <= i < n && hist[..n][i].key <= x && AtMost(hist[..n], hist[..n][i].key) == AtMost(hist[..n], x);
      assert hist[i] == hist[..n][i];
    }
  }

  lemma {:induction false} UpToNext(xs: seq<int>, k: int)
    requires k !in xs
    ensures UpTo(xs, k) == UpTo(xs, k - 1)
  {
    if xs != [] {
      assert xs[|xs| - 1] in xs;
      UpToNext(xs[..|xs| - 1], k);
    }
  }

  /** A percentile of the histogram of some measurements is one of them, and the least number that more than
      p percent of them do not exceed. */
  lemma PercentileOf(hist: seq<Bin>, xs: seq<int>, p: nat, k: int)
    requires Sorted(hist) && Counts(hist, xs) && IsPercentile(hist, p, k)
    ensures k in xs && 100 * UpTo(xs, k) > p * |xs|
    ensures forall x :: x < k ==> 100 * UpTo(xs, x) <= p * |xs|
  {
    TotalCounts(hist, xs);
    TimesIs(p, |xs|);
    forall x ensures AtMost(hist, x) == UpTo(xs, x) {
      AtMostCounts(hist, xs, x);
    }
    forall x | x < k ensures 100 * UpTo(xs, x) <= p * |xs| {
      if 100 * UpTo(xs, x) > p * |xs| {
        AtMostAtKey(hist, x);
      }
    }
    if k !in xs {
      UpToNext(xs, k);
    }
  }

  // ---------------------------------------------------------------- the sweep

  /** `float(total) * cur / 100.0`, exactly. */
  function Threshold(total: nat, cur: nat): real {
    total as real * cur as real / 100.0
  }

  lemma Below(total: nat, cur: nat, n: nat)
    ensures Threshold(total, cur) < n as real <==> Times(cur, total) < 100 * n
  {
    TimesIs(cur, total);
    assert total as real * cur as real == (cur * total) as real;
  }

  /** Entry i of the list is percentile i + 1. */
  ghost predicate Lists(hist: seq<Bin>, out: seq<int>) {
    forall i :: 0 <= i < |out| ==> IsPercentile(hist, i + 1, out[i])
  }

  /** Percentiles do not decrease. */
  lemma NonDecreasing(hist: seq<Bin>, out: seq<int>, i: nat, j: nat)
    requires Lists(hist, out) && i <= j < |out|
    ensures out[i] <= out[j]
  {
    assert IsPercentile(hist, i + 1, out[i]) && IsPercentile(hist, j + 1, out[j]);
    TimesGrows(i + 1, j + 1, Total(hist));
  }

  /** After the first n bins the running count has not passed the current percentage. */
  ghost predicate Sweeping(hist: seq<Bin>, n: nat, cur: nat, out: seq<int>) {
    && n <= |hist| && 1 <= cur <= 100 && |out| == cur - 1 && Lists(hist, out)
    && 100 * Sum(hist, n) <= Times(cur, Total(hist)) && (Total(hist) == 0 ==> cur == 1)
  }

  /** Bin n passes the current percentage. */
  lemma Passes(hist: seq<Bin>, n: nat, cur: nat, out: seq<int>)
    requires Sorted(hist) && Sweeping(hist, n, cur, out) && n < |hist|
    requires Times(cur, Total(hist)) < 100 * Sum(hist, n + 1)
    ensures Sweeping(hist, n, cur + 1, out + [hist[n].key])
  {
    SumGrows(hist, n + 1, |hist|);
    Crossing(hist, cur, n);
    TimesIs(100, Total(hist));
    assert Lists(hist, out + [hist[n].key]);
  }

  method SweepBin(hist: seq<Bin>, n: nat, total: nat, curSum: nat, cur: nat, out: seq<int>)
    returns (next: nat, percentiles: seq<int>)
    requires Sorted(hist) && n < |hist| && total == Total(hist) && curSum == Sum(hist, n)
    requires Sweeping(hist, n, cur, out)
    ensures Sweeping(hist, n + 1, next, percentiles)
  {
    next, percentiles := cur, out;
    var curPercentile := Threshold(total, next);
    while curPercentile < (hist[n].count + curSum) as real
      invariant Sweeping(hist, n, next, percentiles) && curPercentile == Threshold(total, next)
      decreases 100 - next
    {
      Below(total, next, hist[n].count + curSum);
      Passes(hist, n, next, percentiles);
      next := next + 1;
      curPercentile := Threshold(total, next);
      percentiles := percentiles + [hist[n].key];
    }
    Below(total, next, hist[n].count + curSum);
  }

  method Sweep(hist: seq<Bin>) returns (percentiles: seq<int>)
    requires Sorted(hist)
    ensures |percentiles| == if Total(hist) > 0 then 99 else 0
    ensures Lists(hist, percentiles)
  {
    var total := Total(hist);
    percentiles := [];
    var cur := 1;
    var curSum := 0;
    for n := 0 to |hist|
      invariant curSum == Sum(hist, n) && Sweeping(hist, n, cur, percentiles)
    {
      cur, percentiles := SweepBin(hist, n, total, curSum, cur, percentiles);
      curSum := curSum + hist[n].count;
    }
    if total > 0 {
      Finished(cur, total);
    }
  }
}
