/** The capped counters that infiniband-diags/perfquery.c adds up over the ports of a node. */
module Counters {

  /** `dest + val` in unsigned arithmetic that wraps at `word`, capped when it overflows or passes the cap.
      The 32-bit and 64-bit counters have the largest word as their cap. */
  function Aggregate(word: nat, cap: nat, dest: nat, val: nat): nat
    requires word > 0
  {
    var sum := (dest + val) % word;
    if sum < dest || sum > cap then cap else sum
  }

  /** One step: the wrap-around check never misses an overflow, so the result is the capped exact sum. */
  lemma AggregateIs(word: nat, cap: nat, dest: nat, val: nat)
    requires dest <= cap < word && val < word
    ensures Aggregate(word, cap, dest, val) == if dest + val <= cap then dest + val else cap
  {
    if dest + val >= word {
      assert (dest + val) % word == dest + val - word;
    }
  }

  function Sum(vals: seq<nat>): nat {
    if vals == [] then 0 else Sum(vals[..|vals| - 1]) + vals[|vals| - 1]
  }

  /** The samples of all ports, aggregated one after another from zero. */
  function Fold(word: nat, cap: nat, vals: seq<nat>): nat
    requires word > 0
  {
    if vals == [] then 0 else Aggregate(word, cap, Fold(word, cap, vals[..|vals| - 1]), vals[|vals| - 1])
  }

  lemma {:induction false} FoldIs(word: nat, cap: nat, vals: seq<nat>)
    requires cap < word && forall i :: 0 <= i < |vals| ==> vals[i] < word
    ensures Fold(word, cap, vals) == if Sum(vals) <= cap then Sum(vals) else cap
  {
    if vals != [] {
      var front := vals[..|vals| - 1];
      FoldIs(word, cap, front);
      AggregateIs(word, cap, Fold(word, cap, front), vals[|vals| - 1]);
    }
  }

  lemma {:induction false} SumAppend(a: seq<nat>, b: seq<nat>)
    ensures Sum(a + b) == Sum(a) + Sum(b)
    ensures |b| == 1 ==> Sum(b) == b[0]
  {
    if b == [] {
      assert a + b == a;
    } else {
      SumAppend(a, b[..|b| - 1]);
      assert (a + b)[..|a + b| - 1] == a + b[..|b| - 1];
    }
  }

  /** Taking one sample out of the middle. */
  lemma SumWithout(vals: seq<nat>, i: nat)
    requires i < |vals|
    ensures Sum(vals) == Sum(vals[..i] + vals[i + 1..]) + vals[i]
  {
    SumAppend(vals[..i + 1], vals[i + 1..]);
    assert vals[..i + 1] + vals[i + 1..] == vals;
    assert vals[..i + 1][..i] == vals[..i];
    SumAppend(vals[..i], vals[i + 1..]);
  }

  lemma OneOut(vals: seq<nat>, i: nat)
    requires i < |vals|
    ensures multiset(vals) == multiset(vals[..i] + vals[i + 1..]) + multiset{vals[i]}
  {
    assert vals == vals[..i] + [vals[i]] + vals[i + 1..];
  }

  lemma {:induction false} SumOfPermutation(a: seq<nat>, b: seq<nat>)
    requires multiset(a) == multiset(b)
    ensures Sum(a) == Sum(b)
  {
    if a == [] {
      assert |b| == |multiset(a)|;
    } else {
      var n := |a| - 1;
      assert a[n] in multiset(b);
      var i :| 0 <= i < |b| && b[i] == a[n];
      OneOut(a, n);
      OneOut(b, i);
      assert a[..n] + a[n + 1..] == a[..n];
      assert multiset(a[..n]) == multiset(a) - multiset{a[n]};
      assert multiset(b[..i] + b[i + 1..]) == multiset(b) - multiset{b[i]};
      SumOfPermutation(a[..n], b[..i] + b[i + 1..]);
      SumWithout(b, i);
    }
  }

  /** The order of the ports does not matter. */
  lemma OrderFree(word: nat, cap: nat, a: seq<nat>, b: seq<nat>)
    requires cap < word && multiset(a) == multiset(b) && forall i :: 0 <= i < |a| ==> a[i] < word
    ensures Fold(word, cap, a) == Fold(word, cap, b)
  {
    forall i | 0 <= i < |b| ensures b[i] < word {
      assert b[i] in multiset(b);
    }
    FoldIs(word, cap, a);
    FoldIs(word, cap, b);
    SumOfPermutation(a, b);
  }

  // ---------------------------------------------------------------- one counter

  /** A counter behind a pointer: at most 15, 255, 65535 or the largest word. */
  class Counter {
    const word: nat
    const cap: nat
    var value: nat

    ghost predicate Valid()
      reads this
    {
      value <= cap < word
    }

    constructor (word: nat, cap: nat)
      requires cap < word
      ensures Valid() && value == 0 && this.word == word && this.cap == cap
    {
      this.word, this.cap, value := word, cap, 0;
    }

    /** aggregate_4bit up to aggregate_64bit. */
    method Add(val: nat)
      requires Valid() && val < word
      modifies this
      ensures Valid() && value == if old(value) + val <= cap then old(value) + val else cap
    {
      AggregateIs(word, cap, value, val);
      value := Aggregate(word, cap, value, val);
    }
  }
}
