/** Shifts of unsigned numbers, and powers of two. */
module Shifts {

  /** `i >> d`. */
  function Up(i: nat, d: nat): nat {
    if d == 0 then i else Up(i, d - 1) / 2
  }

  /** `k << d`. */
  function Down(k: nat, d: nat): nat
    decreases d
  {
    if d == 0 then k else Down(2 * k, d - 1)
  }

  function Pow2(n: nat): (r: nat)
    ensures r > 0
  {
    if n == 0 then 1 else 2 * Pow2(n - 1)
  }

  lemma {:induction false} UpUp(i: nat, p: nat, d: nat)
    ensures Up(i, p + d) == Up(Up(i, p), d)
    decreases d
  {
    if d > 0 {
      UpUp(i, p, d - 1);
    }
  }

  lemma {:induction false} UpDown(k: nat, d: nat)
    ensures Up(Down(k, d), d) == k
    decreases d
  {
    if d > 0 {
      UpDown(2 * k, d - 1);
    }
  }

  lemma {:induction false} UpZero(k: nat, d: nat)
    ensures Up(k, d) == 0 <==> k < Pow2(d)
    decreases d
  {
    if d > 0 {
      UpZero(k / 2, d - 1);
      UpUp(k, 1, d - 1);
      assert Up(k, 1) == k / 2;
    }
  }

  /** Shifting down is dividing by a power of two, ... */
  lemma {:induction false} UpIs(i: nat, d: nat, k: nat)
    ensures Up(i, d) == k <==> k * Pow2(d) <= i < (k + 1) * Pow2(d)
  {
    if d > 0 {
      var j := Up(i, d - 1);
      UpIs(i, d - 1, j);
      Doubled(j, k, i, Pow2(d - 1));
    }
  }

  lemma Doubled(j: nat, k: nat, i: nat, p: nat)
    requires j * p <= i < (j + 1) * p
    ensures j / 2 == k <==> k * (2 * p) <= i < (k + 1) * (2 * p)
  {
    Twice(k, p);
    Twice(k + 1, p);
    if j / 2 == k {
      TimesMore(2 * k, j, p);
      TimesMore(j + 1, 2 * (k + 1), p);
    } else if j / 2 < k {
      TimesMore(j + 1, 2 * k, p);
    } else {
      TimesMore(2 * (k + 1), j, p);
    }
  }

  lemma Twice(k: nat, p: nat)
    ensures k * (2 * p) == 2 * k * p
  {
  }

  lemma {:induction false} TimesMore(a: nat, b: nat, p: nat)
    requires a <= b
    ensures a * p <= b * p
  {
    assert b * p == a * p + (b - a) * p;
  }

  /** ... and shifting up is multiplying by it. */
  lemma {:induction false} DownIs(k: nat, d: nat)
    ensures Down(k, d) == k * Pow2(d)
    decreases d
  {
    if d > 0 {
      DownIs(2 * k, d - 1);
      assert 2 * k * Pow2(d - 1) == k * (2 * Pow2(d - 1));
    }
  }
}
