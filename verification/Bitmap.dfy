/** The word-packed bitmaps of ccan/bitmap. A bitmap is an array of 64-bit words; every operation is
    stated about the bits that bitmap_test_bit sees. */
module Bitmap {
  import opened WordBits

  /** The bit at index i. */
  predicate Test(s: seq<bv64>, i: nat)
    requires i < BITS * |s|
  {
    Bits(s[i / BITS])[i % BITS]
  }

  /** Bits n up to m became v, and no other bit changed. */
  ghost predicate RangeIs(s: seq<bv64>, t: seq<bv64>, n: nat, m: nat, v: bool) {
    && |s| == |t|
    && forall i :: 0 <= i < BITS * |s| ==> Test(t, i) == if n <= i < m then v else Test(s, i)
  }

  lemma RangeJoin(s: seq<bv64>, t: seq<bv64>, u: seq<bv64>, n: nat, k: nat, m: nat, v: bool)
    requires n <= k <= m && RangeIs(s, t, n, k, v) && RangeIs(t, u, k, m, v)
    ensures RangeIs(s, u, n, m, v)
  {
  }

  /** Rewriting one word changes a range inside it. */
  lemma WordIs(s: seq<bv64>, j: nat, w: bv64, n: nat, m: nat, v: bool)
    requires j < |s| && BITS * j <= n <= m <= BITS * j + BITS
    requires forall b :: 0 <= b < BITS ==> Bits(w)[b] == if n <= BITS * j + b < m then v else Bits(s[j])[b]
    ensures RangeIs(s, s[j := w], n, m, v)
  {
  }

  // ---------------------------------------------------------------- single bits

  method TestBit(a: array<bv64>, n: nat) returns (r: bool)
    requires n < BITS * a.Length
    ensures r == Test(a[..], n)
  {
    var bit := BitOnly(n);
    r := Hit(a[n / BITS], bit, n % BITS);
  }

  /** `word |= mask` for a mask on bits n up to m of word j. */
  method SetIn(a: array<bv64>, j: nat, mask: bv64, ghost n: nat, ghost m: nat)
    requires j < a.Length && BITS * j <= n <= m <= BITS * j + BITS
    requires forall b :: 0 <= b < BITS ==> Bits(mask)[b] == (n <= BITS * j + b < m)
    modifies a
    ensures RangeIs(old(a[..]), a[..], n, m, true)
  {
    var w := Combine(Or, a[j], mask);
    WordIs(a[..], j, w, n, m, true);
    a[j] := w;
    assert a[..] == old(a[..])[j := w];
  }

  /** `word &= ~mask` for a mask on bits n up to m of word j. */
  method ClearIn(a: array<bv64>, j: nat, mask: bv64, ghost n: nat, ghost m: nat)
    requires j < a.Length && BITS * j <= n <= m <= BITS * j + BITS
    requires forall b :: 0 <= b < BITS ==> Bits(mask)[b] == (n <= BITS * j + b < m)
    modifies a
    ensures RangeIs(old(a[..]), a[..], n, m, false)
  {
    var w := Combine(AndNot, a[j], mask);
    WordIs(a[..], j, w, n, m, false);
    a[j] := w;
    assert a[..] == old(a[..])[j := w];
  }

  method SetBit(a: array<bv64>, n: nat)
    requires n < BITS * a.Length
    modifies a
    ensures RangeIs(old(a[..]), a[..], n, n + 1, true)
  {
    var bit := BitOnly(n);
    SetIn(a, n / BITS, bit, n, n + 1);
  }

  method ClearBit(a: array<bv64>, n: nat)
    requires n < BITS * a.Length
    modifies a
    ensures RangeIs(old(a[..]), a[..], n, n + 1, false)
  {
    var bit := BitOnly(n);
    ClearIn(a, n / BITS, bit, n, n + 1);
  }

  method ChangeBit(a: array<bv64>, n: nat)
    requires n < BITS * a.Length
    modifies a
    ensures RangeIs(old(a[..]), a[..], n, n + 1, !old(Test(a[..], n)))
  {
    var bit := BitOnly(n);
    var w := Combine(Xor, a[n / BITS], bit);
    WordIs(a[..], n / BITS, w, n, n + 1, !Test(a[..], n));
    a[n / BITS] := w;
    assert a[..] == old(a[..])[n / BITS := w];
  }

  // ---------------------------------------------------------------- ranges

  function AlignDown(n: nat): nat {
    n - n % BITS
  }

  function AlignUp(n: nat): nat {
    AlignDown(n + BITS - 1)
  }

  lemma Alignment(n: nat, m: nat)
    requires n <= m
    ensures AlignUp(n) % BITS == 0 && AlignDown(m) % BITS == 0
    ensures BITS * (AlignUp(n) / BITS) == AlignUp(n) && BITS * (AlignDown(m) / BITS) == AlignDown(m)
    ensures n <= AlignUp(n) < n + BITS && AlignDown(m) <= m < AlignDown(m) + BITS
    ensures AlignUp(n) > n ==> AlignUp(n) == BITS * (n / BITS) + BITS
    ensures AlignUp(n) > AlignDown(m) ==> n / BITS == m / BITS && n < AlignUp(n)
    ensures m / BITS * BITS == AlignDown(m) && m == AlignDown(m) + m % BITS && n == n / BITS * BITS + n % BITS
  {
  }

  /** The memset over whole words. */
  method SetWords(a: array<bv64>, from: nat, to: nat, v: bool)
    requires from <= to <= a.Length
    modifies a
    ensures RangeIs(old(a[..]), a[..], BITS * from, BITS * to, v)
  {
    var w := if v then ONES else 0;
    OnesBits(w);
    ZeroBits(w);
    var k := from;
    while k < to
      invariant from <= k <= to
      invariant RangeIs(old(a[..]), a[..], BITS * from, BITS * k, v)
    {
      ghost var s := a[..];
      WordIs(s, k, w, BITS * k, BITS * k + BITS, v);
      a[k] := w;
      assert a[..] == s[k := w];
      RangeJoin(old(a[..]), s, a[..], BITS * from, BITS * k, BITS * k + BITS, v);
      k := k + 1;
    }
  }

  method ZeroRange(a: array<bv64>, n: nat, m: nat)
    requires n <= m <= BITS * a.Length
    modifies a
    ensures RangeIs(old(a[..]), a[..], n, m, false)
  {
    var an, am := AlignUp(n), AlignDown(m);
    Alignment(n, m);
    var headmask := HeadOnly(n);
    var tailmask := TailOnly(m);
    if am < an {
      var both := Combine(And, headmask, tailmask);
      ClearIn(a, n / BITS, both, n, m);
      return;
    }
    if an > n {
      ClearIn(a, n / BITS, headmask, n, an);
    }
    ghost var s := a[..];
    if am > an {
      SetWords(a, an / BITS, am / BITS, false);
    }
    RangeJoin(old(a[..]), s, a[..], n, an, am, false);
    ghost var t := a[..];
    if m > am {
      ClearIn(a, m / BITS, tailmask, am, m);
    }
    RangeJoin(old(a[..]), t, a[..], n, am, m, false);
  }

  method FillRange(a: array<bv64>, n: nat, m: nat)
    requires n <= m <= BITS * a.Length
    modifies a
    ensures RangeIs(old(a[..]), a[..], n, m, true)
  {
    var an, am := AlignUp(n), AlignDown(m);
    Alignment(n, m);
    var headmask := HeadOnly(n);
    var tailmask := TailOnly(m);
    if am < an {
      var both := Combine(And, headmask, tailmask);
      SetIn(a, n / BITS, both, n, m);
      return;
    }
    if an > n {
      SetIn(a, n / BITS, headmask, n, an);
    }
    ghost var s := a[..];
    if am > an {
      SetWords(a, an / BITS, am / BITS, true);
    }
    RangeJoin(old(a[..]), s, a[..], n, an, am, true);
    ghost var t := a[..];
    if m > am {
      SetIn(a, m / BITS, tailmask, am, m);
    }
    RangeJoin(old(a[..]), t, a[..], n, am, m, true);
  }

  // ---------------------------------------------------------------- searching

  /** The bit-by-bit scan: the first set bit from n on, or m. */
  function Scan(s: seq<bv64>, n: nat, m: nat): (r: nat)
    requires n <= m <= BITS * |s|
    ensures n <= r <= m
    ensures r < m ==> Test(s, r)
    ensures forall i :: n <= i < r ==> !Test(s, i)
    decreases m - n
  {
    if n == m || Test(s, n) then n else Scan(s, n + 1, m)
  }

  /** The scan is the only index with its properties. */
  lemma ScanIs(s: seq<bv64>, n: nat, m: nat, r: nat)
    requires n <= r <= m <= BITS * |s| && (r < m ==> Test(s, r))
    requires forall i :: n <= i < r ==> !Test(s, i)
    ensures r == Scan(s, n, m)
  {
    var k := Scan(s, n, m);
  }

  /** No bits from n up to m. */
  predicate Clear(s: seq<bv64>, n: nat, m: nat)
    requires m <= BITS * |s|
  {
    forall i :: n <= i < m ==> !Test(s, i)
  }

  /** Word j with all but bits n up to m masked off. */
  ghost predicate Window(s: seq<bv64>, j: nat, w: bv64, n: nat, m: nat) {
    && j < |s| && BITS * j <= n <= m <= BITS * j + BITS
    && forall b :: 0 <= b < BITS ==> Bits(w)[b] == (n <= BITS * j + b < m && Bits(s[j])[b])
  }

  lemma WindowTest(s: seq<bv64>, j: nat, w: bv64, n: nat, m: nat, i: nat)
    requires Window(s, j, w, n, m) && BITS * j <= i < BITS * j + BITS
    ensures Bits(w)[i - BITS * j] == (n <= i < m && Test(s, i))
  {
  }

  lemma EmptyWindow(s: seq<bv64>, j: nat, w: bv64, n: nat, m: nat)
    requires Window(s, j, w, n, m) && w == 0
    ensures Clear(s, n, m)
  {
    ZeroHasNone(w);
    forall i | n <= i < m ensures !Test(s, i) {
      WindowTest(s, j, w, n, m, i);
    }
  }

  lemma WindowClear(s: seq<bv64>, j: nat, w: bv64, n: nat, m: nat)
    requires Window(s, j, w, n, m)
    ensures w == 0 <==> Clear(s, n, m)
  {
    if w == 0 {
      EmptyWindow(s, j, w, n, m);
    } else {
      var b := SomeBit(w);
      WindowTest(s, j, w, n, m, BITS * j + b);
    }
  }

  /** `word & mask` for a mask on bits n up to m of word j. */
  method WindowOf(a: array<bv64>, j: nat, mask: bv64, ghost n: nat, ghost m: nat) returns (w: bv64)
    requires j < a.Length && BITS * j <= n <= m <= BITS * j + BITS
    requires forall b :: 0 <= b < BITS ==> Bits(mask)[b] == (n <= BITS * j + b < m)
    ensures Window(a[..], j, w, n, m) && (w == 0 <==> Clear(a[..], n, m))
  {
    w := Combine(And, a[j], mask);
    WindowClear(a[..], j, w, n, m);
  }

  /** `j * BITS + bitmap_clz(w)`, the first set bit that a window shows. */
  method FirstIn(ghost s: seq<bv64>, j: nat, w: bv64, ghost n: nat, ghost m: nat) returns (r: nat)
    requires Window(s, j, w, n, m) && w != 0
    ensures n <= r < m && Test(s, r) && Clear(s, n, r)
  {
    var lz := Clz(w);
    r := BITS * j + lz;
    WindowTest(s, j, w, n, m, r);
    forall i | n <= i < r ensures !Test(s, i) {
      WindowTest(s, j, w, n, m, i);
    }
  }

  method Ffs(a: array<bv64>, n: nat, m: nat) returns (r: nat)
    requires n <= m <= BITS * a.Length
    ensures r == Scan(a[..], n, m)
  {
    ghost var s := a[..];
    var an, am := AlignUp(n), AlignDown(m);
    Alignment(n, m);
    var headmask := HeadOnly(n);
    var tailmask := TailOnly(m);
    if am < an {
      var both := Combine(And, headmask, tailmask);
      var w := WindowOf(a, n / BITS, both, n, m);
      r := m;
      if w != 0 {
        r := FirstIn(s, m / BITS, w, n, m);
      }
      ScanIs(s, n, m, r);
      return;
    }
    if an > n {
      var w := WindowOf(a, n / BITS, headmask, n, an);
      if w != 0 {
        r := FirstIn(s, n / BITS, w, n, an);
        ScanIs(s, n, m, r);
        return;
      }
    }
    r := FirstInWords(a, an, am);
    if r < am {
      ScanIs(s, n, m, r);
      return;
    }
    if m > am {
      var w := WindowOf(a, m / BITS, tailmask, am, m);
      if w != 0 {
        r := FirstIn(s, m / BITS, w, am, m);
        ScanIs(s, n, m, r);
        return;
      }
    }
    r := m;
    ScanIs(s, n, m, r);
  }

  /** One whole word: its first set bit, or the border of the next word. */
  method FirstInWord(a: array<bv64>, j: nat) returns (r: nat)
    requires j < a.Length
    ensures BITS * j <= r <= BITS * j + BITS && Clear(a[..], BITS * j, r)
    ensures r < BITS * j + BITS ==> Test(a[..], r)
  {
    var w := a[j];
    WindowClear(a[..], j, w, BITS * j, BITS * j + BITS);
    r := BITS * j + BITS;
    if w != 0 {
      r := FirstIn(a[..], j, w, BITS * j, BITS * j + BITS);
    }
  }

  /** The loop over whole words, from and to word borders. */
  method FirstInWords(a: array<bv64>, from: nat, to: nat) returns (r: nat)
    requires from <= to <= BITS * a.Length && from % BITS == 0 && to % BITS == 0
    ensures from <= r <= to && Clear(a[..], from, r) && (r < to ==> Test(a[..], r))
  {
    var an := from;
    while an < to
      invariant from <= an <= to && an % BITS == 0 && Clear(a[..], from, an)
    {
      r := FirstInWord(a, an / BITS);
      if r < an + BITS {
        return;
      }
      an := an + BITS;
    }
    r := to;
  }

  /** Searching again from one past each result. */
  function Listed(s: seq<bv64>, n: nat, m: nat): seq<nat>
    requires n <= m <= BITS * |s|
    decreases m - n
  {
    var r := Scan(s, n, m);
    if r == m then [] else [r] + Listed(s, r + 1, m)
  }

  /** Repeated searching lists the set bits, each once and in increasing order. */
  lemma {:induction false} ListsSetBits(s: seq<bv64>, n: nat, m: nat)
    requires n <= m <= BITS * |s|
    ensures forall i :: i in Listed(s, n, m) <==> n <= i < m && Test(s, i)
    ensures forall j, k :: 0 <= j < k < |Listed(s, n, m)| ==> Listed(s, n, m)[j] < Listed(s, n, m)[k]
    decreases m - n
  {
    var r := Scan(s, n, m);
    if r < m {
      ListsSetBits(s, r + 1, m);
      var rest := Listed(s, r + 1, m);
      assert forall k :: 0 <= k < |rest| ==> rest[k] in rest;
    }
  }

  // ---------------------------------------------------------------- whole bitmaps

  /** BITMAP_NWORDS. */
  function Words(nbits: nat): nat {
    (nbits + BITS - 1) / BITS
  }

  /** Two arrays are one or apart; a destination may be one of its sources. */
  method BinOp(op: Op, dst: array<bv64>, src1: array<bv64>, src2: array<bv64>, nbits: nat)
    requires Words(nbits) <= dst.Length && Words(nbits) <= src1.Length && Words(nbits) <= src2.Length
    modifies dst
    ensures forall i :: 0 <= i < BITS * Words(nbits) ==>
      Test(dst[..], i) == OnBits(op, old(Test(src1[..], i)), old(Test(src2[..], i)))
    ensures forall j :: Words(nbits) <= j < dst.Length ==> dst[j] == old(dst[j])
  {
    var k := 0;
    while k < Words(nbits)
      invariant 0 <= k <= Words(nbits)
      invariant forall j :: 0 <= j < k ==> forall b :: 0 <= b < BITS ==>
        Bits(dst[j])[b] == OnBits(op, Bits(old(src1[j]))[b], Bits(old(src2[j]))[b])
      invariant forall j :: k <= j < dst.Length ==> dst[j] == old(dst[j])
      invariant forall j :: k <= j < src1.Length ==> src1[j] == old(src1[j])
      invariant forall j :: k <= j < src2.Length ==> src2[j] == old(src2[j])
    {
      var w := Combine(op, src1[k], src2[k]);
      dst[k] := w;
      k := k + 1;
    }
  }

  method Complement(dst: array<bv64>, src: array<bv64>, nbits: nat)
    requires Words(nbits) <= dst.Length && Words(nbits) <= src.Length
    modifies dst
    ensures forall i :: 0 <= i < BITS * Words(nbits) ==> Test(dst[..], i) == !old(Test(src[..], i))
    ensures forall j :: Words(nbits) <= j < dst.Length ==> dst[j] == old(dst[j])
  {
    var k := 0;
    while k < Words(nbits)
      invariant 0 <= k <= Words(nbits)
      invariant forall j :: 0 <= j < k ==> forall b :: 0 <= b < BITS ==>
        Bits(dst[j])[b] == !Bits(old(src[j]))[b]
      invariant forall j :: k <= j < dst.Length ==> dst[j] == old(dst[j])
      invariant forall j :: k <= j < src.Length ==> src[j] == old(src[j])
    {
      var w := Invert(src[k]);
      dst[k] := w;
      k := k + 1;
    }
  }

  /** BITMAP_TAIL: the last, partial word with its stray bits masked off. */
  method Tail(a: array<bv64>, nbits: nat) returns (w: bv64)
    requires Words(nbits) <= a.Length && nbits % BITS != 0
    ensures forall b :: 0 <= b < BITS ==>
      Bits(w)[b] == (b < nbits % BITS && Bits(a[nbits / BITS])[b])
  {
    var tail := TailOnly(nbits);
    w := Combine(And, a[nbits / BITS], tail);
  }

  /** No bit from n up to m where an operator gives one. */
  predicate NoneOf(op: Op, s: seq<bv64>, t: seq<bv64>, n: nat, m: nat)
    requires m <= BITS * |s| && m <= BITS * |t|
  {
    forall i :: n <= i < m ==> !OnBits(op, Test(s, i), Test(t, i))
  }

  /** The same of the first bits of one word. */
  predicate NoneIn(op: Op, v: bv64, w: bv64, limit: nat)
    requires limit <= BITS
  {
    forall b :: 0 <= b < limit ==> !OnBits(op, Bits(v)[b], Bits(w)[b])
  }

  lemma WordNone(op: Op, s: seq<bv64>, t: seq<bv64>, k: nat, limit: nat)
    requires k < |s| && k < |t| && limit <= BITS
    ensures NoneOf(op, s, t, BITS * k, BITS * k + limit) <==> NoneIn(op, s[k], t[k], limit)
  {
    forall b | 0 <= b < limit
      ensures OnBits(op, Bits(s[k])[b], Bits(t[k])[b]) == OnBits(op, Test(s, BITS * k + b), Test(t, BITS * k + b))
    {
    }
    forall i | BITS * k <= i < BITS * k + limit
      ensures OnBits(op, Test(s, i), Test(t, i)) == OnBits(op, Bits(s[k])[i - BITS * k], Bits(t[k])[i - BITS * k])
    {
    }
  }

  lemma TailNone(op: Op, s: seq<bv64>, t: seq<bv64>, k: nat, limit: nat, v: bv64, w: bv64)
    requires k < |s| && k < |t| && limit <= BITS && !OnBits(op, false, false)
    requires forall b :: 0 <= b < BITS ==> Bits(v)[b] == (b < limit && Bits(s[k])[b])
    requires forall b :: 0 <= b < BITS ==> Bits(w)[b] == (b < limit && Bits(t[k])[b])
    ensures NoneOf(op, s, t, BITS * k, BITS * k + limit) <==> NoneIn(op, v, w, BITS)
  {
    WordNone(op, s, t, k, limit);
    forall b | 0 <= b < BITS
      ensures OnBits(op, Bits(v)[b], Bits(w)[b]) == (b < limit && OnBits(op, Bits(s[k])[b], Bits(t[k])[b]))
    {
    }
  }

  lemma NoneJoin(op: Op, s: seq<bv64>, t: seq<bv64>, k: nat, m: nat)
    requires k <= m <= BITS * |s| && m <= BITS * |t|
    ensures NoneOf(op, s, t, 0, m) <==> NoneOf(op, s, t, 0, k) && NoneOf(op, s, t, k, m)
  {
  }

  method Equal(a: array<bv64>, c: array<bv64>, nbits: nat) returns (r: bool)
    requires Words(nbits) <= a.Length && Words(nbits) <= c.Length
    ensures r <==> NoneOf(Xor, a[..], c[..], 0, nbits)
  {
    ghost var s, t := a[..], c[..];
    for k := 0 to nbits / BITS
      invariant NoneOf(Xor, s, t, 0, BITS * k)
    {
      BitsEqual(a[k], c[k]);
      WordNone(Xor, s, t, k, BITS);
      NoneJoin(Xor, s, t, BITS * k, BITS * k + BITS);
      if a[k] != c[k] {
        NoneJoin(Xor, s, t, BITS * k + BITS, nbits);
        return false;
      }
    }
    if nbits % BITS == 0 {
      return true;
    }
    var v := Tail(a, nbits);
    var w := Tail(c, nbits);
    BitsEqual(v, w);
    TailNone(Xor, s, t, nbits / BITS, nbits % BITS, v, w);
    NoneJoin(Xor, s, t, BITS * (nbits / BITS), nbits);
    return v == w;
  }

  method Intersects(a: array<bv64>, c: array<bv64>, nbits: nat) returns (r: bool)
    requires Words(nbits) <= a.Length && Words(nbits) <= c.Length
    ensures !r <==> NoneOf(And, a[..], c[..], 0, nbits)
  {
    ghost var s, t := a[..], c[..];
    for k := 0 to nbits / BITS
      invariant NoneOf(And, s, t, 0, BITS * k)
    {
      var w := Combine(And, a[k], c[k]);
      ZeroBits(w);
      WordNone(And, s, t, k, BITS);
      NoneJoin(And, s, t, BITS * k, BITS * k + BITS);
      if w != 0 {
        NoneJoin(And, s, t, BITS * k + BITS, nbits);
        return true;
      }
    }
    if nbits % BITS == 0 {
      return false;
    }
    var v := Tail(a, nbits);
    var w := Tail(c, nbits);
    var x := Combine(And, v, w);
    ZeroBits(x);
    TailNone(And, s, t, nbits / BITS, nbits % BITS, v, w);
    NoneJoin(And, s, t, BITS * (nbits / BITS), nbits);
    return x != 0;
  }

  method Subset(a: array<bv64>, c: array<bv64>, nbits: nat) returns (r: bool)
    requires Words(nbits) <= a.Length && Words(nbits) <= c.Length
    ensures r <==> NoneOf(AndNot, a[..], c[..], 0, nbits)
  {
    ghost var s, t := a[..], c[..];
    for k := 0 to nbits / BITS
      invariant NoneOf(AndNot, s, t, 0, BITS * k)
    {
      var w := Combine(AndNot, a[k], c[k]);
      ZeroBits(w);
      WordNone(AndNot, s, t, k, BITS);
      NoneJoin(AndNot, s, t, BITS * k, BITS * k + BITS);
      if w != 0 {
        NoneJoin(AndNot, s, t, BITS * k + BITS, nbits);
        return false;
      }
    }
    if nbits % BITS == 0 {
      return true;
    }
    var v := Tail(a, nbits);
    var w := Tail(c, nbits);
    var x := Combine(AndNot, v, w);
    ZeroBits(x);
    TailNone(AndNot, s, t, nbits / BITS, nbits % BITS, v, w);
    NoneJoin(AndNot, s, t, BITS * (nbits / BITS), nbits);
    return x == 0;
  }

  /** Every bit from n up to m. */
  predicate Set(s: seq<bv64>, n: nat, m: nat)
    requires m <= BITS * |s|
  {
    forall i :: n <= i < m ==> Test(s, i)
  }

  lemma WordSet(s: seq<bv64>, k: nat, limit: nat)
    requires k < |s| && limit <= BITS
    ensures Set(s, BITS * k, BITS * k + limit) <==> forall b :: 0 <= b < limit ==> Bits(s[k])[b]
  {
    forall b | 0 <= b < limit ensures Bits(s[k])[b] == Test(s, BITS * k + b) {
    }
    forall i | BITS * k <= i < BITS * k + limit ensures Test(s, i) == Bits(s[k])[i - BITS * k] {
    }
  }

  method Full(a: array<bv64>, nbits: nat) returns (r: bool)
    requires Words(nbits) <= a.Length
    ensures r <==> Set(a[..], 0, nbits)
  {
    ghost var s := a[..];
    for k := 0 to nbits / BITS
      invariant Set(s, 0, BITS * k)
    {
      OnesBits(a[k]);
      WordSet(s, k, BITS);
      if a[k] != ONES {
        return false;
      }
    }
    if nbits % BITS == 0 {
      return true;
    }
    var v := Tail(a, nbits);
    var tailbits := TailOnly(nbits);
    BitsEqual(v, tailbits);
    WordSet(s, nbits / BITS, nbits % BITS);
    return v == tailbits;
  }

  method Empty(a: array<bv64>, nbits: nat) returns (r: bool)
    requires Words(nbits) <= a.Length
    ensures r <==> Clear(a[..], 0, nbits)
  {
    ghost var s := a[..];
    for k := 0 to nbits / BITS
      invariant Clear(s, 0, BITS * k)
    {
      WindowClear(s, k, a[k], BITS * k, BITS * k + BITS);
      if a[k] != 0 {
        return false;
      }
    }
    if nbits % BITS == 0 {
      return true;
    }
    var v := Tail(a, nbits);
    WindowClear(s, nbits / BITS, v, BITS * (nbits / BITS), nbits);
    return v == 0;
  }

  // ---------------------------------------------------------------- resizing

  /** realloc: the words of the smaller size are kept and the rest of the new ones are arbitrary; `room`
      says whether the allocation succeeds. */
  method Realloc(a: array<bv64>, nbits: nat, room: bool) returns (c: array?<bv64>)
    ensures c == null <==> !room
    ensures c != null ==> fresh(c) && c.Length == Words(nbits)
    ensures c != null ==> forall j :: 0 <= j < a.Length && j < c.Length ==> c[j] == a[j]
  {
    if !room {
      return null;
    }
    c := new bv64[Words(nbits)];
    for k := 0 to if a.Length < c.Length then a.Length else c.Length
      invariant forall j :: 0 <= j < k ==> c[j] == a[j]
    {
      c[k] := a[k];
    }
  }

  /** What resizing promises: the old bits that fit are kept, and every new bit is v. */
  ghost predicate Resized(s: seq<bv64>, obits: nat, t: seq<bv64>, nbits: nat, v: bool)
    requires obits <= BITS * |s|
  {
    && |t| == Words(nbits)
    && forall i :: 0 <= i < nbits ==> Test(t, i) == if i < obits then Test(s, i) else v
  }

  method Realloc0(a: array<bv64>, obits: nat, nbits: nat, room: bool) returns (c: array?<bv64>)
    requires a.Length == Words(obits)
    ensures c == null <==> !room
    ensures c != null ==> Resized(a[..], obits, c[..], nbits, false)
  {
    c := Realloc(a, nbits, room);
    if nbits > obits && c != null {
      ZeroRange(c, obits, nbits);
    }
  }

  method Realloc1(a: array<bv64>, obits: nat, nbits: nat, room: bool) returns (c: array?<bv64>)
    requires a.Length == Words(obits)
    ensures c == null <==> !room
    ensures c != null ==> Resized(a[..], obits, c[..], nbits, true)
  {
    c := Realloc(a, nbits, room);
    if nbits > obits && c != null {
      FillRange(c, obits, nbits);
    }
  }
}
