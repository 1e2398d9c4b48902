/** The buddy allocator of providers/mlx5/dr_buddy.c, on the word-packed bitmaps. What the source keeps in
    three parallel tables indexed by order is one `Level` object per order here. */
module Buddy {
  import opened WordBits
  import opened Bitmap
  import opened BuddyBlocks
  import opened Shifts

  ghost function SetBits(s: seq<bv64>, size: nat): set<nat>
    requires size <= BITS * |s|
  {
    set i | 0 <= i < size && Test(s, i)
  }

  /** Nothing is set past the end, and bit j of the upper map says whether word j of the lower one has a
      set bit. */
  ghost predicate Indexed(s: seq<bv64>, t: seq<bv64>, size: nat) {
    && size <= BITS * |s| && |s| <= BITS * |t|
    && Clear(s, size, BITS * |s|)
    && (forall j :: 0 <= j < |s| ==> Test(t, j) == !Clear(s, BITS * j, BITS * j + BITS))
    && Clear(t, |s|, BITS * |t|)
  }

  lemma UpperSet(s: seq<bv64>, t: seq<bv64>, size: nat, k: nat)
    requires Indexed(s, t, size) && k in SetBits(s, size)
    ensures k / BITS < |s| && Test(t, k / BITS)
  {
    assert Test(s, k);
  }

  /** Searching the upper map first finds the first set bit of the lower one. */
  lemma TwoLayers(s: seq<bv64>, t: seq<bv64>, size: nat, some: nat)
    requires Indexed(s, t, size) && some in SetBits(s, size) && |s| == Words(size)
    ensures BITS * Scan(t, 0, |s|) <= some
    ensures
      var r := Scan(s, BITS * Scan(t, 0, |s|), size);
      r in SetBits(s, size) && forall k :: k in SetBits(s, size) ==> r <= k
  {
    var j := Scan(t, 0, |s|);
    forall k | k in SetBits(s, size) ensures BITS * j <= k {
      UpperSet(s, t, size, k);
    }
  }

  lemma Marked(s: seq<bv64>, t: seq<bv64>, size: nat, k: nat, s': seq<bv64>, t': seq<bv64>)
    requires Indexed(s, t, size) && k < size
    requires RangeIs(s, s', k, k + 1, true) && RangeIs(t, t', k / BITS, k / BITS + 1, true)
    ensures Indexed(s', t', size) && SetBits(s', size) == SetBits(s, size) + {k}
  {
    forall j | 0 <= j < |s| ensures Test(t', j) == !Clear(s', BITS * j, BITS * j + BITS) {
      if j == k / BITS {
        assert Test(s', k);
      } else {
        SameWord(s, s', j);
      }
    }
  }

  lemma SameWord(s: seq<bv64>, s': seq<bv64>, j: nat)
    requires |s| == |s'| && j < |s| && forall i :: BITS * j <= i < BITS * j + BITS ==> Test(s, i) == Test(s', i)
    ensures Clear(s, BITS * j, BITS * j + BITS) <==> Clear(s', BITS * j, BITS * j + BITS)
  {
  }

  lemma Unmarked(s: seq<bv64>, t: seq<bv64>, size: nat, k: nat, s': seq<bv64>, t': seq<bv64>)
    requires Indexed(s, t, size) && k < size && RangeIs(s, s', k, k + 1, false)
    requires var j := k / BITS;
      if Clear(s', BITS * j, BITS * j + BITS) then RangeIs(t, t', j, j + 1, false)
      else t' == t && Test(t, j)
    ensures Indexed(s', t', size) && SetBits(s', size) == SetBits(s, size) - {k}
  {
    forall j | 0 <= j < |s| ensures Test(t', j) == !Clear(s', BITS * j, BITS * j + BITS) {
      if j != k / BITS {
        SameWord(s, s', j);
      }
    }
  }

  /** One order: its blocks' free bits, the upper map over their words, and how many are free. */
  class Level {
    const size: nat
    const bits: array<bv64>
    const setBit: array<bv64>
    var numFree: nat

    ghost predicate Valid()
      reads this, bits, setBit
    {
      && 0 < size && bits != setBit
      && bits.Length == Words(size) && setBit.Length == Words(Words(size))
      && Indexed(bits[..], setBit[..], size)
      && numFree == |Free()|
    }

    ghost function Free(): set<nat>
      requires size <= BITS * bits.Length
      reads this, bits
    {
      SetBits(bits[..], size)
    }

    constructor (size: nat)
      requires 0 < size
      ensures Valid() && Free() == {} && this.size == size
      ensures fresh(bits) && fresh(setBit)
    {
      var lower := new bv64[Words(size)];
      SetWords(lower, 0, lower.Length, false);
      var upper := new bv64[Words(Words(size))];
      SetWords(upper, 0, upper.Length, false);
      this.size := size;
      bits := lower;
      setBit := upper;
      numFree := 0;
      new;
      assert Free() == {};
    }

    method Has(k: nat) returns (r: bool)
      requires Valid() && k < BITS * bits.Length
      ensures r == (k in Free())
    {
      r := TestBit(bits, k);
    }

    /** dr_find_first_bit. */
    method First() returns (r: nat)
      requires Valid() && numFree > 0
      ensures r in Free() && forall k :: k in Free() ==> r <= k
    {
      var setSize := (size - 1) / BITS + 1;
      ghost var some :| some in Free();
      TwoLayers(bits[..], setBit[..], size, some);
      var setIdx := Ffs(setBit, 0, setSize);
      r := Ffs(bits, setIdx * BITS, size);
    }

    /** dr_buddy_update_upper_bitmap. */
    method UpdateUpper(k: nat)
      requires bits != setBit && k < BITS * bits.Length && bits.Length <= BITS * setBit.Length
      modifies setBit
      ensures
        var j := k / BITS;
        if Clear(bits[..], BITS * j, BITS * j + BITS) then RangeIs(old(setBit[..]), setBit[..], j, j + 1, false)
        else setBit[..] == old(setBit[..])
    {
      var l, h := k / BITS * BITS, (k / BITS + 1) * BITS;
      var m := Ffs(bits, l, h);
      if m == h {
        ClearBit(setBit, k / BITS);
      }
    }

    method Take(k: nat)
      requires Valid() && k in Free()
      modifies this, bits, setBit
      ensures Valid() && Free() == old(Free()) - {k}
    {
      ClearBit(bits, k);
      UpdateUpper(k);
      Unmarked(old(bits[..]), old(setBit[..]), size, k, bits[..], setBit[..]);
      numFree := numFree - 1;
    }

    method Give(k: nat)
      requires Valid() && k < size && k !in Free()
      modifies this, bits, setBit
      ensures Valid() && Free() == old(Free()) + {k}
    {
      SetBit(bits, k);
      SetBit(setBit, k / BITS);
      Marked(old(bits[..]), old(setBit[..]), size, k, bits[..], setBit[..]);
      numFree := numFree + 1;
    }
  }

  // ---------------------------------------------------------------- the free sets of all orders

  /** The free sets are the free blocks of the units u. */
  ghost predicate Canonical(f: seq<set<nat>>, u: set<nat>) {
    && |f| > 0
    && forall o, k: nat :: 0 <= o < |f| ==> (k in f[o] <==> IsFree(u, |f| - 1, o, k))
  }

  lemma CanonicalTake(f: seq<set<nat>>, u: set<nat>, o: nat, k: nat)
    requires Canonical(f, u) && o < |f| && k in f[o]
    ensures Canonical(f[o := f[o] - {k}], u - Block(o, k))
  {
    var g := f[o := f[o] - {k}];
    forall p, j: nat | 0 <= p < |g| ensures j in g[p] <==> IsFree(u - Block(o, k), |g| - 1, p, j) {
      TakeBlock(u, |f| - 1, o, k, p, j);
    }
  }

  lemma CanonicalGive(f: seq<set<nat>>, u: set<nat>, o: nat, k: nat)
    requires Canonical(f, u) && o < |f| && Block(o, k) !! u
    requires o < |f| - 1 ==> !(Block(o, Sibling(k)) <= u)
    ensures k !in f[o] && Canonical(f[o := f[o] + {k}], u + Block(o, k))
  {
    NonEmpty(o, k);
    var g := f[o := f[o] + {k}];
    forall p, j: nat | 0 <= p < |g| ensures j in g[p] <==> IsFree(u + Block(o, k), |g| - 1, p, j) {
      AddBlock(u, |f| - 1, o, k, p, j);
    }
  }

  /** A whole block of some order means a free block of that order or a larger one. */
  lemma LargeEnough(f: seq<set<nat>>, u: set<nat>, order: nat, k: nat) returns (o: nat)
    requires Canonical(f, u) && order < |f| && Block(order, k) <= u
    ensures order <= o < |f| && f[o] != {}
  {
    o := Climb(u, |f| - 1, order, k);
    assert Up(k, o - order) in f[o];
  }

  /** A block next to one that is in use is free as soon as it is whole. */
  lemma SiblingFree(u: set<nat>, top: nat, o: nat, k: nat)
    requires o < top && Block(o, k) !! u
    ensures IsFree(u, top, o, Sibling(k)) <==> Block(o, Sibling(k)) <= u
  {
    NonEmpty(o, k);
    Halves(o, k);
    assert Sibling(k) / 2 == k / 2;
  }

  /** Block k of an order is the left end of the first free block of the first order that has one. */
  ghost predicate FirstFit(f: seq<set<nat>>, order: nat, k: nat) {
    exists o: nat, at: nat :: Fits(f, order, o, at) && k == Down(at, o - order)
  }

  ghost predicate Fits(f: seq<set<nat>>, order: nat, o: nat, at: nat) {
    && order <= o < |f| && (forall p :: order <= p < o ==> f[p] == {})
    && at in f[o] && (forall j :: j in f[o] ==> at <= j)
  }

  /** Block k of order o has been taken out of the free units u. */
  ghost predicate Taken(f: seq<set<nat>>, u: set<nat>, o: nat, k: nat) {
    Block(o, k) <= u && Canonical(f, u - Block(o, k))
  }

  /** Splitting a taken block gives its right half back. */
  lemma SplitBlock(f: seq<set<nat>>, u: set<nat>, o: nat, k: nat)
    requires 0 < o < |f| && u <= Block(|f| - 1, 0) && Taken(f, u, o, k)
    ensures Sibling(2 * k) < Pow2(|f| - o) && Sibling(2 * k) !in f[o - 1]
    ensures Taken(f[o - 1 := f[o - 1] + {Sibling(2 * k)}], u, o - 1, 2 * k)
  {
    var r := 2 * k + 1;
    Halves(o - 1, 2 * k);
    NonEmpty(o - 1, 2 * k);
    CanonicalGive(f, u - Block(o, k), o - 1, r);
    assert u - Block(o, k) + Block(o - 1, r) == u - Block(o - 1, 2 * k);
    Numbered(|f| - 1, o - 1, r);
  }

  /** Joining a taken block with its free sibling takes the larger block. */
  lemma JoinBlock(f: seq<set<nat>>, u: set<nat>, o: nat, k: nat)
    requires o < |f| && k < Pow2(|f| - 1 - o) && Taken(f, u, o, k)
    requires Sibling(k) in f[o] && Sibling(k) < Pow2(|f| - 1 - o)
    ensures o + 1 < |f| && k / 2 < Pow2(|f| - 2 - o)
    ensures Taken(f[o := f[o] - {Sibling(k)}], u, o + 1, k / 2)
  {
    var v := u - Block(o, k);
    CanonicalTake(f, v, o, Sibling(k));
    Halves(o, k);
    assert v - Block(o, Sibling(k)) == u - Block(o + 1, k / 2);
  }

  /** A taken block whose sibling is not free is given back as it is. */
  lemma SettleBlock(f: seq<set<nat>>, u: set<nat>, o: nat, k: nat)
    requires o < |f| && Taken(f, u, o, k) && Sibling(k) !in f[o]
    ensures k !in f[o] && Canonical(f[o := f[o] + {k}], u)
  {
    var v := u - Block(o, k);
    if o < |f| - 1 {
      SiblingFree(v, |f| - 1, o, k);
    }
    CanonicalGive(f, v, o, k);
    assert v + Block(o, k) == u;
  }

  /** At first nothing is in use and the whole is the one free block. */
  lemma NoneFree(f: seq<set<nat>>, top: nat)
    requires |f| == top + 1 && forall o :: 0 <= o < |f| ==> f[o] == {}
    ensures Canonical(f[top := f[top] + {0}], Block(top, 0)) && Split(Block(top, 0), {}, top)
  {
    forall o, k: nat | 0 <= o < |f| ensures k in f[o] <==> IsFree({}, top, o, k) {
      NonEmpty(o, k);
    }
    CanonicalGive(f, {}, top, 0);
    assert {} + Block(top, 0) == Block(top, 0);
  }

  // ---------------------------------------------------------------- the blocks in use

  ghost predicate Apiece(live: set<(nat, nat)>) {
    forall b, c :: b in live && c in live && b != c ==> Block(b.0, b.1) !! Block(c.0, c.1)
  }

  ghost predicate InUse(u: set<nat>, b: (nat, nat), top: nat) {
    b.0 <= top && Block(b.0, b.1) <= Block(top, 0) && Block(b.0, b.1) !! u
  }

  ghost predicate Accounted(u: set<nat>, live: set<(nat, nat)>, i: nat) {
    i in u || exists b :: b in live && i in Block(b.0, b.1)
  }

  /** The whole is split between the free units u and the blocks in use. */
  ghost predicate Split(u: set<nat>, live: set<(nat, nat)>, top: nat) {
    && u <= Block(top, 0) && Apiece(live)
    && (forall b :: b in live ==> InUse(u, b, top))
    && (forall i :: i in Block(top, 0) ==> Accounted(u, live, i))
  }

  lemma AccountTake(u: set<nat>, live: set<(nat, nat)>, o: nat, k: nat, i: nat)
    requires Accounted(u, live, i)
    ensures Accounted(u - Block(o, k), live + {(o, k)}, i)
  {
    var b := (o, k);
    if i in u {
      assert i in Block(b.0, b.1) ==> b in live + {b};
    } else {
      var c :| c in live && i in Block(c.0, c.1);
      assert c in live + {b};
    }
  }

  lemma SplitTake(u: set<nat>, live: set<(nat, nat)>, top: nat, o: nat, k: nat)
    requires Split(u, live, top) && o <= top && Block(o, k) <= u
    ensures (o, k) !in live && Split(u - Block(o, k), live + {(o, k)}, top)
  {
    NonEmpty(o, k);
    var more := live + {(o, k)};
    forall b | b in live ensures InUse(u - Block(o, k), b, top) && Block(b.0, b.1) !! Block(o, k) {
      assert InUse(u, b, top);
    }
    forall i | i in Block(top, 0) ensures Accounted(u - Block(o, k), more, i) {
      AccountTake(u, live, o, k, i);
    }
  }

  lemma AccountGive(u: set<nat>, live: set<(nat, nat)>, o: nat, k: nat, i: nat)
    requires Accounted(u, live, i)
    ensures Accounted(u + Block(o, k), live - {(o, k)}, i)
  {
    var b := (o, k);
    if i !in u {
      var c :| c in live && i in Block(c.0, c.1);
      assert c != b ==> c in live - {b};
    }
  }

  lemma SplitGive(u: set<nat>, live: set<(nat, nat)>, top: nat, o: nat, k: nat)
    requires Split(u, live, top) && (o, k) in live
    ensures InUse(u, (o, k), top) && Split(u + Block(o, k), live - {(o, k)}, top)
  {
    var fewer := live - {(o, k)};
    assert InUse(u, (o, k), top);
    forall b | b in fewer ensures InUse(u + Block(o, k), b, top) {
      assert InUse(u, b, top) && Block(b.0, b.1) !! Block((o, k).0, (o, k).1);
    }
    forall i | i in Block(top, 0) ensures Accounted(u + Block(o, k), fewer, i) {
      AccountGive(u, live, o, k, i);
    }
  }

  /** Once every block has been given back, the free sets are what they were at first: one block, the
      whole, whatever was allocated and freed in between and in whatever order. */
  lemma AllGivenBack(f: seq<set<nat>>, u: set<nat>)
    requires |f| > 0 && Canonical(f, u) && Split(u, {}, |f| - 1)
    ensures f == seq(|f|, o => if o == |f| - 1 then {0} else {})
  {
    var top := |f| - 1;
    assert u == Block(top, 0) by {
      forall i | i in Block(top, 0) ensures i in u {
        assert Accounted(u, {}, i);
      }
    }
    forall o | 0 <= o < |f| ensures f[o] == if o == top then {0} else {} {
      forall k: nat ensures k in f[o] <==> o == top && k == 0 {
        AllFree(top, o, k);
      }
    }
  }

  // ---------------------------------------------------------------- the allocator

  method NewLevels(maxOrder: nat) returns (ls: seq<Level>, ghost repr: set<object>)
    ensures |ls| == maxOrder + 1
    ensures fresh(repr) && forall x :: x in repr ==> x is Level || x is array<bv64>
    ensures forall o :: 0 <= o < |ls| ==> ls[o] in repr && ls[o].bits in repr && ls[o].setBit in repr
    ensures forall o :: 0 <= o < |ls| ==> fresh(ls[o]) && fresh(ls[o].bits) && fresh(ls[o].setBit)
    ensures forall o :: 0 <= o < |ls| ==>
      ls[o].Valid() && ls[o].size == Pow2(maxOrder - o) && ls[o].Free() == {}
    ensures forall i, j :: 0 <= i < j < |ls| ==>
      && ls[i] != ls[j]
      && ls[i].bits != ls[j].bits && ls[i].bits != ls[j].setBit
      && ls[i].setBit != ls[j].bits && ls[i].setBit != ls[j].setBit
  {
    ls, repr := [], {};
    while |ls| <= maxOrder
      invariant |ls| <= maxOrder + 1
      invariant fresh(repr) && forall x :: x in repr ==> x is Level || x is array<bv64>
      invariant forall o :: 0 <= o < |ls| ==> ls[o] in repr && ls[o].bits in repr && ls[o].setBit in repr
      invariant forall o :: 0 <= o < |ls| ==> fresh(ls[o]) && fresh(ls[o].bits) && fresh(ls[o].setBit)
      invariant forall o :: 0 <= o < |ls| ==>
        ls[o].Valid() && ls[o].size == Pow2(maxOrder - o) && ls[o].Free() == {}
      invariant forall i, j :: 0 <= i < j < |ls| ==>
        && ls[i] != ls[j]
        && ls[i].bits != ls[j].bits && ls[i].bits != ls[j].setBit
        && ls[i].setBit != ls[j].bits && ls[i].setBit != ls[j].setBit
    {
      var l := new Level(Pow2(maxOrder - |ls|));
      ls, repr := ls + [l], repr + {l, l.bits, l.setBit};
    }
  }

  class BuddyMem {
    const maxOrder: nat
    const levels: seq<Level>
    ghost var frees: seq<set<nat>>
    ghost var units: set<nat>
    ghost var live: set<(nat, nat)>

    ghost const repr: set<object>

    /** No two orders share anything. */
    ghost predicate Separate() {
      && this !in repr
      && (forall i :: 0 <= i < |levels| ==>
        levels[i] in repr && levels[i].bits in repr && levels[i].setBit in repr)
      && (forall i, j :: 0 <= i < j < |levels| ==>
        && levels[i] != levels[j]
        && levels[i].bits != levels[j].bits && levels[i].bits != levels[j].setBit
        && levels[i].setBit != levels[j].bits && levels[i].setBit != levels[j].setBit)
    }

    ghost predicate Shaped()
      reads this`frees, repr
    {
      && |levels| == |frees| == maxOrder + 1 && Separate()
      && forall o :: 0 <= o < |levels| ==>
        levels[o].Valid() && levels[o].size == Pow2(maxOrder - o) && levels[o].Free() == frees[o]
    }

    /** The free bits are exactly the free blocks of the free units, and the rest is in use. */
    ghost predicate Valid()
      reads this, repr
    {
      Shaped() && Canonical(frees, units) && Split(units, live, maxOrder)
    }

    method TakeAt(o: nat, k: nat)
      requires Shaped() && o <= maxOrder && k in frees[o]
      requires |levels| == maxOrder + 1
      modifies this`frees, levels[o], levels[o].bits, levels[o].setBit
      ensures Shaped() && frees == old(frees)[o := old(frees)[o] - {k}]
    {
      levels[o].Take(k);
      forall p | 0 <= p < |levels| && p != o
        ensures levels[p].Valid() && levels[p].Free() == old(levels[p].Free())
      {
      }
      frees := frees[o := frees[o] - {k}];
    }

    method GiveAt(o: nat, k: nat)
      requires Shaped() && o <= maxOrder && k !in frees[o] && k < Pow2(maxOrder - o)
      requires |levels| == maxOrder + 1
      modifies this`frees, levels[o], levels[o].bits, levels[o].setBit
      ensures Shaped() && frees == old(frees)[o := old(frees)[o] + {k}]
    {
      levels[o].Give(k);
      forall p | 0 <= p < |levels| && p != o
        ensures levels[p].Valid() && levels[p].Free() == old(levels[p].Free())
      {
      }
      frees := frees[o := frees[o] + {k}];
    }

    /** dr_buddy_init. */
    constructor (maxOrder: nat)
      ensures Valid() && this.maxOrder == maxOrder && fresh(repr)
      ensures live == {} && units == Block(maxOrder, 0)
    {
      var ls;
      ghost var objects;
      ls, objects := NewLevels(maxOrder);
      this.maxOrder := maxOrder;
      levels := ls;
      repr := objects;
      frees := seq(maxOrder + 1, o => {});
      units := {};
      live := {};
      new;
      Open();
    }

    /** The whole becomes the one free block. */
    method Open()
      requires Shaped() && forall o :: 0 <= o < |frees| ==> frees[o] == {}
      modifies this, repr
      ensures Valid() && live == {} && units == Block(maxOrder, 0)
    {
      units, live := Block(maxOrder, 0), {};
      NoneFree(frees, maxOrder);
      GiveAt(maxOrder, 0);
    }

    /** Whether the sibling of block k is free. */
    method SiblingAt(o: nat, k: nat) returns (r: bool)
      requires Shaped() && o <= maxOrder && k < Pow2(maxOrder - o)
      ensures r == (Sibling(k) in frees[o]) && (r ==> Sibling(k) < Pow2(maxOrder - o))
    {
      r := levels[o].Has(Sibling(k));
    }

    /** The first order from the one asked for on that has a free block. */
    method FindOrder(order: nat) returns (o: nat)
      requires Shaped() && Canonical(frees, units)
      ensures order <= o && (o <= maxOrder ==> levels[o].numFree > 0)
      ensures forall p :: order <= p < o && p <= maxOrder ==> frees[p] == {}
      ensures o > maxOrder ==> order > maxOrder || forall k: nat :: !(Block(order, k) <= units)
    {
      o := order;
      while o <= maxOrder && levels[o].numFree == 0
        invariant order <= o && forall p :: order <= p < o && p <= maxOrder ==> frees[p] == {}
      {
        o := o + 1;
      }
      if o > maxOrder && order <= maxOrder {
        forall k: nat ensures !(Block(order, k) <= units) {
          if Block(order, k) <= units {
            var _ := LargeEnough(frees, units, order, k);
          }
        }
      }
    }

    method TakeFree(o: nat, k: nat, ghost u: set<nat>)
      requires Shaped() && o <= maxOrder && Canonical(frees, u) && k in frees[o]
      modifies this`frees, repr
      ensures Shaped() && Taken(frees, u, o, k)
    {
      CanonicalTake(frees, u, o, k);
      TakeAt(o, k);
    }

    method SplitAt(o: nat, k: nat, ghost u: set<nat>)
      requires Shaped() && 0 < o <= maxOrder && u <= Block(maxOrder, 0) && Taken(frees, u, o, k)
      modifies this`frees, repr
      ensures Shaped() && Taken(frees, u, o - 1, 2 * k)
    {
      SplitBlock(frees, u, o, k);
      GiveAt(o - 1, Sibling(2 * k));
    }

    method JoinAt(o: nat, k: nat, ghost u: set<nat>)
      requires Shaped() && o <= maxOrder && k < Pow2(maxOrder - o) && Taken(frees, u, o, k)
      requires Sibling(k) in frees[o] && Sibling(k) < Pow2(maxOrder - o)
      modifies this`frees, repr
      ensures Shaped() && o + 1 <= maxOrder && k / 2 < Pow2(maxOrder - o - 1) && Taken(frees, u, o + 1, k / 2)
    {
      JoinBlock(frees, u, o, k);
      TakeAt(o, Sibling(k));
    }

    method SettleAt(o: nat, k: nat, ghost u: set<nat>)
      requires Shaped() && o <= maxOrder && k < Pow2(maxOrder - o) && Taken(frees, u, o, k)
      requires Sibling(k) !in frees[o]
      modifies this`frees, repr
      ensures Shaped() && Canonical(frees, u)
    {
      SettleBlock(frees, u, o, k);
      GiveAt(o, k);
    }

    /** Halves a block taken at order o until it has the order asked for; the right halves are free again. */
    method SplitDown(o: nat, at: nat, order: nat, ghost u: set<nat>) returns (k: nat)
      requires Shaped() && order <= o <= maxOrder && u <= Block(maxOrder, 0) && Taken(frees, u, o, at)
      modifies this`frees, repr
      ensures Shaped() && Taken(frees, u, order, k) && k == Down(at, o - order)
    {
      var p := o;
      k := at;
      while p > order
        invariant order <= p <= o && Shaped() && Taken(frees, u, p, k)
        invariant Down(k, p - order) == Down(at, o - order)
      {
        SplitAt(p, k, u);
        p := p - 1;
        k := 2 * k;
      }
    }

    /** dr_buddy_alloc_mem: the first block found, split down to the order asked for. */
    method Alloc(order: nat) returns (seg: int)
      requires Valid()
      modifies this, repr
      ensures Valid()
      ensures seg == -1 || 0 <= seg
      ensures seg == -1 <==> order > maxOrder || forall k: nat :: !(Block(order, k) <= old(units))
      ensures seg == -1 ==> frees == old(frees) && units == old(units) && live == old(live)
      ensures 0 <= seg ==>
        var k := Up(seg, order);
        && seg == Down(k, order) && (order, k) !in old(live) && live == old(live) + {(order, k)}
        && Block(order, k) <= old(units) && units == old(units) - Block(order, k)
        && FirstFit(old(frees), order, k)
    {
      var o := FindOrder(order);
      if o > maxOrder {
        return -1;
      }
      var at := levels[o].First();
      assert Fits(frees, order, o, at);
      TakeFree(o, at, units);
      at := SplitDown(o, at, order, units);
      SplitTake(units, live, maxOrder, order, at);
      units, live := units - Block(order, at), live + {(order, at)};
      UpDown(at, order);
      seg := Down(at, order);
    }

    /** Joins a taken block with its free siblings, order by order, and marks the result free. */
    method JoinUp(order: nat, at: nat, ghost u: set<nat>)
      requires Shaped() && order <= maxOrder && at < Pow2(maxOrder - order) && Taken(frees, u, order, at)
      modifies this`frees, repr
      ensures Shaped() && Canonical(frees, u)
    {
      var o: nat, k: nat := order, at;
      while true
        invariant o <= maxOrder && k < Pow2(maxOrder - o) && Shaped() && Taken(frees, u, o, k)
        decreases maxOrder - o
      {
        var free := SiblingAt(o, k);
        if !free {
          break;
        }
        JoinAt(o, k, u);
        o, k := o + 1, k / 2;
      }
      SettleAt(o, k, u);
    }

    /** dr_buddy_free_mem. */
    method Free(seg: nat, order: nat)
      requires Valid() && (order, Up(seg, order)) in live
      modifies this, repr
      ensures Valid()
      ensures
        var k := Up(seg, order);
        live == old(live) - {(order, k)} && units == old(units) + Block(order, k)
    {
      var k := Up(seg, order);
      ghost var u := units + Block(order, k);
      SplitGive(units, live, maxOrder, order, k);
      Numbered(maxOrder, order, k);
      assert u - Block(order, k) == units;
      JoinUp(order, k, u);
      units, live := u, live - {(order, k)};
    }
  }
}
