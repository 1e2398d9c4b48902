/** The blocks of the buddy allocator in providers/mlx5/dr_buddy.c, as sets of unit segments. Block k of
    order o is the units that have k left after o shifts to the right. */
module BuddyBlocks {
  import opened Shifts

  /** `k ^ 1`. */
  function Sibling(k: nat): nat {
    if k % 2 == 0 then k + 1 else k - 1
  }

  function Block(o: nat, k: nat): set<nat>
    decreases o
  {
    if o == 0 then {k} else Block(o - 1, 2 * k) + Block(o - 1, 2 * k + 1)
  }

  // ---------------------------------------------------------------- blocks form a tree

  /** The units of a block. */
  lemma {:induction false} InBlock(o: nat, k: nat, i: nat)
    ensures i in Block(o, k) <==> Up(i, o) == k
    decreases o
  {
    if o > 0 {
      InBlock(o - 1, 2 * k, i);
      InBlock(o - 1, 2 * k + 1, i);
    }
  }

  /** Block k of order o is the 2^o units from k * 2^o on, and k << o is the first of them. */
  lemma BlockIs(o: nat, k: nat, i: nat)
    ensures i in Block(o, k) <==> k * Pow2(o) <= i < (k + 1) * Pow2(o)
    ensures Down(k, o) == k * Pow2(o)
  {
    InBlock(o, k, i);
    UpIs(i, o, k);
    DownIs(k, o);
  }

  lemma NonEmpty(o: nat, k: nat)
    ensures Down(k, o) in Block(o, k)
  {
    UpDown(k, o);
    InBlock(o, k, Down(k, o));
  }

  /** A block lies inside the blocks above it. */
  lemma Inside(p: nat, k: nat, d: nat)
    ensures Block(p, k) <= Block(p + d, Up(k, d))
  {
    forall i | i in Block(p, k) ensures i in Block(p + d, Up(k, d)) {
      InBlock(p, k, i);
      UpUp(i, p, d);
      InBlock(p + d, Up(k, d), i);
    }
  }

  /** Blocks not above one another share nothing. */
  lemma Apart(p: nat, k: nat, d: nat, j: nat)
    requires Up(k, d) != j
    ensures Block(p, k) !! Block(p + d, j)
  {
    forall i | i in Block(p, k) ensures i !in Block(p + d, j) {
      InBlock(p, k, i);
      UpUp(i, p, d);
      InBlock(p + d, j, i);
    }
  }

  lemma Halves(o: nat, k: nat)
    ensures Block(o + 1, k / 2) == Block(o, k) + Block(o, Sibling(k)) && Block(o, k) !! Block(o, Sibling(k))
  {
    Apart(o, k, 0, Sibling(k));
  }

  // ---------------------------------------------------------------- the free blocks

  /** Block k of order o is free for the taking: all its units are free, and it is not part of a larger
      block whose units are all free. */
  predicate IsFree(u: set<nat>, top: nat, o: nat, k: nat) {
    o <= top && Block(o, k) <= u && (o < top ==> !(Block(o + 1, k / 2) <= u))
  }

  /** Which blocks are whole after block c of order p was added. */
  lemma WholeAfter(u: set<nat>, p: nat, c: nat, q: nat, k: nat)
    requires Block(p, c) !! u
    requires q > p ==> !(Block(p, Sibling(c)) <= u)
    ensures Block(q, k) <= u + Block(p, c) <==> Block(q, k) <= u || (q <= p && Up(k, p - q) == c)
  {
    if q <= p {
      if Up(k, p - q) == c {
        Inside(q, k, p - q);
      } else {
        Apart(q, k, p - q, c);
      }
    } else if Up(c, q - p) == k {
      Halves(p, c);
      UpUp(c, 1, q - p - 1);
      Inside(p + 1, c / 2, q - p - 1);
      assert Block(p, Sibling(c)) <= Block(q, k);
    } else {
      Apart(p, c, q - p, k);
    }
  }

  /** Adding a block whose sibling is not whole makes that block free and changes nothing else. */
  lemma AddBlock(u: set<nat>, top: nat, p: nat, c: nat, q: nat, k: nat)
    requires p <= top && Block(p, c) !! u
    requires p < top ==> !(Block(p, Sibling(c)) <= u)
    ensures IsFree(u + Block(p, c), top, q, k) <==> IsFree(u, top, q, k) || (q == p && k == c)
  {
    NonEmpty(p, c);
    if q <= top {
      WholeAfter(u, p, c, q, k);
      if q < top {
        WholeAfter(u, p, c, q + 1, k / 2);
        Halves(q, k);
      }
      if q < p {
        UpUp(k, 1, p - q - 1);
        assert Up(k, 1) == k / 2;
        NonEmpty(q, k);
        if Up(k, p - q) == c {
          Inside(q, k, p - q);
        }
      }
    }
  }

  /** Taking a free block leaves the others as they were. */
  lemma TakeBlock(u: set<nat>, top: nat, p: nat, c: nat, q: nat, k: nat)
    requires IsFree(u, top, p, c)
    ensures IsFree(u - Block(p, c), top, q, k) <==> IsFree(u, top, q, k) && !(q == p && k == c)
  {
    var v := u - Block(p, c);
    assert v + Block(p, c) == u;
    Halves(p, c);
    AddBlock(v, top, p, c, q, k);
    NonEmpty(p, c);
  }

  /** Every whole block lies in a free one. */
  lemma {:induction false} Climb(u: set<nat>, top: nat, q: nat, k: nat) returns (o: nat)
    requires q <= top && Block(q, k) <= u
    ensures q <= o <= top && IsFree(u, top, o, Up(k, o - q))
    decreases top - q
  {
    if IsFree(u, top, q, k) {
      o := q;
    } else {
      o := Climb(u, top, q + 1, k / 2);
      UpUp(k, 1, o - q - 1);
      assert Up(k, 1) == k / 2;
    }
  }

  lemma ParentInside(o: nat, k: nat, p: nat)
    requires o < p
    ensures Block(o + 1, k / 2) <= Block(p, Up(k, p - o))
  {
    UpUp(k, 1, p - o - 1);
    assert Up(k, 1) == k / 2;
    Inside(o + 1, k / 2, p - o - 1);
  }

  /** No unit is in two free blocks. */
  lemma OneFree(u: set<nat>, top: nat, o: nat, p: nat, i: nat)
    requires o <= p && IsFree(u, top, o, Up(i, o)) && IsFree(u, top, p, Up(i, p))
    ensures o == p
  {
    if o < p {
      UpUp(i, o, p - o);
      ParentInside(o, Up(i, o), p);
    }
  }

  /** The free blocks split the free units: each unit is in exactly one of them. */
  lemma FreeBlocksCover(u: set<nat>, top: nat, i: nat)
    requires i in u
    ensures exists o: nat :: o <= top && IsFree(u, top, o, Up(i, o))
    ensures forall o: nat, p: nat :: IsFree(u, top, o, Up(i, o)) && IsFree(u, top, p, Up(i, p)) ==> o == p
  {
    var _ := Climb(u, top, 0, i);
    forall o: nat, p: nat | o <= p && IsFree(u, top, o, Up(i, o)) && IsFree(u, top, p, Up(i, p)) ensures o == p {
      OneFree(u, top, o, p, i);
    }
  }

  /** The free blocks are fixed by which units are free, and different unit sets have different ones. */
  lemma FreeBlocksDetermine(u: set<nat>, v: set<nat>, top: nat)
    requires forall o: nat, k: nat :: IsFree(u, top, o, k) <==> IsFree(v, top, o, k)
    ensures u == v
  {
    forall i: nat | i in u ensures i in v {
      var o := Climb(u, top, 0, i);
      assert IsFree(v, top, o, Up(i, o));
      InBlock(o, Up(i, o), i);
    }
    forall i: nat | i in v ensures i in u {
      var o := Climb(v, top, 0, i);
      assert IsFree(u, top, o, Up(i, o));
      InBlock(o, Up(i, o), i);
    }
  }

  /** When everything is free there is one free block, the whole. */
  lemma AllFree(top: nat, o: nat, k: nat)
    ensures IsFree(Block(top, 0), top, o, k) <==> o == top && k == 0
  {
    if o <= top {
      NonEmpty(o, k);
      if Up(k, top - o) != 0 {
        Apart(o, k, top - o, 0);
      } else if o < top {
        ParentInside(o, k, top);
      }
    }
  }

  // ---------------------------------------------------------------- sizes

  lemma {:induction false} BlockSize(o: nat, k: nat)
    ensures |Block(o, k)| == Pow2(o)
    decreases o
  {
    if o > 0 {
      BlockSize(o - 1, 2 * k);
      BlockSize(o - 1, 2 * k + 1);
      Apart(o - 1, 2 * k, 0, 2 * k + 1);
    }
  }

  /** Blocks of order o inside the whole are numbered below 2^(top - o). */
  lemma Numbered(top: nat, o: nat, k: nat)
    requires o <= top
    ensures Block(o, k) <= Block(top, 0) <==> k < Pow2(top - o)
  {
    UpZero(k, top - o);
    NonEmpty(o, k);
    if Up(k, top - o) == 0 {
      Inside(o, k, top - o);
    } else {
      Apart(o, k, top - o, 0);
    }
  }
}
