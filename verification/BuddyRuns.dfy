/** Whole runs of the buddy allocator: any mix of requests, each of which may fail, and of giving back
    what an earlier request was granted. */
module BuddyRuns {
  import opened BuddyBlocks
  import opened Shifts
  import opened Buddy

  /** Ask for a block of some order, or give back what the request with this number was granted. */
  datatype Act = Get(order: nat) | Put(request: nat)

  /** The block, as its order and number, that each request still holds. */
  type Held = map<nat, (nat, nat)>

  ghost predicate OneEach(held: Held) {
    forall i, j :: i in held && j in held && i != j ==> held[i] != held[j]
  }

  /** The blocks in use are exactly those held. */
  ghost predicate Accounts(held: Held, live: set<(nat, nat)>) {
    && OneEach(held)
    && (forall i :: i in held ==> held[i] in live)
    && (forall b :: b in live ==> exists i :: i in held && held[i] == b)
  }

  lemma Granted(held: Held, live: set<(nat, nat)>, i: nat, b: (nat, nat))
    requires Accounts(held, live) && i !in held && b !in live
    ensures Accounts(held[i := b], live + {b})
  {
    var more := held[i := b];
    forall c | c in live + {b} ensures exists j :: j in more && more[j] == c {
      if c == b {
        assert more[i] == b;
      } else {
        var j :| j in held && held[j] == c;
        assert more[j] == c;
      }
    }
  }

  lemma Returned(held: Held, live: set<(nat, nat)>, i: nat)
    requires Accounts(held, live) && i in held
    ensures Accounts(held - {i}, live - {held[i]})
  {
    var fewer := held - {i};
    forall c | c in live - {held[i]} ensures exists j :: j in fewer && fewer[j] == c {
      var j :| j in held && held[j] == c;
      assert fewer[j] == c;
    }
  }

  /** What an act does to what is held and to the free units. */
  ghost predicate Stepped(act: Act, n: nat, held: Held, next: Held, u: set<nat>, v: set<nat>, top: nat) {
    match act
    case Put(i) =>
      if i in held then next == held - {i} && v == u + Block(held[i].0, held[i].1)
      else next == held && v == u
    case Get(order) =>
      if n in next then
        next == held[n := next[n]] && next[n].0 == order && Block(order, next[n].1) <= u && v == u - Block(order, next[n].1)
      else next == held && v == u && (order > top || forall k: nat :: !(Block(order, k) <= u))
  }

  method GetBlock(mem: BuddyMem, order: nat, n: nat, held: Held) returns (next: Held)
    requires mem.Valid() && Accounts(held, mem.live) && n !in held
    modifies mem, mem.repr
    ensures mem.Valid() && Accounts(next, mem.live)
    ensures Stepped(Get(order), n, held, next, old(mem.units), mem.units, mem.maxOrder)
  {
    next := held;
    var seg := mem.Alloc(order);
    if seg != -1 {
      var b := (order, Up(seg, order));
      Granted(held, old(mem.live), n, b);
      next := held[n := b];
    }
  }

  method PutBlock(mem: BuddyMem, i: nat, held: Held) returns (next: Held)
    requires mem.Valid() && Accounts(held, mem.live) && i in held
    modifies mem, mem.repr
    ensures mem.Valid() && Accounts(next, mem.live)
    ensures next == held - {i} && mem.units == old(mem.units) + Block(held[i].0, held[i].1)
  {
    var b := held[i];
    UpDown(b.1, b.0);
    Returned(held, mem.live, i);
    mem.Free(Down(b.1, b.0), b.0);
    next := held - {i};
  }

  method Step(mem: BuddyMem, act: Act, n: nat, held: Held) returns (next: Held)
    requires mem.Valid() && Accounts(held, mem.live) && n !in held
    modifies mem, mem.repr
    ensures mem.Valid() && Accounts(next, mem.live)
    ensures Stepped(act, n, held, next, old(mem.units), mem.units, mem.maxOrder)
  {
    next := held;
    match act
    case Get(order) => next := GetBlock(mem, order, n, held);
    case Put(i) =>
      if i in held {
        next := PutBlock(mem, i, held);
      }
  }

  // ---------------------------------------------------------------- whole runs

  /** After n acts request i still holds its grant: it got one and nobody gave it back. */
  ghost predicate HeldAt(script: seq<Act>, granted: Held, i: nat, n: nat)
    requires n <= |script|
  {
    i < n && i in granted && forall j :: i < j < n ==> script[j] != Put(i)
  }

  /** Act m, seen from the units that were free before and after it: a request is refused exactly when no
      block of its order is whole, and only a grant that is still held is given back. */
  ghost predicate Explained(script: seq<Act>, granted: Held, free: seq<set<nat>>, top: nat, m: nat)
    requires m < |script| && m + 1 < |free|
  {
    var u, v := free[m], free[m + 1];
    match script[m]
    case Put(i) => v == if HeldAt(script, granted, i, m) then u + Block(granted[i].0, granted[i].1) else u
    case Get(order) =>
      if m in granted then
        granted[m].0 == order && Block(order, granted[m].1) <= u && v == u - Block(order, granted[m].1)
      else v == u && (order > top || forall k: nat :: !(Block(order, k) <= u))
  }

  /** The first n acts: every one explained, and exactly the grants not given back are held. */
  ghost predicate History(script: seq<Act>, n: nat, top: nat, granted: Held, free: seq<set<nat>>, held: Held) {
    && n <= |script| && |free| == n + 1
    && (forall i :: i in granted ==> i < n)
    && (forall m :: 0 <= m < n ==> Explained(script, granted, free, top, m))
    && (forall i :: i in held <==> HeldAt(script, granted, i, n))
    && (forall i :: i in held ==> held[i] == granted[i])
  }

  ghost function Grants(granted: Held, n: nat, next: Held): Held {
    if n in next then granted[n := next[n]] else granted
  }

  lemma HistoryNext(script: seq<Act>, n: nat, top: nat, granted: Held, free: seq<set<nat>>, held: Held, next: Held, v: set<nat>)
    requires n < |script| && History(script, n, top, granted, free, held)
    requires Stepped(script[n], n, held, next, free[n], v, top)
    ensures History(script, n + 1, top, Grants(granted, n, next), free + [v], next)
  {
    var more, all := Grants(granted, n, next), free + [v];
    forall m | 0 <= m < n ensures Explained(script, more, all, top, m) {
      assert Explained(script, granted, free, top, m);
      assert all[m] == free[m] && all[m + 1] == free[m + 1];
    }
    assert all[n] == free[n] && all[n + 1] == v;
    forall i ensures i in next <==> HeldAt(script, more, i, n + 1) {
      HeldNext(script, n, granted, more, held, next, i, free[n], v, top);
    }
  }

  lemma HeldNext(script: seq<Act>, n: nat, granted: Held, more: Held, held: Held, next: Held, i: nat,
                 u: set<nat>, v: set<nat>, top: nat)
    requires n < |script| && Stepped(script[n], n, held, next, u, v, top) && more == Grants(granted, n, next)
    requires (forall i :: i in granted ==> i < n) && (i in held <==> HeldAt(script, granted, i, n)) && n !in held
    ensures i in next <==> HeldAt(script, more, i, n + 1)
  {
  }

  lemma AllReturned(f: seq<set<nat>>, live: set<(nat, nat)>, u: set<nat>)
    requires |f| > 0 && Canonical(f, u) && Split(u, live, |f| - 1) && Accounts(map[], live)
    ensures f == seq(|f|, o => if o == |f| - 1 then {0} else {})
  {
    assert live == {};
    AllGivenBack(f, u);
  }

  /** No two requests hold a common unit, and none holds a free one. */
  ghost predicate HeldApart(held: Held, u: set<nat>) {
    && (forall i :: i in held ==> Block(held[i].0, held[i].1) !! u)
    && (forall i, j :: i in held && j in held && i != j ==> Block(held[i].0, held[i].1) !! Block(held[j].0, held[j].1))
  }

  lemma AccountsApart(held: Held, live: set<(nat, nat)>, u: set<nat>, top: nat)
    requires Accounts(held, live) && Split(u, live, top)
    ensures HeldApart(held, u)
  {
    forall i | i in held ensures Block(held[i].0, held[i].1) !! u {
      assert InUse(u, held[i], top);
    }
  }

  /** Every run, whatever is asked for and given back in whatever order: each refusal and each grant is
      right at its time, what is held and what is free are apart and make up the whole, and once nothing
      is held the free bitmaps are the initial ones. */
  method Run(maxOrder: nat, script: seq<Act>)
    returns (mem: BuddyMem, held: Held, ghost granted: Held, ghost free: seq<set<nat>>)
    ensures mem.Valid() && mem.maxOrder == maxOrder && Accounts(held, mem.live)
    ensures History(script, |script|, maxOrder, granted, free, held)
    ensures free[0] == Block(maxOrder, 0) && free[|script|] == mem.units && HeldApart(held, mem.units)
    ensures held == map[] ==> mem.frees == seq(maxOrder + 1, o => if o == maxOrder then {0} else {})
  {
    mem := new BuddyMem(maxOrder);
    held, granted, free := map[], map[], [mem.units];
    for n := 0 to |script|
      invariant mem.Valid() && mem.maxOrder == maxOrder && Accounts(held, mem.live)
      invariant History(script, n, maxOrder, granted, free, held)
      invariant free[0] == Block(maxOrder, 0) && free[n] == mem.units
      invariant fresh(mem) && fresh(mem.repr)
    {
      ghost var before := held;
      held := Step(mem, script[n], n, held);
      HistoryNext(script, n, maxOrder, granted, free, before, held, mem.units);
      granted, free := Grants(granted, n, held), free + [mem.units];
    }
    AccountsApart(held, mem.live, mem.units, maxOrder);
    if held == map[] {
      AllReturned(mem.frees, mem.live, mem.units);
    }
  }
}
