/** Whole runs of list operations over any number of disjoint lists. */
module ListRuns {
  import opened L = LinkedLists

  /** The cycles in play: lists with their heads, and nodes linked to themselves. */
  type Lists = seq<seq<Node>>

  ghost function Nodes(cs: Lists): set<Node> {
    set i, x | 0 <= i < |cs| && x in cs[i] :: x
  }

  ghost predicate Disjoint(cs: Lists) {
    forall i, j, x :: 0 <= i < j < |cs| && x in cs[i] ==> x !in cs[j]
  }

  /** Every cycle is a well-formed ring and no two share a node. */
  ghost predicate World(cs: Lists)
    reads Nodes(cs)
  {
    && Disjoint(cs)
    && (forall i, x :: 0 <= i < |cs| && x in cs[i] ==> x in Nodes(cs))
    && (forall i :: 0 <= i < |cs| ==> Ring(cs[i]))
  }

  datatype Op =
    | Init(n: Node)                    // list_head_init, list_node_init
    | Retire(n: Node)                  // the caller stops using a self-linked node
    | Add(h: Node, n: Node)
    | AddTail(h: Node, n: Node)
    | AddAfter(p: Node, n: Node)
    | AddBefore(p: Node, n: Node)
    | Del(n: Node)
    | DelInit(n: Node)
    | Swap(o: Node, n: Node)
    | Pop(h: Node)
    | Append(to: Node, from: Node)
    | Prepend(to: Node, from: Node)

  /** The cycle that x is on. */
  ghost function On(cs: Lists, x: Node): (l: nat)
    requires x in Nodes(cs)
    ensures l < |cs| && x in cs[l]
  {
    var l :| 0 <= l < |cs| && x in cs[l];
    l
  }

  ghost predicate IsHead(cs: Lists, h: Node) {
    h in Nodes(cs) && cs[On(cs, h)][0] == h
  }

  /** An entry of some list, or a node linked to itself: what `list_del` may be given. */
  ghost predicate Deletable(cs: Lists, n: Node) {
    n in Nodes(cs) && (cs[On(cs, n)][0] != n || cs[On(cs, n)] == [n])
  }

  /** What each operation asks of its caller. */
  ghost predicate Legal(cs: Lists, op: Op) {
    match op
    case Init(n) => n !in Nodes(cs)
    case Retire(n) => n in Nodes(cs) && cs[On(cs, n)] == [n]
    case Add(h, n) => IsHead(cs, h) && n !in Nodes(cs)
    case AddTail(h, n) => IsHead(cs, h) && n !in Nodes(cs)
    case AddAfter(p, n) => p in Nodes(cs) && n !in Nodes(cs)
    case AddBefore(p, n) => p in Nodes(cs) && n !in Nodes(cs)
    case Del(n) => Deletable(cs, n)
    case DelInit(n) => Deletable(cs, n)
    case Swap(o, n) => o in Nodes(cs) && cs[On(cs, o)][0] != o && n !in Nodes(cs)
    case Pop(h) => IsHead(cs, h)
    case Append(to, from) => IsHead(cs, to) && IsHead(cs, from) && to != from
    case Prepend(to, from) => IsHead(cs, to) && IsHead(cs, from) && to != from
  }

  /** The sequence model of each operation. */
  ghost function Step(cs: Lists, op: Op): Lists
    requires Legal(cs, op)
  {
    match op
    case Init(n) => cs + [[n]]
    case Retire(n) => cs[..On(cs, n)] + cs[On(cs, n) + 1..]
    case Add(h, n) => var l := On(cs, h); cs[l := [h, n] + cs[l][1..]]
    case AddTail(h, n) => var l := On(cs, h); cs[l := cs[l] + [n]]
    case AddAfter(p, n) => var l := On(cs, p); cs[l := InsertAfter(cs[l], p, n)]
    case AddBefore(p, n) => var l := On(cs, p); cs[l := InsertBefore(cs[l], p, n)]
    case Del(n) => var l := On(cs, n); cs[l := Remove(cs[l], n)]
    case DelInit(n) =>
      var l := On(cs, n);
      if cs[l] == [n] then cs else cs[l := Remove(cs[l], n)] + [[n]]
    case Swap(o, n) => var l := On(cs, o); cs[l := Replace(cs[l], o, n)]
    case Pop(h) => var l := On(cs, h); if |cs[l]| > 1 then cs[l := [h] + cs[l][2..]] else cs
    case Append(to, from) =>
      var l, m := On(cs, to), On(cs, from);
      cs[l := cs[l] + cs[m][1..]][m := [from]]
    case Prepend(to, from) =>
      var l, m := On(cs, to), On(cs, from);
      cs[l := [to] + cs[m][1..] + cs[l][1..]][m := [from]]
  }

  /** Replacing one cycle by a ring of its own and unused nodes. */
  lemma WorldSet(cs: Lists, l: nat, c: seq<Node>)
    requires Disjoint(cs) && l < |cs| && Ring(c)
    requires forall i :: 0 <= i < |cs| && i != l ==> Ring(cs[i])
    requires forall x :: x in c ==> x in cs[l] || x !in Nodes(cs)
    ensures World(cs[l := c])
  {
    var ds := cs[l := c];
    forall i, x | 0 <= i < |ds| && x in ds[i] ensures x in Nodes(ds) {
    }
    forall i | 0 <= i < |ds| ensures Ring(ds[i]) {
    }
  }

  /** Moving nodes between two cycles. */
  lemma WorldMoved(cs: Lists, l: nat, m: nat, c: seq<Node>, e: seq<Node>)
    requires Disjoint(cs) && l < |cs| && m < |cs| && l != m && Ring(c) && Ring(e)
    requires forall i :: 0 <= i < |cs| && i != l && i != m ==> Ring(cs[i])
    requires forall x :: x in c || x in e ==> x in cs[l] || x in cs[m]
    requires forall x :: x in c ==> x !in e
    ensures World(cs[l := c][m := e])
  {
    var ds := cs[l := c][m := e];
    forall i, x | 0 <= i < |ds| && x in ds[i] ensures x in Nodes(ds) {
    }
    forall i | 0 <= i < |ds| ensures Ring(ds[i]) {
    }
  }

  /** Both links of a node on a ring stay on it. */
  lemma LinksInside(cs: Lists, x: Node)
    requires World(cs) && x in Nodes(cs)
    ensures x.next in cs[On(cs, x)] && x.prev in cs[On(cs, x)]
    ensures x.next in Nodes(cs) && x.prev in Nodes(cs)
  {
    var c := cs[On(cs, x)];
    var k := Index(c, x);
    assert c[k].next in c && c[k].prev in c;
  }

  /** Nodes of the cycles l and m, and unused nodes, are on no other cycle. */
  lemma Elsewhere(cs: Lists, l: nat, m: nat, touched: set<Node?>)
    requires Disjoint(cs) && l < |cs| && m < |cs|
    requires forall x :: x in touched ==> x in cs[l] || x in cs[m] || x !in Nodes(cs)
    ensures forall i, x :: 0 <= i < |cs| && i != l && i != m && x in cs[i] ==> x !in touched
  {
    forall i, x | 0 <= i < |cs| && i != l && i != m && x in cs[i] ensures x !in touched {
      assert x in Nodes(cs);
    }
  }

  method DoAddAfter(p: Node, n: Node, ghost cs: Lists)
    requires World(cs) && Legal(cs, Op.AddAfter(p, n))
    modifies Nodes(cs), n
    ensures World(Step(cs, Op.AddAfter(p, n)))
  {
    ghost var l := On(cs, p);
    LinksInside(cs, p);
    ghost var touched := {p, p.next, n};
    Elsewhere(cs, l, l, touched);
    L.AddAfter(p, n, cs[l]);
    forall i | 0 <= i < |cs| && i != l ensures Ring(cs[i]) {
      assert forall x :: x in cs[i] ==> x !in touched;
    }
    WorldSet(cs, l, InsertAfter(cs[l], p, n));
  }

  method DoAddBefore(p: Node, n: Node, ghost cs: Lists)
    requires World(cs) && Legal(cs, Op.AddBefore(p, n))
    modifies Nodes(cs), n
    ensures World(Step(cs, Op.AddBefore(p, n)))
  {
    ghost var l := On(cs, p);
    LinksInside(cs, p);
    ghost var touched := {p, p.prev, n};
    Elsewhere(cs, l, l, touched);
    L.AddBefore(p, n, cs[l]);
    forall i | 0 <= i < |cs| && i != l ensures Ring(cs[i]) {
      assert forall x :: x in cs[i] ==> x !in touched;
    }
    WorldSet(cs, l, InsertBefore(cs[l], p, n));
  }

  method DoAdd(h: Node, n: Node, ghost cs: Lists)
    requires World(cs) && Legal(cs, Op.Add(h, n))
    modifies Nodes(cs), n
    ensures World(Step(cs, Op.Add(h, n)))
  {
    ghost var l := On(cs, h);
    LinksInside(cs, h);
    ghost var touched := {h, h.next, n};
    Elsewhere(cs, l, l, touched);
    L.Add(h, n, cs[l]);
    forall i | 0 <= i < |cs| && i != l ensures Ring(cs[i]) {
      assert forall x :: x in cs[i] ==> x !in touched;
    }
    WorldSet(cs, l, [h, n] + cs[l][1..]);
  }

  method DoAddTail(h: Node, n: Node, ghost cs: Lists)
    requires World(cs) && Legal(cs, Op.AddTail(h, n))
    modifies Nodes(cs), n
    ensures World(Step(cs, Op.AddTail(h, n)))
  {
    ghost var l := On(cs, h);
    LinksInside(cs, h);
    ghost var touched := {h, h.prev, n};
    Elsewhere(cs, l, l, touched);
    L.AddTail(h, n, cs[l]);
    forall i | 0 <= i < |cs| && i != l ensures Ring(cs[i]) {
      assert forall x :: x in cs[i] ==> x !in touched;
    }
    WorldSet(cs, l, cs[l] + [n]);
  }

  method DoDel(n: Node, ghost cs: Lists)
    requires World(cs) && Legal(cs, Op.Del(n))
    modifies Nodes(cs)
    ensures World(Step(cs, Op.Del(n)))
  {
    ghost var l := On(cs, n);
    LinksInside(cs, n);
    ghost var touched := {n.next, n.prev};
    Elsewhere(cs, l, l, touched);
    L.Del(n, cs[l]);
    forall i | 0 <= i < |cs| && i != l ensures Ring(cs[i]) {
      assert forall x :: x in cs[i] ==> x !in touched;
    }
    WorldSet(cs, l, Remove(cs[l], n));
  }

  /** A node linked to itself, on no cycle so far. */
  lemma WorldMore(cs: Lists, n: Node)
    requires World(cs) && Ring([n]) && forall i :: 0 <= i < |cs| ==> n !in cs[i]
    ensures World(cs + [[n]])
  {
    var ds := cs + [[n]];
    forall i, x | 0 <= i < |ds| && x in ds[i] ensures x in Nodes(ds) {
    }
  }

  method DoDelInit(n: Node, ghost cs: Lists)
    requires World(cs) && Legal(cs, Op.DelInit(n))
    modifies Nodes(cs)
    ensures World(Step(cs, Op.DelInit(n)))
  {
    ghost var l := On(cs, n);
    LinksInside(cs, n);
    ghost var touched := {n, n.next, n.prev};
    Elsewhere(cs, l, l, touched);
    L.DelInit(n, cs[l]);
    forall i | 0 <= i < |cs| && i != l ensures Ring(cs[i]) {
      assert forall x :: x in cs[i] ==> x !in touched;
    }
    if cs[l] == [n] {
      assert Remove(cs[l], n) == [n];
      WorldSet(cs, l, [n]);
      assert cs[l := [n]] == cs;
    } else {
      Removed(cs[l], n);
      WorldSet(cs, l, Remove(cs[l], n));
      WorldMore(cs[l := Remove(cs[l], n)], n);
    }
  }

  method DoSwap(o: Node, n: Node, ghost cs: Lists)
    requires World(cs) && Legal(cs, Op.Swap(o, n))
    modifies Nodes(cs), n
    ensures World(Step(cs, Op.Swap(o, n)))
  {
    ghost var l := On(cs, o);
    LinksInside(cs, o);
    ghost var touched := {n, o.next, o.prev};
    Elsewhere(cs, l, l, touched);
    L.Swap(o, n, cs[l]);
    forall i | 0 <= i < |cs| && i != l ensures Ring(cs[i]) {
      assert forall x :: x in cs[i] ==> x !in touched;
    }
    WorldSet(cs, l, Replace(cs[l], o, n));
  }

  method DoPop(h: Node, ghost cs: Lists)
    requires World(cs) && Legal(cs, Op.Pop(h))
    modifies Nodes(cs)
    ensures World(Step(cs, Op.Pop(h)))
  {
    ghost var l := On(cs, h);
    LinksInside(cs, h);
    ghost var touched := {h, h.next, cs[l][if |cs[l]| > 2 then 2 else 0]};
    Elsewhere(cs, l, l, touched);
    var r := L.Pop(h, cs[l]);
    forall i | 0 <= i < |cs| && i != l ensures Ring(cs[i]) {
      assert forall x :: x in cs[i] ==> x !in touched;
    }
    WorldSet(cs, l, if |cs[l]| > 1 then [h] + cs[l][2..] else cs[l]);
    assert |cs[l]| == 1 ==> cs[l := cs[l]] == cs;
  }

  method DoAppend(to: Node, from: Node, ghost cs: Lists)
    requires World(cs) && Legal(cs, Op.Append(to, from))
    modifies Nodes(cs)
    ensures World(Step(cs, Op.Append(to, from)))
  {
    ghost var l, m := On(cs, to), On(cs, from);
    LinksInside(cs, to);
    LinksInside(cs, from);
    ghost var touched := {to, to.prev, from, from.prev, from.next};
    Elsewhere(cs, l, m, touched);
    AppendList(to, from, cs[l], cs[m]);
    forall i | 0 <= i < |cs| && i != l && i != m ensures Ring(cs[i]) {
      assert forall x :: x in cs[i] ==> x !in touched;
    }
    WorldMoved(cs, l, m, cs[l] + cs[m][1..], [from]);
  }

  method DoPrepend(to: Node, from: Node, ghost cs: Lists)
    requires World(cs) && Legal(cs, Op.Prepend(to, from))
    modifies Nodes(cs)
    ensures World(Step(cs, Op.Prepend(to, from)))
  {
    ghost var l, m := On(cs, to), On(cs, from);
    LinksInside(cs, to);
    LinksInside(cs, from);
    ghost var touched := {to, to.next, from, from.prev, from.next};
    Elsewhere(cs, l, m, touched);
    PrependList(to, from, cs[l], cs[m]);
    forall i | 0 <= i < |cs| && i != l && i != m ensures Ring(cs[i]) {
      assert forall x :: x in cs[i] ==> x !in touched;
    }
    WorldMoved(cs, l, m, [to] + cs[m][1..] + cs[l][1..], [from]);
  }

  method DoInit(n: Node, ghost cs: Lists)
    requires World(cs) && Legal(cs, Op.Init(n))
    modifies n
    ensures World(Step(cs, Op.Init(n)))
  {
    L.Init(n);
  }

  /** The nodes an operation brings in. */
  ghost function Entering(op: Op): set<Node> {
    match op
    case Init(n) => {n}
    case Add(_, n) => {n}
    case AddTail(_, n) => {n}
    case AddAfter(_, n) => {n}
    case AddBefore(_, n) => {n}
    case Swap(_, n) => {n}
    case _ => {}
  }

  /** An operation brings in no node but its own. */
  lemma StepNodes(cs: Lists, op: Op)
    requires (forall i :: 0 <= i < |cs| ==> cs[i] != []) && Legal(cs, op)
    ensures Nodes(Step(cs, op)) <= Nodes(cs) + Entering(op)
  {
    var ds := Step(cs, op);
    assert forall i, x :: 0 <= i < |cs| && x in cs[i] ==> x in Nodes(cs);
    forall i, x | 0 <= i < |ds| && x in ds[i] ensures x in Nodes(cs) + Entering(op) {
      if op.Retire? {
        assert ds[i] == cs[if i < On(cs, op.n) then i else i + 1];
      } else if i < |cs| && ds[i] == cs[i] {
      } else if op.Append? || op.Prepend? {
        assert x in cs[On(cs, op.to)] || x in cs[On(cs, op.from)];
      }
    }
  }

  method Execute(op: Op, ghost cs: Lists)
    requires World(cs) && Legal(cs, op)
    modifies Nodes(cs), Entering(op)
    ensures World(Step(cs, op))
  {
    match op
    case Init(n) => DoInit(n, cs);
    case Retire(n) =>
    case Add(h, n) => DoAdd(h, n, cs);
    case AddTail(h, n) => DoAddTail(h, n, cs);
    case AddAfter(p, n) => DoAddAfter(p, n, cs);
    case AddBefore(p, n) => DoAddBefore(p, n, cs);
    case Del(n) => DoDel(n, cs);
    case DelInit(n) => DoDelInit(n, cs);
    case Swap(o, n) => DoSwap(o, n, cs);
    case Pop(h) => DoPop(h, cs);
    case Append(to, from) => DoAppend(to, from, cs);
    case Prepend(to, from) => DoPrepend(to, from, cs);
  }

  /** Every operation is legal when its turn comes. */
  ghost predicate LegalRun(cs: Lists, ops: seq<Op>)
    decreases |ops|
  {
    ops == [] || (Legal(cs, ops[0]) && LegalRun(Step(cs, ops[0]), ops[1..]))
  }

  ghost function Final(cs: Lists, ops: seq<Op>): Lists
    requires LegalRun(cs, ops)
    decreases |ops|
  {
    if ops == [] then cs else Final(Step(cs, ops[0]), ops[1..])
  }

  ghost function AllEntering(ops: seq<Op>): set<Node> {
    if ops == [] then {} else Entering(ops[0]) + AllEntering(ops[1..])
  }

  /** Whatever the run, from no lists at all: the heap ends as the sequence model says. */
  method Run(ops: seq<Op>, ghost cs: Lists)
    requires World(cs) && LegalRun(cs, ops)
    modifies Nodes(cs), AllEntering(ops)
    ensures World(Final(cs, ops))
    decreases |ops|
  {
    if ops != [] {
      Execute(ops[0], cs);
      StepNodes(cs, ops[0]);
      Run(ops[1..], Step(cs, ops[0]));
    }
  }
}
