/** The intrusive circular doubly-linked lists of ccan/list: pointer surgery, splicing,
    deletion-safe iteration and the consistency check of list_check_node.

    A list is described by its cycle `c`: `c[0]` is the node embedded in the list head and
    `c[1..]` are the entries, front to back. A node that `list_node_init` linked to itself
    is the cycle of that node alone, exactly as an empty list is. */
module LinkedLists {

  /** `struct list_node`; a link may be NULL because an entry need not be initialised. */
  class Node {
    var next: Node?
    var prev: Node?
  }

  ghost predicate Distinct(c: seq<Node>) {
    forall i, j :: 0 <= i < j < |c| ==> c[i] != c[j]
  }

  /** Neighbours in s are linked both ways. */
  ghost predicate Chain(s: seq<Node>)
    reads s
  {
    && (forall i {:trigger s[i].next} :: 0 <= i < |s| - 1 ==> s[i].next == s[i + 1])
    && (forall i {:trigger s[i].prev} :: 0 < i < |s| ==> s[i].prev == s[i - 1])
  }

  /** The nodes of c form one circular list with head c[0]. */
  ghost predicate Ring(c: seq<Node>)
    reads c
  {
    |c| > 0 && Distinct(c) && Chain(c) && c[|c| - 1].next == c[0] && c[0].prev == c[|c| - 1]
  }

  // ---------------------------------------------------------------- one list

  /** The position of p in c. */
  ghost function Index(c: seq<Node>, p: Node): (k: nat)
    requires p in c
    ensures k < |c| && c[k] == p
  {
    var k :| 0 <= k < |c| && c[k] == p;
    k
  }

  ghost function InsertAfter(c: seq<Node>, p: Node, n: Node): seq<Node> {
    if p in c then c[..Index(c, p) + 1] + [n] + c[Index(c, p) + 1..] else c
  }

  /** Before the head is the end of the list. */
  ghost function InsertBefore(c: seq<Node>, p: Node, n: Node): seq<Node> {
    if p !in c then c
    else if Index(c, p) == 0 then c + [n]
    else c[..Index(c, p)] + [n] + c[Index(c, p)..]
  }

  /** Only entries are removed, never the head. */
  ghost function Remove(c: seq<Node>, n: Node): seq<Node> {
    if n in c && Index(c, n) > 0 then c[..Index(c, n)] + c[Index(c, n) + 1..] else c
  }

  ghost function Replace(c: seq<Node>, o: Node, n: Node): seq<Node> {
    if o in c then c[Index(c, o) := n] else c
  }

  /** What the four do to a list that has p in it once: the place is that of p and nothing else moves. */
  lemma AtPlace(a: seq<Node>, p: Node, b: seq<Node>, n: Node)
    requires Distinct(a + [p] + b)
    ensures
      var c := a + [p] + b;
      && InsertAfter(c, p, n) == a + [p, n] + b
      && InsertBefore(c, p, n) == (if a == [] then [p] + b + [n] else a + [n, p] + b)
      && Remove(c, p) == (if a == [] then c else a + b)
      && Replace(c, p, n) == a + [n] + b
  {
    var c, k := a + [p] + b, |a|;
    assert c[k] == p;
    assert Index(c, p) == k;
    assert c[..k] == a && c[k..] == [p] + b && c[..k + 1] == a + [p] && c[k + 1..] == b;
    assert a == [] ==> c == [p] + b;
  }

  /** The end of s is linked to the start of t. */
  ghost predicate Sewn(s: seq<Node>, t: seq<Node>)
    reads s, t
  {
    s != [] && t != [] ==> s[|s| - 1].next == t[0] && t[0].prev == s[|s| - 1]
  }

  /** Two chains sewn together end to end, and back to the start, are a ring. */
  lemma RingJoin(s: seq<Node>, t: seq<Node>)
    requires s != [] && Chain(s) && Chain(t) && Distinct(s + t)
    requires Sewn(s, t) && Sewn(if t == [] then s else t, s)
    ensures Ring(s + t)
  {
    var u := s + t;
    forall i | 0 <= i < |u|
      ensures u[i] == if i < |s| then s[i] else t[i - |s|]
      ensures i < |u| - 1 ==> u[i].next == u[i + 1]
      ensures 0 < i ==> u[i].prev == u[i - 1]
    {
    }
  }

  /** A new node sewn in between two chains that meet in a circle gives a ring. */
  lemma RingInsert(s: seq<Node>, n: Node, t: seq<Node>)
    requires s != [] && Chain(s) && Chain(t) && Distinct(s + t) && n !in s + t
    requires Sewn(s, [n]) && Sewn([n], t) && Sewn([n] + t, s)
    ensures Ring(s + [n] + t)
  {
    var m := [n] + t;
    assert forall i :: 0 < i < |m| ==> m[i] == t[i - 1];
    var u := s + m;
    forall i, j | 0 <= i < j < |u| ensures u[i] != u[j] {
      var v := s + t;
      assert i != |s| ==> u[i] == v[if i < |s| then i else i - 1];
      assert j != |s| ==> u[j] == v[if j < |s| then j else j - 1];
    }
    RingJoin(s, m);
    assert s + m == s + [n] + t;
  }

  lemma Without(c: seq<Node>, k: nat)
    requires Distinct(c) && k < |c|
    ensures Distinct(c[..k] + c[k + 1..]) && c[k] !in c[..k] + c[k + 1..]
    ensures forall x :: x in c[..k] + c[k + 1..] ==> x in c
  {
    var e := c[..k] + c[k + 1..];
    assert forall i :: 0 <= i < |e| ==> e[i] == c[if i < k then i else i + 1];
  }

  /** `list_head_init` and `list_node_init`. */
  method Init(n: Node)
    modifies n
    ensures Ring([n])
  {
    n.next, n.prev := n, n;
  }

  /** The four stores of `list_add_after_`. */
  method LinkAfter(p: Node, n: Node)
    requires p.next != null && n != p && n != p.next
    modifies p`next, p.next`prev, n
    ensures p.next == n && n.prev == p && n.next == old(p.next) && n.next.prev == n
  {
    n.next := p.next;
    n.prev := p;
    p.next.prev := n;
    p.next := n;
  }

  method AddAfter(p: Node, n: Node, ghost c: seq<Node>)
    requires Ring(c) && p in c && n !in c
    modifies p`next, p.next`prev, n
    ensures Ring(InsertAfter(c, p, n))
  {
    ghost var k := Index(c, p);
    assert c[k].next == if k + 1 < |c| then c[k + 1] else c[0];
    LinkAfter(p, n);
    forall i | 0 <= i < |c| - 1 && i != k
      ensures c[i].next == c[i + 1] && c[i + 1].prev == c[i]
    {
      assert old(c[i].next) == c[i + 1];
    }
    assert c[..k + 1] + c[k + 1..] == c;
    RingInsert(c[..k + 1], n, c[k + 1..]);
  }

  method Add(h: Node, n: Node, ghost c: seq<Node>)
    requires Ring(c) && h == c[0] && n !in c
    modifies h`next, h.next`prev, n
    ensures Ring([h, n] + c[1..])
  {
    AddAfter(h, n, c);
    assert InsertAfter(c, h, n) == [h, n] + c[1..];
  }

  /** The four stores of `list_add_before_`. */
  method LinkBefore(p: Node, n: Node)
    requires p.prev != null && n != p && n != p.prev
    modifies p`prev, p.prev`next, n
    ensures p.prev == n && n.next == p && n.prev == old(p.prev) && n.prev.next == n
  {
    n.next := p;
    n.prev := p.prev;
    p.prev.next := n;
    p.prev := n;
  }

  method AddBefore(p: Node, n: Node, ghost c: seq<Node>)
    requires Ring(c) && p in c && n !in c
    modifies p`prev, p.prev`next, n
    ensures Ring(InsertBefore(c, p, n))
  {
    ghost var k := if Index(c, p) == 0 then |c| else Index(c, p);
    assert p.prev == c[k - 1] by {
      if k < |c| { assert c[k - 1].next == c[k]; }
    }
    LinkBefore(p, n);
    forall i | 0 <= i < |c| - 1 && i != k - 1
      ensures c[i].next == c[i + 1] && c[i + 1].prev == c[i]
    {
      assert old(c[i].next) == c[i + 1];
    }
    assert c[..k] + c[k..] == c;
    RingInsert(c[..k], n, c[k..]);
    assert InsertBefore(c, p, n) == c[..k] + [n] + c[k..];
  }

  method AddTail(h: Node, n: Node, ghost c: seq<Node>)
    requires Ring(c) && h == c[0] && n !in c
    modifies h`prev, h.prev`next, n
    ensures Ring(c + [n])
  {
    AddBefore(h, n, c);
    assert InsertBefore(c, h, n) == c + [n];
  }

  method Empty(h: Node, ghost c: seq<Node>) returns (r: bool)
    requires Ring(c) && h == c[0]
    ensures r <==> c == [h]
  {
    r := h.next == h;
    if |c| > 1 {
      assert c[0].next == c[1];
    }
  }

  /** The two stores of `list_del_`. */
  method Unlink(n: Node)
    requires n.next != null && n.prev != null
    modifies n.next`prev, n.prev`next
    ensures old(n.next).prev == old(n.prev) && old(n.prev).next == old(n.next)
  {
    n.next.prev := n.prev;
    n.prev.next := n.next;
  }

  /** The entry may belong to any list, or be linked to itself. */
  method Del(n: Node, ghost c: seq<Node>)
    requires Ring(c) && n in c && (n != c[0] || c == [n])
    modifies n.next`prev, n.prev`next
    ensures Ring(Remove(c, n))
  {
    ghost var k := Index(c, n);
    assert c[k].next == if k + 1 < |c| then c[k + 1] else c[0];
    if k > 0 {
      assert c[k - 1].next == c[k];
    }
    Unlink(n);
    if k > 0 {
      forall i | 0 <= i < |c| - 1 && i != k && i != k - 1
        ensures c[i].next == c[i + 1] && c[i + 1].prev == c[i]
      {
        assert old(c[i].next) == c[i + 1];
      }
      Without(c, k);
      RingJoin(c[..k], c[k + 1..]);
    }
  }

  lemma Removed(c: seq<Node>, n: Node)
    requires Distinct(c) && n in c && n != c[0]
    ensures n !in Remove(c, n)
  {
    Without(c, Index(c, n));
  }

  lemma RemovedAt(c: seq<Node>, k: nat)
    requires Distinct(c) && 0 < k < |c|
    ensures Remove(c, c[k]) == c[..k] + c[k + 1..]
  {
  }

  method DelInit(n: Node, ghost c: seq<Node>)
    requires Ring(c) && n in c && (n != c[0] || c == [n])
    modifies n, n.next`prev, n.prev`next
    ensures Ring(Remove(c, n)) && Ring([n])
  {
    Del(n, c);
    ghost var e := Remove(c, n);
    if n != c[0] {
      Removed(c, n);
    }
    Init(n);
    if n != c[0] {
      assert forall x :: x in e ==> x != n;
    } else {
      assert e == [n];
    }
  }

  /** The stores of `list_swap_`. */
  method LinkInstead(o: Node, n: Node)
    requires o.next != null && o.prev != null && n != o && n != o.next && n != o.prev
    modifies n, o.next`prev, o.prev`next
    ensures n.next == old(o.next) && n.prev == old(o.prev) && n.next.prev == n && n.prev.next == n
  {
    n.next, n.prev := o.next, o.prev;
    n.next.prev := n;
    n.prev.next := n;
  }

  /** The links of the ring c with n standing in for entry k. */
  ghost predicate StandsIn(c: seq<Node>, k: nat, n: Node)
    requires 0 < k < |c|
    reads c, n
  {
    && (forall i :: 0 <= i < |c| - 1 && i != k && i != k - 1 ==> c[i].next == c[i + 1] && c[i + 1].prev == c[i])
    && c[k - 1].next == n && n.prev == c[k - 1]
    && (if k + 1 < |c| then
          n.next == c[k + 1] && c[k + 1].prev == n && c[|c| - 1].next == c[0] && c[0].prev == c[|c| - 1]
        else n.next == c[0] && c[0].prev == n)
  }

  lemma StandInRing(c: seq<Node>, k: nat, n: Node)
    requires Distinct(c) && 0 < k < |c| && n !in c && StandsIn(c, k, n)
    ensures Ring(c[..k] + [n] + c[k + 1..])
  {
    Without(c, k);
    var s, t := c[..k], c[k + 1..];
    assert Chain(s);
    assert Chain(t);
    assert Sewn(s, [n]) && Sewn([n], t) && Sewn([n] + t, s);
    RingInsert(s, n, t);
  }

  lemma ReplacedAt(c: seq<Node>, k: nat, n: Node)
    requires Distinct(c) && k < |c|
    ensures Replace(c, c[k], n) == c[..k] + [n] + c[k + 1..]
  {
  }

  method Swap(o: Node, n: Node, ghost c: seq<Node>)
    requires Ring(c) && o in c && o != c[0] && n !in c
    modifies n, o.next`prev, o.prev`next
    ensures Ring(Replace(c, o, n))
  {
    ghost var k := Index(c, o);
    assert c[k].next == if k + 1 < |c| then c[k + 1] else c[0];
    assert c[k - 1].next == c[k];
    LinkInstead(o, n);
    forall i | 0 <= i < |c| - 1 && i != k && i != k - 1
      ensures c[i].next == c[i + 1] && c[i + 1].prev == c[i]
    {
      assert old(c[i].next) == c[i + 1];
    }
    StandInRing(c, k, n);
    ReplacedAt(c, k, n);
  }

  /** `list_pop`: NULL when the list is empty. */
  method Pop(h: Node, ghost c: seq<Node>) returns (r: Node?)
    requires Ring(c) && h == c[0]
    modifies h, h.next, c[if |c| > 2 then 2 else 0]
    ensures r == if |c| > 1 then c[1] else null
    ensures Ring(if |c| > 1 then [h] + c[2..] else c)
  {
    var empty := Empty(h, c);
    if empty {
      return null;
    }
    assert c[0].next == c[1];
    r := h.next;
    assert c[1].next == c[if |c| > 2 then 2 else 0];
    Del(r, c);
    assert Remove(c, r) == [h] + c[2..];
  }

  lemma RingRotate(s: seq<Node>, t: seq<Node>)
    requires t != [] && Ring(s + t)
    ensures Ring(t + s)
  {
    var u := s + t;
    assert u[..|s|] == s && u[|s|..] == t;
    assert Chain(s) && Chain(t);
    var v := t + s;
    assert forall i :: 0 <= i < |v| ==> v[i] == u[if i < |t| then i + |s| else i - |t|];
    RingJoin(t, s);
  }

  method Join(x: Node, y: Node)
    modifies x`next, y`prev
    ensures x.next == y && y.prev == x
  {
    x.next := y;
    y.prev := x;
  }

  /** Two disjoint cycles a and b, cut open before their heads, become the one cycle a + b. */
  method SewRings(aHead: Node, aTail: Node, bHead: Node, bTail: Node, ghost a: seq<Node>, ghost b: seq<Node>)
    requires Ring(a) && Ring(b) && (forall x :: x in a ==> x !in b)
    requires aHead == a[0] && aTail == a[|a| - 1] && bHead == b[0] && bTail == b[|b| - 1]
    modifies aTail`next, aHead`prev, bTail`next, bHead`prev
    ensures Ring(a + b)
  {
    Join(bTail, aHead);
    Join(aTail, bHead);
    forall i | 0 <= i < |a| ensures a[i] !in b {
    }
    assert Chain(a);
    assert Chain(b);
    RingJoin(a, b);
  }

  /** `list_append_list`: sew the other cycle in, head and all, then take its head out. */
  method AppendList(to: Node, from: Node, ghost c: seq<Node>, ghost e: seq<Node>)
    requires Ring(c) && Ring(e) && to == c[0] && from == e[0]
    requires forall x :: x in c ==> x !in e
    modifies to, to.prev, from, from.prev, from.next
    ensures Ring(c + e[1..]) && Ring([from])
  {
    SewRings(to, to.prev, from, from.prev, c, e);
    ghost var all := c + e;
    assert all[|c|] == from;
    DelInit(from, all);
    RemovedAt(all, |c|);
    assert all[..|c|] + all[|c| + 1..] == c + e[1..];
  }

  /** Sew the cycle e in right after the head of c. */
  method SewAfterHead(to: Node, from: Node, ghost c: seq<Node>, ghost e: seq<Node>)
    requires Ring(c) && Ring(e) && to == c[0] && from == e[0]
    requires forall x :: x in c ==> x !in e
    modifies to, to.next, from, from.prev
    ensures Ring([to] + (e + c[1..]))
  {
    ghost var r := c[1..] + [to];
    assert [to] + c[1..] == c;
    if |c| > 1 {
      RingRotate([to], c[1..]);
    }
    SewRings(from, from.prev, to.next, to, e, r);
    assert e + r == (e + c[1..]) + [to];
    RingRotate(e + c[1..], [to]);
  }

  /** `list_prepend_list`: the same cut made after the target's head instead of before it. */
  method PrependList(to: Node, from: Node, ghost c: seq<Node>, ghost e: seq<Node>)
    requires Ring(c) && Ring(e) && to == c[0] && from == e[0]
    requires forall x :: x in c ==> x !in e
    modifies to, to.next, from, from.prev, from.next
    ensures Ring([to] + e[1..] + c[1..]) && Ring([from])
  {
    ghost var all := [to] + (e + c[1..]);
    assert |c| > 1 ==> to.next == c[1] by { assert |c| > 1 ==> c[0].next == c[1]; }
    assert |e| > 1 ==> from.next == e[1] by { assert |e| > 1 ==> e[0].next == e[1]; }
    SewAfterHead(to, from, c, e);
    assert all[1] == from && all[1].next == all[if |all| > 2 then 2 else 0] && all[1].prev == to;
    DelInit(from, all);
    RemovedAt(all, 1);
    assert all[..1] + all[2..] == [to] + e[1..] + c[1..];
  }

  // ---------------------------------------------------------------- checking consistency

  /** What `list_check_node` does: return the node, return NULL, abort with a message, or
      run into a NULL link. */
  datatype Verdict = Consistent | Inconsistent | Aborted | NullLink

  /** Links lead nowhere but into the heap (or to NULL); nothing else is assumed of it. */
  ghost predicate Closed(heap: set<Node>)
    reads heap
  {
    forall x :: x in heap ==> (x.next == null || x.next in heap) && (x.prev == null || x.prev in heap)
  }

  /** Walks from the same node along `next` agree as far as both go. */
  lemma {:induction false} WalksAgree(w: seq<Node>, u: seq<Node>, k: nat)
    requires Chain(w) && Chain(u) && 0 < k <= |w| && k <= |u| && w[0] == u[0]
    ensures w[..k] == u[..k]
  {
    if k > 1 {
      WalksAgree(w, u, k - 1);
      assert w[..k - 1][k - 2] == u[..k - 1][k - 2];
      assert w[k - 2].next == w[k - 1] && u[k - 2].next == u[k - 1];
    }
  }

  /** A walk that has not come back to its start stays inside any ring with that head. */
  lemma WalkInRing(w: seq<Node>, c: seq<Node>)
    requires w != [] && Chain(w) && Distinct(w) && Ring(c) && c[0] == w[0]
    ensures |w| <= |c| && w == c[..|w|]
  {
    if |w| <= |c| {
      WalksAgree(w, c, |w|);
    } else {
      WalksAgree(w, c, |c|);
    }
  }

  /** Two rings with the same head are the same list. */
  lemma {:induction false} RingUnique(c: seq<Node>, e: seq<Node>)
    requires Ring(c) && Ring(e) && c[0] == e[0]
    ensures c == e
  {
    WalkInRing(c, e);
    WalkInRing(e, c);
  }

  /** Some walk over linked neighbours from node ends at a NULL link. */
  ghost predicate EndsInNull(node: Node, w: seq<Node>)
    reads w
  {
    w != [] && w[0] == node && Chain(w) && Distinct(w) && w[|w| - 1].next == null
  }

  /** Whatever list_check_node rejects heads no ring: the walk w stopped at a link that is
      missing, or that is not inverted. */
  lemma Rejected(w: seq<Node>, c: seq<Node>)
    requires w != [] && Chain(w) && Distinct(w)
    requires
      var n := w[|w| - 1].next;
      n == null || n.prev != w[|w| - 1]
    ensures !(Ring(c) && c[0] == w[0])
  {
    if Ring(c) && c[0] == w[0] {
      WalkInRing(w, c);
    }
  }

  /** A walk that reached a non-NULL link which is no step of a longer walk never ends in NULL. */
  lemma NoNull(w: seq<Node>, u: seq<Node>)
    requires w != [] && Chain(w) && Distinct(w)
    requires
      var n := w[|w| - 1].next;
      n != null && (n == w[0] || n.prev != w[|w| - 1])
    ensures !EndsInNull(w[0], u)
  {
    if EndsInNull(w[0], u) {
      var k := if |w| < |u| then |w| else |u|;
      WalksAgree(w, u, k);
    }
  }

  /** `list_check_node` on any heap, however corrupt: it always ends, it accepts exactly when
      the node heads a ring, and it meets a NULL exactly when a consistent walk leads there. */
  method CheckNode(node: Node, abort: bool, ghost heap: set<Node>) returns (v: Verdict)
    requires node in heap && Closed(heap)
    ensures v.Consistent? <==> exists c: seq<Node> :: Ring(c) && c[0] == node
    ensures v.NullLink? <==> exists u: seq<Node> :: EndsInNull(node, u)
    ensures v.Inconsistent? ==> !abort
    ensures v.Aborted? ==> abort
  {
    var p: Node, n: Node? := node, node.next;
    ghost var w: seq<Node>, seen := [node], {node};
    while n != node
      invariant w != [] && w[0] == node && w[|w| - 1] == p && n == p.next
      invariant Chain(w) && Distinct(w) && forall x :: x in seen <==> x in w
      invariant seen <= heap
      decreases heap - seen
    {
      if n == null || n.prev != p {
        forall c: seq<Node> ensures !(Ring(c) && c[0] == node) {
          Rejected(w, c);
        }
        if n == null {
          assert EndsInNull(node, w);
          return NullLink;
        }
        forall u: seq<Node> ensures !EndsInNull(node, u) {
          NoNull(w, u);
        }
        return if abort then Aborted else Inconsistent;
      }
      forall i | 0 <= i < |w| ensures w[i] != n {
        assert i > 0 ==> w[i].prev == w[i - 1];
      }
      w, seen := w + [n], seen + {n};
      p, n := n, n.next;
    }
    forall u: seq<Node> ensures !EndsInNull(node, u) {
      NoNull(w, u);
    }
    if node.prev != p {
      forall c: seq<Node> ensures !(Ring(c) && c[0] == node) {
        Rejected(w, c);
      }
      return if abort then Aborted else Inconsistent;
    }
    assert Ring(w);
    return Consistent;
  }

  /** An entry that was never initialised: the walk runs into its NULL link at once. */
  method CheckUnlinked() returns (v: Verdict)
    ensures v.NullLink?
  {
    var n := new Node;
    n.next, n.prev := null, null;
    v := CheckNode(n, false, {n});
    assert EndsInNull(n, [n]);
  }

  // ---------------------------------------------------------------- iteration

  function Reverse(s: seq<Node>): (r: seq<Node>)
    ensures |r| == |s|
    ensures forall i :: 0 <= i < |s| ==> r[i] == s[|s| - 1 - i]
  {
    if s == [] then [] else Reverse(s[1..]) + [s[0]]
  }

  /** The entries of s that survive when those in `doomed` are deleted, in order. */
  function Keep(s: seq<Node>, doomed: set<Node>): (r: seq<Node>)
    ensures forall x :: x in r ==> x in s && x !in doomed
    ensures |r| <= |s|
  {
    if s == [] then [] else Keep(s[..|s| - 1], doomed) + if s[|s| - 1] in doomed then [] else [s[|s| - 1]]
  }

  /** `list_for_each_rev`: the backward contents are the reverse of the forward contents. */
  method ForEachRev(h: Node, ghost c: seq<Node>) returns (visited: seq<Node>)
    requires Ring(c) && h == c[0]
    ensures visited == Reverse(c[1..])
  {
    visited := [];
    var i := h.prev;
    while i != h
      invariant |visited| < |c| && i == c[|c| - 1 - |visited|]
      invariant forall j :: 0 <= j < |visited| ==> visited[j] == c[|c| - 1 - j]
      decreases |c| - |visited|
    {
      visited := visited + [i];
      i := i.prev;
    }
  }

  /** One deletion in a loop body, by `list_del_init` or by `list_del`. */
  datatype Doom = Doom(entry: Node, reset: bool)

  function Entries(dooms: seq<Doom>): set<Node> {
    if dooms == [] then {} else Entries(dooms[..|dooms| - 1]) + {dooms[|dooms| - 1].entry}
  }

  /** The body deletes entries it has visited, the current one included, and none twice. */
  predicate LegalBody(dooms: seq<Doom>, visited: seq<Node>, gone: set<Node>) {
    dooms == [] ||
    var front, x := dooms[..|dooms| - 1], dooms[|dooms| - 1].entry;
    LegalBody(front, visited, gone) && x in visited && x !in gone + Entries(front)
  }

  /** What the first k bodies of a loop delete. */
  function Gone(plan: seq<seq<Doom>>, k: nat): set<Node>
    requires k <= |plan|
  {
    if k == 0 then {} else Gone(plan, k - 1) + Entries(plan[k - 1])
  }

  predicate LegalPlan(plan: seq<seq<Doom>>, c: seq<Node>)
    requires c != []
  {
    |plan| == |c| - 1 && forall k :: 0 <= k < |plan| ==> LegalBody(plan[k], c[1..][..k + 1], Gone(plan, k))
  }

  lemma {:induction false} EntriesAre(dooms: seq<Doom>, x: Node)
    ensures x in Entries(dooms) <==> exists i :: 0 <= i < |dooms| && dooms[i].entry == x
  {
    if dooms != [] {
      var n := |dooms| - 1;
      EntriesAre(dooms[..n], x);
      if x in Entries(dooms[..n]) {
        var i :| 0 <= i < n && dooms[..n][i].entry == x;
        assert dooms[i].entry == x;
      }
      if i :| 0 <= i < n && dooms[i].entry == x {
        assert dooms[..n][i].entry == x;
      }
    }
  }

  /** Gone is what some body deletes, ... */
  lemma {:induction false} GoneIs(plan: seq<seq<Doom>>, k: nat, x: Node)
    requires k <= |plan|
    ensures x in Gone(plan, k) <==> exists i :: 0 <= i < k && Deletes(plan[i], x)
  {
    if k > 0 {
      GoneIs(plan, k - 1, x);
      EntriesAre(plan[k - 1], x);
    }
  }

  ghost predicate Deletes(dooms: seq<Doom>, x: Node) {
    exists i :: 0 <= i < |dooms| && dooms[i].entry == x
  }

  /** ... and kept are the others. */
  lemma {:induction false} KeepHas(s: seq<Node>, doomed: set<Node>, x: Node)
    ensures x in Keep(s, doomed) <==> x in s && x !in doomed
  {
    if s != [] {
      KeepHas(s[..|s| - 1], doomed, x);
      assert s == s[..|s| - 1] + [s[|s| - 1]];
    }
  }

  lemma {:induction false} KeepAll(s: seq<Node>)
    ensures Keep(s, {}) == s
  {
    if s != [] {
      KeepAll(s[..|s| - 1]);
    }
  }

  lemma {:induction false} KeepOther(s: seq<Node>, gone: set<Node>, x: Node)
    requires x !in s
    ensures Keep(s, gone + {x}) == Keep(s, gone)
  {
    if s != [] {
      KeepOther(s[..|s| - 1], gone, x);
    }
  }

  /** Deleting one more entry takes exactly that one out. */
  lemma {:induction false} KeepOneLess(s: seq<Node>, gone: set<Node>, x: Node) returns (a: seq<Node>, b: seq<Node>)
    requires Distinct(s) && x in s && x !in gone
    ensures Keep(s, gone) == a + [x] + b && Keep(s, gone + {x}) == a + b
  {
    var front, y := s[..|s| - 1], s[|s| - 1];
    if y == x {
      KeepOther(front, gone, x);
      a, b := Keep(front, gone), [];
    } else {
      a, b := KeepOneLess(front, gone, x);
      b := if y in gone then b else b + [y];
    }
  }

  /** The cycle left once the first k entries of c have been visited. */
  function Swept(c: seq<Node>, k: nat, doomed: set<Node>): seq<Node>
    requires k < |c|
  {
    [c[0]] + Keep(c[1..][..k], doomed) + c[1..][k..]
  }

  /** Entry k of c, or the head when there is no such entry. */
  function EntryAt(c: seq<Node>, k: nat): Node
    requires k < |c|
  {
    if k + 1 < |c| then c[k + 1] else c[0]
  }

  /** Where `next` leads from the first entry not yet visited. */
  lemma NextUnvisited(c: seq<Node>, k: nat, doomed: set<Node>)
    requires k < |c| && Distinct(c) && Ring(Swept(c, k, doomed))
    ensures EntryAt(c, k).next != null
    ensures k + 1 < |c| ==> EntryAt(c, k).next == EntryAt(c, k + 1)
  {
    var s, r := [c[0]] + Keep(c[1..][..k], doomed), Swept(c, k, doomed);
    assert r == s + c[1..][k..];
    assert r[0].next != null;
    if k + 1 < |c| {
      assert r[|s|] == c[k + 1];
      assert k + 2 < |c| ==> r[|s| + 1] == c[k + 2];
    }
  }

  /** The entry being visited is still there. */
  lemma SweptOn(c: seq<Node>, k: nat, gone: set<Node>)
    requires k + 1 < |c| && c[k + 1] !in gone
    ensures Swept(c, k + 1, gone) == Swept(c, k, gone)
  {
    var s := c[1..];
    assert s[..k + 1][..k] == s[..k];
    assert Keep(s[..k + 1], gone) == Keep(s[..k], gone) + [s[k]];
    assert s[k..] == [s[k]] + s[k + 1..];
  }

  lemma OneLess(h: Node, a: seq<Node>, x: Node, b: seq<Node>)
    requires Distinct([h] + (a + [x] + b))
    ensures x in [h] + (a + [x] + b) && x != h && Remove([h] + (a + [x] + b), x) == [h] + (a + b)
  {
    var r := [h] + (a + [x] + b);
    var at := 1 + |a|;
    assert r[at] == x && r[0] == h;
    RemovedAt(r, at);
    assert r[..at] == [h] + a && r[at + 1..] == b;
  }

  lemma Regroup(h: Node, a: seq<Node>, x: Node, b: seq<Node>, t: seq<Node>)
    ensures [h] + (a + [x] + b) + t == [h] + (a + [x] + (b + t))
    ensures [h] + (a + b) + t == [h] + (a + (b + t))
  {
  }

  lemma Unvisited(c: seq<Node>, k: nat)
    requires k + 1 < |c| && Distinct(c)
    ensures c[k + 1] !in c[1..][..k]
  {
  }

  lemma DistinctPart(c: seq<Node>, k: nat)
    requires k < |c| && Distinct(c)
    ensures Distinct(c[1..][..k])
  {
  }

  lemma SweptOneLess(c: seq<Node>, k: nat, gone: set<Node>, x: Node)
    requires k < |c| && Distinct(c) && Distinct(Swept(c, k, gone)) && x in c[1..][..k] && x !in gone
    ensures x in Swept(c, k, gone) && x != c[0] && Remove(Swept(c, k, gone), x) == Swept(c, k, gone + {x})
  {
    DistinctPart(c, k);
    var a, b := KeepOneLess(c[1..][..k], gone, x);
    var t := c[1..][k..];
    Regroup(c[0], a, x, b, t);
    OneLess(c[0], a, x, b + t);
  }

  lemma SweptInside(c: seq<Node>, k: nat, gone: set<Node>)
    requires k < |c|
    ensures forall x :: x in Swept(c, k, gone) ==> x in c
  {
    forall x | x in Swept(c, k, gone) ensures x in c {
      assert x in Keep(c[1..][..k], gone) ==> x in c[1..];
    }
  }

  /** One deletion, by either operation. */
  method DeleteOne(d: Doom, ghost r: seq<Node>, ghost all: seq<Node>)
    requires Ring(r) && d.entry in r && d.entry != r[0] && forall x :: x in r ==> x in all
    modifies all
    ensures Ring(Remove(r, d.entry))
  {
    ghost var k := Index(r, d.entry);
    assert r[k].next in r && r[k].prev in r;
    if d.reset {
      DelInit(d.entry, r);
    } else {
      Del(d.entry, r);
    }
  }

  method DeleteVisited(d: Doom, ghost c: seq<Node>, ghost k: nat, ghost gone: set<Node>)
    requires k < |c| && Distinct(c) && Ring(Swept(c, k, gone)) && d.entry in c[1..][..k] && d.entry !in gone
    modifies c
    ensures Ring(Swept(c, k, gone + {d.entry}))
  {
    SweptOneLess(c, k, gone, d.entry);
    SweptInside(c, k, gone);
    DeleteOne(d, Swept(c, k, gone), c);
  }

  /** A loop body that deletes what it is told to, among the first k entries. */
  method Body(dooms: seq<Doom>, ghost c: seq<Node>, ghost k: nat, ghost gone: set<Node>)
    requires k < |c| && Distinct(c) && Ring(Swept(c, k, gone)) && LegalBody(dooms, c[1..][..k], gone)
    modifies c
    ensures Ring(Swept(c, k, gone + Entries(dooms)))
  {
    if dooms == [] {
      assert gone + Entries(dooms) == gone;
      return;
    }
    var n := |dooms| - 1;
    Body(dooms[..n], c, k, gone);
    DeleteVisited(dooms[n], c, k, gone + Entries(dooms[..n]));
    assert gone + Entries(dooms[..n]) + {dooms[n].entry} == gone + Entries(dooms);
  }

  /** What has been deleted was visited. */
  lemma {:induction false} GoneVisited(plan: seq<seq<Doom>>, c: seq<Node>, k: nat)
    requires c != [] && LegalPlan(plan, c) && k <= |plan|
    ensures forall x :: x in Gone(plan, k) ==> x in c[1..][..k]
  {
    if k > 0 {
      GoneVisited(plan, c, k - 1);
      EntriesVisited(plan[k - 1], c[1..][..k], Gone(plan, k - 1));
      assert forall x :: x in c[1..][..k - 1] ==> x in c[1..][..k];
    }
  }

  lemma {:induction false} EntriesVisited(dooms: seq<Doom>, visited: seq<Node>, gone: set<Node>)
    requires LegalBody(dooms, visited, gone)
    ensures forall x :: x in Entries(dooms) ==> x in visited
  {
    if dooms != [] {
      EntriesVisited(dooms[..|dooms| - 1], visited, gone);
    }
  }

  lemma NotGoneYet(plan: seq<seq<Doom>>, c: seq<Node>, k: nat)
    requires c != [] && LegalPlan(plan, c) && Distinct(c) && k < |plan|
    ensures c[k + 1] !in Gone(plan, k)
  {
    GoneVisited(plan, c, k);
    Unvisited(c, k);
  }

  /** From the first entry not yet visited the links lead on. */
  ghost predicate LeadsOn(c: seq<Node>, k: nat)
    requires k < |c|
    reads c
  {
    EntryAt(c, k).next != null && (k + 1 < |c| ==> EntryAt(c, k).next == EntryAt(c, k + 1))
  }

  method VisitNext(plan: seq<seq<Doom>>, ghost c: seq<Node>, k: nat)
    requires c != [] && Distinct(c) && LegalPlan(plan, c) && k < |plan| && Ring(Swept(c, k, Gone(plan, k)))
    modifies c
    ensures Ring(Swept(c, k + 1, Gone(plan, k + 1))) && LeadsOn(c, k + 1)
  {
    NotGoneYet(plan, c, k);
    SweptOn(c, k, Gone(plan, k));
    Body(plan[k], c, k + 1, Gone(plan, k));
    NextUnvisited(c, k + 1, Gone(plan, k + 1));
  }

  lemma SweptStart(c: seq<Node>)
    requires Ring(c)
    ensures Swept(c, 0, {}) == c && c[0].next == EntryAt(c, 0)
  {
  }

  lemma VisitedMore(c: seq<Node>, k: nat)
    requires k + 1 < |c|
    ensures c[1..][..k] + [c[k + 1]] == c[1..][..k + 1]
  {
  }

  lemma SweptEnd(c: seq<Node>, gone: set<Node>)
    requires c != []
    ensures c[1..][..|c| - 1] == c[1..] && Swept(c, |c| - 1, gone) == [c[0]] + Keep(c[1..], gone)
  {
  }

  /** `list_for_each_safe`: every entry is visited once and in order, whichever visited entries the
      bodies delete and however, and the list left behind holds the others in order. */
  method ForEachSafe(h: Node, plan: seq<seq<Doom>>, ghost c: seq<Node>) returns (visited: seq<Node>)
    requires Ring(c) && h == c[0] && LegalPlan(plan, c)
    modifies c
    ensures visited == c[1..]
    ensures Ring([h] + Keep(c[1..], Gone(plan, |plan|)))
  {
    var k := 0;
    SweptStart(c);
    NextUnvisited(c, 0, {});
    visited := [];
    var i: Node := h.next;
    var nxt: Node := i.next;
    while i != h
      invariant k <= |plan| && i == EntryAt(c, k) && (k < |plan| ==> nxt == EntryAt(c, k + 1))
      invariant visited == c[1..][..k]
      invariant Ring(Swept(c, k, Gone(plan, k)))
      decreases |c| - k
    {
      VisitedMore(c, k);
      visited := visited + [i];
      VisitNext(plan, c, k);
      i, k := nxt, k + 1;
      nxt := i.next;
    }
    SweptEnd(c, Gone(plan, k));
  }
}
