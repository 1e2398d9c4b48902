/** The library dependency graph of sanitize_static_lib.py: `compute_graph` builds the
    needs/needed sets from the symbols and prunes them, in place, by transitivity. */
module LibraryGraph {

  /** A library is identified by its file name. */
  type Lib = string

  /** `needed`: for each library the libraries that need it. */
  type Graph = map<Lib, set<Lib>>

  ghost predicate WellFormed(g: Graph) {
    forall a, b :: Edge(g, a, b) ==> b in g
  }

  ghost predicate Edge(g: Graph, a: Lib, b: Lib) {
    a in g && b in g[a]
  }

  /** A path of at least one edge. */
  ghost predicate Path(g: Graph, p: seq<Lib>) {
    |p| >= 2 && forall i {:trigger p[i]} :: 0 <= i < |p| - 1 ==> Edge(g, p[i], p[i + 1])
  }

  ghost predicate PathFrom(g: Graph, a: Lib, b: Lib, p: seq<Lib>) {
    Path(g, p) && p[0] == a && p[|p| - 1] == b
  }

  ghost predicate Reach(g: Graph, a: Lib, b: Lib) {
    exists p :: PathFrom(g, a, b, p)
  }

  ghost predicate Acyclic(g: Graph) {
    forall a :: !Reach(g, a, a)
  }

  ghost predicate SameReach(g: Graph, h: Graph) {
    forall a, b :: Reach(g, a, b) <==> Reach(h, a, b)
  }

  // ---------------------------------------------------------------- reachability

  lemma EdgeReach(g: Graph, a: Lib, b: Lib)
    requires Edge(g, a, b)
    ensures Reach(g, a, b)
  {
    assert PathFrom(g, a, b, [a, b]);
  }

  lemma PathJoin(g: Graph, a: Lib, b: Lib, c: Lib, p: seq<Lib>, q: seq<Lib>)
    requires PathFrom(g, a, b, p) && PathFrom(g, b, c, q)
    ensures PathFrom(g, a, c, p + q[1..]) && |p + q[1..]| >= 3
  {
    var r := p + q[1..];
    forall i | 0 <= i < |r| - 1 ensures Edge(g, r[i], r[i + 1]) {
      if i < |p| - 1 {
        assert Edge(g, p[i], p[i + 1]);
      } else {
        var j := i - (|p| - 1);
        assert Edge(g, q[j], q[j + 1]);
      }
    }
  }

  lemma ReachTrans(g: Graph, a: Lib, b: Lib, c: Lib)
    requires Reach(g, a, b) && Reach(g, b, c)
    ensures Reach(g, a, c)
  {
    var p :| PathFrom(g, a, b, p);
    var q :| PathFrom(g, b, c, q);
    PathJoin(g, a, b, c, p, q);
  }

  lemma PathPrefix(g: Graph, p: seq<Lib>, k: nat)
    requires Path(g, p) && 0 < k < |p|
    ensures PathFrom(g, p[0], p[k], p[..k + 1])
  {
    var q := p[..k + 1];
    forall i | 0 <= i < |q| - 1 ensures Edge(g, q[i], q[i + 1]) {
      assert Edge(g, p[i], p[i + 1]);
    }
  }

  lemma PathTail(g: Graph, p: seq<Lib>)
    requires Path(g, p) && |p| > 2
    ensures PathFrom(g, p[1], p[|p| - 1], p[1..]) && Reach(g, p[1], p[|p| - 1])
  {
    var q := p[1..];
    forall i | 0 <= i < |q| - 1 ensures Edge(g, q[i], q[i + 1]) {
      assert Edge(g, p[i + 1], p[i + 2]);
    }
    assert PathFrom(g, p[1], p[|p| - 1], q);
  }

  /** A path is one edge, or an edge followed by a path. */
  lemma FirstStep(g: Graph, a: Lib, c: Lib) returns (b: Lib)
    requires Reach(g, a, c)
    ensures Edge(g, a, b) && (b == c || Reach(g, b, c))
  {
    var p :| PathFrom(g, a, c, p);
    b := p[1];
    assert Edge(g, p[0], p[1]);
    if |p| > 2 {
      PathTail(g, p);
    }
  }

  lemma ReachInside(g: Graph, a: Lib, b: Lib)
    requires WellFormed(g) && Reach(g, a, b)
    ensures a in g && b in g
  {
    var p :| PathFrom(g, a, b, p);
    assert Edge(g, p[0], p[1]);
    assert Edge(g, p[|p| - 2], p[|p| - 2 + 1]);
  }

  /** Everything reachable from a. */
  ghost function Desc(g: Graph, a: Lib): set<Lib> {
    set b | b in g && Reach(g, a, b)
  }

  /** Everything in s or reachable from it. */
  ghost function Gone(g: Graph, s: set<Lib>): set<Lib> {
    set b | b in g && exists x :: x in s && (x == b || Reach(g, x, b))
  }

  lemma DescSteps(g: Graph, a: Lib)
    requires WellFormed(g) && a in g
    ensures Desc(g, a) == Gone(g, g[a])
  {
    forall b | b in g ensures b in Desc(g, a) <==> b in Gone(g, g[a]) {
      if Reach(g, a, b) {
        var x := FirstStep(g, a, b);
      }
      forall x | x in g[a] && (x == b || Reach(g, x, b)) ensures Reach(g, a, b) {
        EdgeReach(g, a, x);
        if x != b {
          ReachTrans(g, a, x, b);
        }
      }
    }
  }

  lemma DescShrinks(g: Graph, a: Lib, b: Lib)
    requires WellFormed(g) && Edge(g, a, b) && !Reach(g, b, b)
    ensures Desc(g, b) < Desc(g, a) && |Desc(g, b)| < |Desc(g, a)|
  {
    EdgeReach(g, a, b);
    forall c | c in Desc(g, b) ensures c in Desc(g, a) {
      ReachTrans(g, a, b, c);
    }
    assert b in Desc(g, a) && b !in Desc(g, b);
    Smaller(Desc(g, b), Desc(g, a));
  }

  lemma Smaller(s: set<Lib>, t: set<Lib>)
    ensures s <= t ==> |s| <= |t|
    ensures s < t ==> |s| < |t|
  {
    if s <= t {
      assert t == s + (t - s);
      assert s < t ==> t - s != {};
    }
  }

  /** Neither a nor anything it leads to is on a cycle. */
  ghost predicate Clean(g: Graph, a: Lib) {
    !Reach(g, a, a) && forall b :: Reach(g, a, b) ==> !Reach(g, b, b)
  }

  lemma CleanBelow(g: Graph, a: Lib, b: Lib)
    requires Edge(g, a, b) && Clean(g, a)
    ensures Clean(g, b)
  {
    EdgeReach(g, a, b);
    forall c | Reach(g, b, c) ensures !Reach(g, c, c) {
      ReachTrans(g, a, b, c);
    }
  }

  lemma CleanAbove(g: Graph, a: Lib)
    requires a in g && forall b :: b in g[a] ==> Clean(g, b)
    ensures Clean(g, a)
  {
    if Reach(g, a, a) {
      var b := FirstStep(g, a, a);
      EdgeReach(g, a, b);
      if b != a {
        ReachTrans(g, b, a, b);
      }
    }
    forall c | Reach(g, a, c) ensures !Reach(g, c, c) {
      var b := FirstStep(g, a, c);
    }
  }

  // ---------------------------------------------------------------- one vertex as a sink

  /** The graph that the recursion for t walks: what t leads to is never followed. */
  ghost function Sink(g: Graph, t: Lib): Graph {
    g[t := {}]
  }

  /** A path that does not leave t again is one of the sink graph. */
  lemma SinkPath(g: Graph, t: Lib, p: seq<Lib>)
    requires Path(g, p) && forall i :: 0 <= i < |p| - 1 ==> p[i] != t
    ensures Path(Sink(g, t), p)
  {
    forall i | 0 <= i < |p| - 1 ensures Edge(Sink(g, t), p[i], p[i + 1]) {
      assert Edge(g, p[i], p[i + 1]);
    }
  }

  /** A path that does leave t first arrives there. */
  lemma {:induction false} SinkArrives(g: Graph, t: Lib, p: seq<Lib>, k: nat)
    requires Path(g, p) && 0 < k < |p| && p[0] != t && p[k] == t
    ensures Reach(Sink(g, t), p[0], t)
    decreases k
  {
    if i :| 0 < i < k && p[i] == t {
      SinkArrives(g, t, p, i);
    } else {
      var q := p[..k + 1];
      PathPrefix(g, p, k);
      SinkPath(g, t, q);
      assert PathFrom(Sink(g, t), p[0], t, q);
    }
  }

  lemma SinkReach(g: Graph, t: Lib, a: Lib, b: Lib)
    requires a != t && !Reach(Sink(g, t), a, t)
    ensures Reach(Sink(g, t), a, b) <==> Reach(g, a, b)
  {
    if Reach(g, a, b) {
      var p :| PathFrom(g, a, b, p);
      forall i | 0 <= i < |p| - 1 ensures p[i] != t {
        if p[i] == t {
          SinkArrives(g, t, p, i);
        }
      }
      SinkPath(g, t, p);
      assert PathFrom(Sink(g, t), a, b, p);
    }
    if Reach(Sink(g, t), a, b) {
      SinkBelow(g, t, a, b);
    }
  }

  lemma SinkBelow(g: Graph, t: Lib, a: Lib, b: Lib)
    requires Reach(Sink(g, t), a, b)
    ensures Reach(g, a, b)
  {
    var p :| PathFrom(Sink(g, t), a, b, p);
    forall i | 0 <= i < |p| - 1 ensures Edge(g, p[i], p[i + 1]) {
      assert Edge(Sink(g, t), p[i], p[i + 1]);
    }
    assert PathFrom(g, a, b, p);
  }

  /** t is on no cycle when nothing it leads to comes back to it. */
  lemma SinkNoCycle(g: Graph, t: Lib)
    requires t in g && forall i :: i in g[t] ==> i != t && !Reach(Sink(g, t), i, t)
    ensures !Reach(g, t, t)
  {
    if Reach(g, t, t) {
      var i := FirstStep(g, t, t);
      SinkReach(g, t, i, t);
    }
  }

  lemma SinkClean(g: Graph, t: Lib, a: Lib)
    requires Acyclic(g)
    ensures Clean(Sink(g, t), a)
  {
    forall b ensures !Reach(Sink(g, t), b, b) {
      if Reach(Sink(g, t), b, b) {
        SinkBelow(g, t, b, b);
      }
    }
  }

  /** A cycle is one of every graph with the same edges along it. */
  lemma CycleKept(g: Graph, h: Graph, left: set<Lib>, a: Lib)
    requires WellFormed(g) && g.Keys == h.Keys && Reach(g, a, a)
    requires forall x :: x in left && x in g ==> h[x] == g[x]
    requires forall x :: x in g && x !in left ==> !Reach(g, x, x)
    ensures Reach(h, a, a)
  {
    var p :| PathFrom(g, a, a, p);
    forall i | 0 <= i < |p| - 1 ensures Edge(h, p[i], p[i + 1]) {
      assert Edge(g, p[i], p[i + 1]);
      OnCycle(g, a, p, i);
    }
    assert PathFrom(h, a, a, p);
  }

  lemma OnCycle(g: Graph, a: Lib, p: seq<Lib>, i: nat)
    requires PathFrom(g, a, a, p) && i < |p| - 1
    ensures Reach(g, p[i], p[i])
  {
    if i > 0 {
      var r := p[i..];
      PathPrefix(g, p, i);
      forall j | 0 <= j < |r| - 1 ensures Edge(g, r[j], r[j + 1]) {
        assert Edge(g, p[i + j], p[i + j + 1]);
      }
      assert PathFrom(g, p[i], a, r);
      ReachTrans(g, p[i], a, p[i]);
    }
  }

  // ---------------------------------------------------------------- transitive reduction

  /** b stays below a when no other successor of a leads to it. */
  ghost predicate Kept(g: Graph, a: Lib, b: Lib) {
    Edge(g, a, b) && forall x :: Edge(g, a, x) ==> !Reach(g, x, b)
  }

  ghost function KeptSet(g: Graph, a: Lib): set<Lib>
    requires a in g
  {
    set b | b in g[a] && Kept(g, a, b)
  }

  /** In terms of paths: the edge is the only path from a to b. */
  lemma KeptIsOnlyPath(g: Graph, a: Lib, b: Lib)
    ensures Kept(g, a, b) <==> Edge(g, a, b) && forall p :: PathFrom(g, a, b, p) ==> p == [a, b]
  {
    if Kept(g, a, b) {
      forall p | PathFrom(g, a, b, p) ensures p == [a, b] {
        assert Edge(g, p[0], p[1]);
        if |p| > 2 {
          PathTail(g, p);
        }
      }
    } else if Edge(g, a, b) {
      var x :| Edge(g, a, x) && Reach(g, x, b);
      var q :| PathFrom(g, x, b, q);
      assert PathFrom(g, a, x, [a, x]);
      PathJoin(g, a, x, b, [a, x], q);
    }
  }

  /** The graph with only the redundant edges out of t removed. */
  ghost function Cut(g: Graph, t: Lib): Graph
    requires t in g
  {
    g[t := KeptSet(g, t)]
  }

  /** Paths that never pass through t are untouched by the cut. */
  lemma {:induction false} CutKeepsOthers(g: Graph, t: Lib, a: Lib, b: Lib, p: seq<Lib>)
    requires t in g && PathFrom(g, a, b, p) && a != t && !Reach(g, a, t)
    ensures Reach(Cut(g, t), a, b)
  {
    forall i | 0 <= i < |p| - 1 ensures Edge(Cut(g, t), p[i], p[i + 1]) {
      assert Edge(g, p[i], p[i + 1]);
      if p[i] == t {
        PathPrefix(g, p, i);
      }
    }
    assert PathFrom(Cut(g, t), a, b, p);
  }

  /** Everything that leads to b. */
  ghost function Anc(g: Graph, b: Lib): set<Lib> {
    set a | a in g && Reach(g, a, b)
  }

  /** A removed edge is replaced by a path through an earlier successor, which was kept or is
      itself replaced. */
  lemma {:induction false} CutStillReaches(g: Graph, t: Lib, b: Lib)
    requires WellFormed(g) && Acyclic(g) && Edge(g, t, b)
    ensures Reach(Cut(g, t), t, b)
    decreases Anc(g, b)
  {
    if Kept(g, t, b) {
      EdgeReach(Cut(g, t), t, b);
    } else {
      var x :| Edge(g, t, x) && Reach(g, x, b);
      EdgeReach(g, t, x);
      forall a | a in Anc(g, x) ensures a in Anc(g, b) {
        ReachTrans(g, a, x, b);
      }
      ReachInside(g, x, b);
      assert x in Anc(g, b) && x !in Anc(g, x);
      CutStillReaches(g, t, x);
      if Reach(g, x, t) {
        ReachTrans(g, t, x, t);
      }
      assert x != t;
      var p :| PathFrom(g, x, b, p);
      CutKeepsOthers(g, t, x, b, p);
      ReachTrans(Cut(g, t), t, x, b);
    }
  }

  /** Reachability survives replacing each edge by a path. */
  lemma {:induction false} ReachThrough(g: Graph, h: Graph, a: Lib, b: Lib, p: seq<Lib>)
    requires PathFrom(g, a, b, p)
    requires forall x, y :: Edge(g, x, y) ==> Reach(h, x, y)
    ensures Reach(h, a, b)
    decreases |p|
  {
    assert Edge(g, p[0], p[1]);
    if |p| > 2 {
      PathTail(g, p);
      ReachThrough(g, h, p[1], b, p[1..]);
      ReachTrans(h, a, p[1], b);
    }
  }

  lemma CutSameReach(g: Graph, t: Lib)
    requires WellFormed(g) && Acyclic(g) && t in g
    ensures SameReach(Cut(g, t), g)
  {
    var h := Cut(g, t);
    forall x, y | Edge(g, x, y) ensures Reach(h, x, y) {
      if x == t {
        CutStillReaches(g, t, y);
      } else {
        EdgeReach(h, x, y);
      }
    }
    forall x, y | Edge(h, x, y) ensures Reach(g, x, y) {
      EdgeReach(g, x, y);
    }
    forall a, b ensures Reach(h, a, b) <==> Reach(g, a, b) {
      if Reach(g, a, b) {
        var p :| PathFrom(g, a, b, p);
        ReachThrough(g, h, a, b, p);
      }
      if Reach(h, a, b) {
        var p :| PathFrom(h, a, b, p);
        ReachThrough(h, g, a, b, p);
      }
    }
  }

  /** The graph with the vertices of `done` reduced. */
  ghost function Reduced(g: Graph, done: set<Lib>): Graph {
    map a | a in g :: if a in done then KeptSet(g, a) else g[a]
  }

  /** Cutting one vertex after another, in any order, reduces against the original graph. */
  lemma ReducedStep(g: Graph, done: set<Lib>, t: Lib)
    requires WellFormed(g) && t in g && t !in done && SameReach(Reduced(g, done), g)
    ensures Cut(Reduced(g, done), t) == Reduced(g, done + {t})
  {
    var h := Reduced(g, done);
    forall b | b in g[t] ensures Kept(h, t, b) <==> Kept(g, t, b) {
      assert forall x :: Edge(h, t, x) <==> Edge(g, t, x);
    }
    assert KeptSet(h, t) == KeptSet(g, t);
  }

  /** Every graph with the same reachability has all the kept edges: the reduction is the
      unique smallest one. */
  lemma ReductionIsLeast(g: Graph, k: Graph, a: Lib, b: Lib)
    requires SameReach(g, k) && Edge(Reduced(g, g.Keys), a, b)
    ensures Edge(k, a, b)
  {
    EdgeReach(g, a, b);
    var x := FirstStep(k, a, b);
    if x != b {
      EdgeReach(k, a, x);
      var y := FirstStep(g, a, x);
      if y != x {
        ReachTrans(g, y, x, b);
      }
    }
  }

  // ---------------------------------------------------------------- compute_graph

  /** The symbols of one library, as `nm` lists them. */
  datatype Symbols = Symbols(syms: set<string>, neededSyms: set<string>)

  /** b needs a when some symbol that a defines is undefined in b. */
  function SymbolGraph(libs: map<Lib, Symbols>): Graph {
    map a | a in libs :: set b | b in libs && b != a && libs[a].syms * libs[b].neededSyms != {}
  }

  ghost predicate Linked(libs: map<Lib, Symbols>, a: Lib, b: Lib) {
    a in libs && b in libs && a != b && libs[a].syms * libs[b].neededSyms != {}
  }

  /** Two libraries are linked when some symbol is defined in one and undefined in the other. */
  lemma LinkedBySymbol(libs: map<Lib, Symbols>, a: Lib, b: Lib)
    ensures Linked(libs, a, b) <==>
      a in libs && b in libs && a != b && exists x :: x in libs[a].syms && x in libs[b].neededSyms
  {
    if a in libs && b in libs {
      var both := libs[a].syms * libs[b].neededSyms;
      assert forall x :: x in both <==> x in libs[a].syms && x in libs[b].neededSyms;
      if both != {} {
        var x :| x in both;
      }
    }
  }

  lemma SameEdges(g: Graph, h: Graph)
    requires g.Keys == h.Keys && forall a, b :: Edge(g, a, b) <==> Edge(h, a, b)
    ensures g == h
  {
    forall a | a in g ensures g[a] == h[a] {
      assert forall b :: b in g[a] <==> Edge(g, a, b);
      assert forall b :: b in h[a] <==> Edge(h, a, b);
    }
  }

  ghost predicate Inverse(needs: Graph, needed: Graph) {
    && needs.Keys == needed.Keys
    && forall a, b :: Edge(needed, a, b) <==> Edge(needs, b, a)
  }

  /** What a call of `prune` that returns leaves: row without everything below cur, none of which is on a
      cycle; t itself is met only when that is nothing. */
  ghost predicate Pruned(s: Graph, t: Lib, row: set<Lib>, cur: Lib, needed: Graph) {
    && needed == s[t := row - Desc(s, cur)]
    && Clean(s, cur)
    && (t in {cur} + Desc(s, cur) ==> row - Desc(s, cur) == {})
  }

  /** When a call with so many frames does return. */
  ghost predicate Returns(s: Graph, t: Lib, cur: Lib, frames: nat) {
    Clean(s, cur) && t !in {cur} + Desc(s, cur) && frames > |Desc(s, cur)|
  }

  /** The loop of `prune` for cur has been through done and is still to go through todo. */
  ghost predicate Walked(s: Graph, t: Lib, row: set<Lib>, cur: Lib, todo: set<Lib>, done: set<Lib>, needed: Graph) {
    && needed == s[t := row - Gone(s, done)]
    && (cur == t ==> done == {} && todo == row)
    && (cur != t ==> cur in s && done + todo == s[cur])
    && (forall i :: i in done ==> Clean(s, i))
    && (t in Gone(s, done) ==> row - Gone(s, done) == {})
  }

  lemma WalkedMore(s: Graph, t: Lib, row: set<Lib>, cur: Lib, todo: set<Lib>, done: set<Lib>, needed: Graph, i: Lib, more: Graph)
    requires Walked(s, t, row, cur, todo, done, needed) && cur != t && i in todo && i in s
    requires Pruned(s, t, row - Gone(s, done) - {i}, i, more)
    ensures Walked(s, t, row, cur, todo - {i}, done + {i}, more)
  {
    GoneMore(s, done, i, row);
    assert row - Gone(s, done) - {i} - Desc(s, i) == row - Gone(s, done) - ({i} + Desc(s, i));
    assert Gone(s, done + {i}) == Gone(s, done) + ({i} + Desc(s, i));
  }

  lemma WalksOn(s: Graph, t: Lib, cur: Lib, i: Lib, frames: nat)
    requires WellFormed(s) && Edge(s, cur, i) && Returns(s, t, cur, frames)
    ensures frames > 0 && Returns(s, t, i, frames - 1)
  {
    CleanBelow(s, cur, i);
    DescShrinks(s, cur, i);
    EdgeReach(s, cur, i);
  }

  lemma WalkedAll(s: Graph, t: Lib, row: set<Lib>, cur: Lib, done: set<Lib>, needed: Graph)
    requires WellFormed(s) && cur in s && t in s && s[t] == {} && Walked(s, t, row, cur, {}, done, needed)
    ensures Pruned(s, t, row, cur, needed)
  {
    DescSteps(s, cur);
    assert done == s[cur];
    CleanAbove(s, cur);
  }

  /** The branches of t in done have been pruned, and none of them leads back to t. */
  ghost predicate Branched(h: Graph, t: Lib, todo: set<Lib>, done: set<Lib>, needed: Graph)
    requires t in h
  {
    var s := Sink(h, t);
    && done + todo == h[t]
    && needed == s[t := h[t] - Below(s, done)]
    && forall i :: i in done ==> i != t && !Reach(s, i, t)
  }

  /** A branch that has been pruned is still there itself, or is below one that is done. */
  lemma BranchDone(h: Graph, t: Lib, todo: set<Lib>, done: set<Lib>, needed: Graph, i: Lib, more: Graph)
    requires WellFormed(h) && t in h && Branched(h, t, todo, done, needed) && i in todo
    requires Pruned(Sink(h, t), t, h[t] - Below(Sink(h, t), done), i, more)
    ensures Branched(h, t, todo - {i}, done + {i}, more)
  {
    var s := Sink(h, t);
    BelowMore(s, done, i, h[t]);
    BranchLeaves(h, t, done, i, more);
  }

  lemma BranchLeaves(h: Graph, t: Lib, done: set<Lib>, i: Lib, more: Graph)
    requires WellFormed(h) && Edge(h, t, i)
    requires forall x :: x in done ==> x != t && !Reach(Sink(h, t), x, t)
    requires Pruned(Sink(h, t), t, h[t] - Below(Sink(h, t), done), i, more)
    ensures i != t && !Reach(Sink(h, t), i, t)
  {
    var s := Sink(h, t);
    if x :| x in done && Reach(s, x, i) {
      if Reach(s, i, t) {
        ReachTrans(s, x, i, t);
      }
    } else {
      assert i in h[t] - Below(s, done) - Desc(s, i);
    }
  }

  lemma AllBranched(h: Graph, t: Lib, done: set<Lib>, needed: Graph)
    requires WellFormed(h) && t in h && Branched(h, t, {}, done, needed)
    ensures needed == Cut(h, t) && !Reach(h, t, t)
  {
    assert done == h[t];
    SinkNoCycle(h, t);
    RowPruned(h, t);
  }

  lemma BranchReturns(h: Graph, t: Lib, i: Lib)
    requires WellFormed(h) && Acyclic(h) && Edge(h, t, i)
    ensures Returns(Sink(h, t), t, i, |h.Keys| + 1)
  {
    SinkClean(h, t, i);
    NoCycle(h, t, i);
    if Reach(Sink(h, t), i, t) {
      SinkBelow(h, t, i, t);
    }
    Smaller(Desc(Sink(h, t), i), h.Keys);
  }

  lemma SinkWellFormed(h: Graph, t: Lib)
    requires WellFormed(h) && t in h
    ensures WellFormed(Sink(h, t))
  {
    assert forall a, b :: Edge(Sink(h, t), a, b) ==> Edge(h, a, b);
  }

  lemma RowPruned(h: Graph, t: Lib)
    requires WellFormed(h) && t in h
    requires forall i :: i in h[t] ==> i != t && !Reach(Sink(h, t), i, t)
    ensures Sink(h, t)[t := h[t] - Below(Sink(h, t), h[t])] == Cut(h, t)
  {
    var s := Sink(h, t);
    forall i, b | i in h[t] ensures Reach(s, i, b) <==> Reach(h, i, b) {
      SinkReach(h, t, i, b);
    }
    assert Below(s, h[t]) == Below(h, h[t]);
    BelowIsCut(h, t);
  }

  lemma NoneOnCycle(g: Graph)
    requires WellFormed(g) && forall x :: x in g ==> !Reach(g, x, x)
    ensures Acyclic(g)
  {
    forall a ensures !Reach(g, a, a) {
      if Reach(g, a, a) {
        ReachInside(g, a, a);
      }
    }
  }

  class LibraryGraph {
    const libs: map<Lib, Symbols>
    var needs: Graph
    var needed: Graph

    constructor (libs: map<Lib, Symbols>)
      ensures this.libs == libs
      ensures needs == needed == map a | a in libs :: {}
    {
      this.libs := libs;
      needs := map a | a in libs :: {};
      needed := map a | a in libs :: {};
    }

    ghost predicate Valid()
      reads this
    {
      needed.Keys == libs.Keys && WellFormed(needed) && WellFormed(needs) && Inverse(needs, needed)
    }

    /** Remove one edge from both sides, if it is there. */
    method Discard(i: Lib, toPrune: Lib)
      requires Valid() && i in libs && toPrune in libs
      modifies this`needs, this`needed
      ensures Valid()
      ensures needed == old(needed)[toPrune := old(needed)[toPrune] - {i}]
    {
      needs := needs[i := needs[i] - {toPrune}];
      needed := needed[toPrune := needed[toPrune] - {i}];
      assert forall a, b :: Edge(needed, a, b) <==> old(Edge(needed, a, b)) && !(a == toPrune && b == i);
      assert forall a, b :: Edge(needs, b, a) <==> old(Edge(needs, b, a)) && !(a == toPrune && b == i);
    }

    /** The inner function `prune`, with so many frames left; it fails when they run out, and when the set
        that the loop walks over has changed. Only the edges out of toPrune change: s is the graph without
        them and row those that toPrune still has. */
    method Prune(curLib: Lib, toPrune: Lib, frames: nat, ghost s: Graph, ghost row: set<Lib>) returns (ok: bool)
      requires Valid() && WellFormed(s) && s.Keys == libs.Keys
      requires curLib in libs && toPrune in libs && s[toPrune] == {} && needed == s[toPrune := row]
      modifies this`needs, this`needed
      ensures Valid()
      ensures ok ==> Pruned(s, toPrune, row, curLib, needed)
      ensures Returns(s, toPrune, curLib, frames) ==> ok
      decreases frames, 0
    {
      if frames == 0 {
        return false;
      }
      var size, todo := |needed[curLib]|, needed[curLib];
      ghost var done := {};
      assert row - Gone(s, done) == row;
      while true
        invariant Valid() && curLib in needed
        invariant
          || (curLib == toPrune && |needed[curLib]| != size)
          || (Walked(s, toPrune, row, curLib, todo, done, needed) && |needed[curLib]| == size)
        decreases todo
      {
        if |needed[curLib]| != size {
          return false;
        }
        if todo == {} {
          break;
        }
        var i :| i in todo;
        assert Edge(needed, curLib, i);
        ghost var before := needed;
        if Returns(s, toPrune, curLib, frames) {
          WalksOn(s, toPrune, curLib, i, frames);
        }
        ok := PruneBranch(i, toPrune, frames - 1, s, row - Gone(s, done));
        if !ok {
          return;
        }
        if curLib == toPrune {
          Smaller(needed[curLib], row);
        } else {
          WalkedMore(s, toPrune, row, curLib, todo, done, before, i, needed);
        }
        todo, done := todo - {i}, done + {i};
      }
      WalkedAll(s, toPrune, row, curLib, done, needed);
      ok := true;
    }

    /** The body of that loop. */
    method PruneBranch(i: Lib, toPrune: Lib, frames: nat, ghost s: Graph, ghost row: set<Lib>) returns (ok: bool)
      requires Valid() && WellFormed(s) && s.Keys == libs.Keys
      requires i in libs && toPrune in libs && s[toPrune] == {} && needed == s[toPrune := row]
      modifies this`needs, this`needed
      ensures Valid()
      ensures ok ==> Pruned(s, toPrune, row - {i}, i, needed)
      ensures Returns(s, toPrune, i, frames) ==> ok
      decreases frames, 1
    {
      Discard(i, toPrune);
      ok := Prune(i, toPrune, frames, s, row - {i});
    }

    /** Pruning every library against the libraries that need it. */
    method PruneAll(limit: nat, ghost g: Graph) returns (ok: bool)
      requires Valid() && g == needed
      modifies this`needs, this`needed
      ensures Valid()
      ensures ok ==> Acyclic(g) && needed == Reduced(g, g.Keys) && SameReach(needed, g)
      ensures Acyclic(g) && |libs| < limit ==> ok
    {
      var left := libs.Keys;
      assert Reduced(g, g.Keys - left) == g;
      while left != {}
        invariant Valid() && left <= libs.Keys
        invariant forall x :: x in left ==> needed[x] == g[x]
        invariant forall x :: x in g && x !in left ==> !Reach(g, x, x)
        invariant Acyclic(g) ==> needed == Reduced(g, g.Keys - left) && SameReach(needed, g)
        decreases left
      {
        var curLib :| curLib in left;
        ghost var h := needed;
        ok := PruneOne(curLib, limit, h);
        if !ok {
          return;
        }
        if Reach(g, curLib, curLib) {
          CycleKept(g, h, left, curLib);
        }
        if Acyclic(g) {
          ReducedStep(g, g.Keys - left, curLib);
          CutSameReach(h, curLib);
        }
        assert g.Keys - (left - {curLib}) == (g.Keys - left) + {curLib};
        left := left - {curLib};
      }
      NoneOnCycle(g);
      assert g.Keys - left == g.Keys;
      ok := true;
    }

    method PruneOne(curLib: Lib, limit: nat, ghost h: Graph) returns (ok: bool)
      requires Valid() && h == needed && curLib in libs
      modifies this`needs, this`needed
      ensures Valid()
      ensures ok ==> needed == Cut(h, curLib) && !Reach(h, curLib, curLib)
      ensures Acyclic(h) && |libs| < limit ==> ok
    {
      ghost var s := Sink(h, curLib);
      SinkWellFormed(h, curLib);
      var todo := needed[curLib];
      ghost var done := {};
      assert h[curLib] - Below(s, done) == h[curLib];
      while todo != {}
        invariant Valid() && Branched(h, curLib, todo, done, needed)
        decreases todo
      {
        var i :| i in todo;
        assert Edge(h, curLib, i);
        if Acyclic(h) {
          BranchReturns(h, curLib, i);
        }
        ghost var before := needed;
        ok := Prune(i, curLib, limit, s, h[curLib] - Below(s, done));
        if !ok {
          return;
        }
        BranchDone(h, curLib, todo, done, before, i, needed);
        todo, done := todo - {i}, done + {i};
      }
      AllBranched(h, curLib, done, needed);
      ok := true;
    }

    /** The nested loop over `itertools.permutations(libs, 2)`. */
    method Build()
      requires needs == needed == map a | a in libs :: {}
      modifies this`needs, this`needed
      ensures Valid() && needed == SymbolGraph(libs)
      ensures forall a, b :: Edge(needed, a, b) <==>
        a in libs && b in libs && a != b && exists x :: x in libs[a].syms && x in libs[b].neededSyms
      ensures forall a, b :: Edge(needs, b, a) <==> Edge(needed, a, b)
    {
      var pairs := set a, b | a in libs && b in libs && a != b :: (a, b);
      while pairs != {}
        invariant forall pair :: pair in pairs ==> pair.0 in libs && pair.1 in libs && pair.0 != pair.1
        invariant needs.Keys == needed.Keys == libs.Keys
        invariant forall a, b :: Edge(needed, a, b) <==> Linked(libs, a, b) && (a, b) !in pairs
        invariant forall a, b :: Edge(needs, b, a) <==> Edge(needed, a, b)
        decreases pairs
      {
        var pair :| pair in pairs;
        var (a, b) := pair;
        ghost var before := needed;
        if libs[a].syms * libs[b].neededSyms != {} {
          needs := needs[b := needs[b] + {a}];
          needed := needed[a := needed[a] + {b}];
          assert forall x, y :: Edge(needed, x, y) <==> Edge(before, x, y) || (x == a && y == b);
          assert forall x, y :: Edge(needs, y, x) <==> Edge(before, x, y) || (x == a && y == b);
        }
        pairs := pairs - {pair};
      }
      forall a, b ensures Linked(libs, a, b) <==>
        a in libs && b in libs && a != b && exists x :: x in libs[a].syms && x in libs[b].neededSyms
      {
        LinkedBySymbol(libs, a, b);
      }
      assert forall a, b :: Edge(SymbolGraph(libs), a, b) <==> Linked(libs, a, b);
      SameEdges(needed, SymbolGraph(libs));
      forall b, a | Edge(needs, b, a) ensures a in needs {
        assert Edge(needed, a, b);
      }
    }

    /** `compute_graph`, within a recursion limit: it returns only for an acyclic graph and, when the limit
        is above the number of libraries, for every one. Whatever order the sets are walked in, exactly the
        edges that no other path makes redundant are left. */
    method ComputeGraph(limit: nat) returns (ok: bool)
      requires needs == needed == map a | a in libs :: {}
      modifies this`needs, this`needed
      ensures ok ==> Acyclic(SymbolGraph(libs))
      ensures Acyclic(SymbolGraph(libs)) && |libs| < limit ==> ok
      ensures forall a, b :: Edge(SymbolGraph(libs), a, b) <==>
        a in libs && b in libs && a != b && exists x :: x in libs[a].syms && x in libs[b].neededSyms
      ensures ok ==>
        var g := SymbolGraph(libs);
        && Inverse(needs, needed)
        && SameReach(needed, g)
        && forall a, b :: Edge(needed, a, b) <==>
             Edge(g, a, b) && forall p :: PathFrom(g, a, b, p) ==> p == [a, b]
    {
      Build();
      ghost var g := needed;
      ok := PruneAll(limit, g);
      forall a, b
        ensures ok ==> (Edge(needed, a, b) <==> Edge(g, a, b) && forall p :: PathFrom(g, a, b, p) ==> p == [a, b])
      {
        KeptIsOnlyPath(g, a, b);
      }
    }
  }

  /** Everything reachable from some vertex of s. */
  ghost function Below(g: Graph, s: set<Lib>): set<Lib> {
    set b | b in g && exists x :: x in s && Reach(g, x, b)
  }

  lemma BelowIsCut(g: Graph, t: Lib)
    requires WellFormed(g) && t in g
    ensures g[t] - Below(g, g[t]) == KeptSet(g, t)
  {
    forall b | b in g[t] ensures b in Below(g, g[t]) <==> !Kept(g, t, b) {
      assert Edge(g, t, b);
      assert forall x :: x in g[t] <==> Edge(g, t, x);
    }
  }

  lemma NoCycle(g: Graph, t: Lib, i: Lib)
    requires Acyclic(g) && Edge(g, t, i)
    ensures i != t && !Reach(g, i, t)
  {
    EdgeReach(g, t, i);
    if Reach(g, i, t) {
      ReachTrans(g, t, i, t);
    }
  }

  lemma BelowMore(g: Graph, s: set<Lib>, i: Lib, all: set<Lib>)
    ensures all - Below(g, s) - Desc(g, i) == all - Below(g, s + {i})
  {
  }

  lemma GoneMore(g: Graph, s: set<Lib>, i: Lib, all: set<Lib>)
    requires i in g
    ensures all - Gone(g, s) - ({i} + Desc(g, i)) == all - Gone(g, s + {i})
  {
  }
}
