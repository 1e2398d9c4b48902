/** The layered search of `find_mcpath`: the functional form of the loop nest, what every
    step of it keeps, and the class that carries it out on the tables in place. */
module McSearch {
  import opened Common
  import opened Fabric
  import opened Multicast

  // ---------------------------------------------------------------- the tables

  function Xor(a: nat, b: nat): nat {
    if a == 0 && b == 0 then 0 else 2 * Xor(a / 2, b / 2) + (a + b) % 2
  }

  lemma {:induction false} XorBits(a: nat, b: nat, i: nat)
    ensures Bit(Xor(a, b), i) <==> Bit(a, i) != Bit(b, i)
  {
    if a == 0 && b == 0 {
      NoBit(i);
    } else {
      var rest := Xor(a / 2, b / 2);
      assert Xor(a, b) == 2 * rest + (a + b) % 2;
      LowBit(a, b, rest);
      if i > 0 {
        XorBits(a / 2, b / 2, i - 1);
      }
    }
  }

  lemma LowBit(a: nat, b: nat, rest: nat)
    ensures
      var x := 2 * rest + (a + b) % 2;
      x / 2 == rest && (x % 2 == 1 <==> a % 2 != b % 2)
  {
  }

  /** `HASHGUID` modulo the table size, in 32-bit arithmetic. */
  function Hash(g: Guid): (h: nat)
    ensures h < HTSZ
  {
    var lo, hi := g % 0x1_0000_0000, g / 0x1_0000_0000;
    Xor((lo * 101) % 0x1_0000_0000, (hi * 103) % 0x1_0000_0000) % HTSZ
  }

  /** Every node is in the bucket of its GUID. */
  ghost predicate TableOk(nodes: seq<Node>, table: seq<seq<nat>>) {
    && |table| == HTSZ
    && (forall b, i :: 0 <= b < HTSZ && 0 <= i < |table[b]| ==> table[b][i] < |nodes|)
    && (forall k :: 0 <= k < |nodes| ==> k in table[Hash(nodes[k].guid)])
  }

  /** Layer d holds exactly the nodes at distance d. */
  ghost predicate LayersOk(nodes: seq<Node>, layers: seq<seq<nat>>) {
    && |layers| == MAXHOPS
    && (forall d, i :: 0 <= d < MAXHOPS && 0 <= i < |layers[d]| ==> layers[d][i] < |nodes| && nodes[layers[d][i]].dist == d)
    && (forall k :: 0 <= k < |nodes| ==> 0 <= nodes[k].dist < MAXHOPS && k in layers[nodes[k].dist])
  }

  lemma TableMore(nodes: seq<Node>, table: seq<seq<nat>>, n: Node)
    requires TableOk(nodes, table)
    ensures TableOk(nodes + [n], table[Hash(n.guid) := [|nodes|] + table[Hash(n.guid)]])
  {
  }

  lemma LayersMore(nodes: seq<Node>, layers: seq<seq<nat>>, n: Node)
    requires LayersOk(nodes, layers) && 0 <= n.dist < MAXHOPS
    ensures LayersOk(nodes + [n], layers[n.dist := [|nodes|] + layers[n.dist]])
  {
    var more, l := nodes + [n], layers[n.dist := [|nodes|] + layers[n.dist]];
    forall k | 0 <= k < |more| ensures 0 <= more[k].dist < MAXHOPS && k in l[more[k].dist] {
      assert k < |nodes| ==> k in layers[nodes[k].dist];
    }
  }

  // ---------------------------------------------------------------- the search as a function of its state

  /** `nodestbl`, `nodesdist` and the nodes they hold; the direct route kept in each node is
      the part of it that changes. */
  datatype State = State(nodes: seq<Node>, paths: seq<DrPath>, table: seq<seq<nat>>, layers: seq<seq<nat>>)

  datatype Outcome = Go | Hit(node: Node) | Unreadable | TooLong

  /** A node's layer never exceeds its hop count, so the cap on the hop count keeps every
      layer index inside the array. */
  ghost predicate Shaped(st: State) {
    && |st.table| == HTSZ
    && |st.layers| == MAXHOPS
    && |st.paths| == |st.nodes|
    && (forall k :: 0 <= k < |st.nodes| ==> PathSized(st.paths[k]) && 0 <= st.nodes[k].dist <= st.paths[k].cnt)
    && (forall k :: 0 <= k < |st.nodes| ==> st.nodes[k].numPorts < 256)
    && (forall d, i :: 0 <= d < MAXHOPS && 0 <= i < |st.layers[d]| ==> st.layers[d][i] < |st.nodes|)
  }

  predicate KnownGuid(nodes: seq<Node>, g: Guid) {
    exists k :: 0 <= k < |nodes| && nodes[k].guid == g
  }

  /** Link a new node into its bucket and its layer. */
  function AddNode(st: State, m: Node, path: DrPath): State
    requires |st.table| == HTSZ && |st.layers| == MAXHOPS && 0 <= m.dist < MAXHOPS
  {
    var k, h := |st.nodes|, Hash(m.guid);
    State(st.nodes + [m], st.paths + [path],
          st.table[h := [k] + st.table[h]], st.layers[m.dist := [k] + st.layers[m.dist]])
  }

  /** `new_node`: 1 for the target, -1 for a known node, 0 for a new one. */
  function NewNode(q: Query, st: State, m: Node, portGuid: Guid, path: DrPath): (int, State)
    requires |st.table| == HTSZ && |st.layers| == MAXHOPS && 0 <= m.dist < MAXHOPS
  {
    if portGuid == q.target then (1, st)
    else if KnownGuid(st.nodes, m.guid) then (-1, st)
    else (0, AddNode(st, m, path))
  }

  function SetPath(st: State, k: nat, path: DrPath): State
    requires k < |st.paths|
  {
    st.(paths := st.paths[k := path])
  }

  /** One pass of the port loop: read the port, step over the link, look at the far end, and
      step back. */
  function TryPort(q: Query, st: State, k: nat, i: nat): (r: (Outcome, State))
    requires Asked(q) && Shaped(st) && k < |st.nodes|
    ensures Shaped(r.1) && st.nodes <= r.1.nodes
  {
    var port := GetPort(q.f, q.root, st.paths[k], i);
    if port.None? then (Unreadable, st)
    else if port.value.physState != LINK_UP then (Go, st)
    else
      var ext := ExtendPath(st.paths[k], i);
      if ext.None? then (TooLong, st)
      else
        StepOverShaped(q, st, k, i, ext.value);
        StepOver(q, st, k, i, ext.value)
  }

  function StepOver(q: Query, st: State, k: nat, i: nat, ext: DrPath): (Outcome, State)
    requires Shaped(st) && k < |st.nodes| && ExtendPath(st.paths[k], i) == Some(ext)
  {
    var out := SetPath(st, k, ext);
    var far := GetNode(q.f, q.root, ext);
    if far.None? then (Go, SetPath(out, k, Shorten(ext)))
    else
      var m := NodeRead(far.value, k, st.nodes[k].dist + 1, i);
      var (r, after) := NewNode(q, out, m, far.value.portGuid, ext);
      if r == 1 then (Hit(m.(dist := -1)), after) else (Go, SetPath(after, k, Shorten(ext)))
  }

  lemma SetPathShaped(st: State, k: nat, path: DrPath)
    requires Shaped(st) && k < |st.nodes| && PathSized(path) && st.nodes[k].dist <= path.cnt
    ensures Shaped(SetPath(st, k, path))
  {
  }

  lemma AddNodeShaped(st: State, m: Node, path: DrPath)
    requires Shaped(st) && PathSized(path) && 0 <= m.dist <= path.cnt && m.dist < MAXHOPS && m.numPorts < 256
    ensures Shaped(AddNode(st, m, path))
  {
  }

  lemma StepOverShaped(q: Query, st: State, k: nat, i: nat, ext: DrPath)
    requires Asked(q) && Shaped(st) && k < |st.nodes| && ExtendPath(st.paths[k], i) == Some(ext)
    ensures Shaped(StepOver(q, st, k, i, ext).1) && st.nodes <= StepOver(q, st, k, i, ext).1.nodes
  {
    var out := SetPath(st, k, ext);
    SetPathShaped(st, k, ext);
    SetPathShaped(out, k, Shorten(ext));
    var far := GetNode(q.f, q.root, ext);
    if far.Some? {
      var m := NodeRead(far.value, k, st.nodes[k].dist + 1, i);
      LinkedShaped(out, k, m, ext);
    }
  }

  lemma LinkedShaped(out: State, k: nat, m: Node, ext: DrPath)
    requires Shaped(out) && k < |out.nodes| && PathSized(ext) && m.numPorts < 256
    requires 0 <= m.dist <= ext.cnt && m.dist < MAXHOPS && ext.cnt > out.nodes[k].dist
    ensures Shaped(AddNode(out, m, ext)) && Shaped(SetPath(AddNode(out, m, ext), k, Shorten(ext)))
  {
    AddNodeShaped(out, m, ext);
    assert AddNode(out, m, ext).nodes[k] == out.nodes[k];
    SetPathShaped(AddNode(out, m, ext), k, Shorten(ext));
  }

  function StationAt(f: Fabric, root: End, path: DrPath): Option<Station>
    requires PathSized(path)
  {
    var e := Resolve(f, root, Hops(path));
    if e.None? || e.value.guid !in f.stations then None else Some(f.stations[e.value.guid])
  }

  /** The invariant of the search. */
  ghost predicate StateOk(q: Query, st: State) {
    && SearchOk(q, st.nodes, st.paths)
    && TableOk(st.nodes, st.table)
    && LayersOk(st.nodes, st.layers)
  }

  lemma OkShaped(q: Query, st: State)
    requires StateOk(q, st)
    ensures Shaped(st)
  {
    forall k | 0 <= k < |st.nodes|
      ensures PathSized(st.paths[k]) && 0 <= st.nodes[k].dist <= st.paths[k].cnt && st.nodes[k].numPorts < 256
    {
      assert PathOk(q, st.nodes[k], st.paths[k]);
      assert k > 0 ==> NodeOk(q, st.nodes, st.nodes[k]);
    }
  }

  /** From layer d only layer d + 1 grows. */
  ghost predicate Grown(d: int, st: State, more: State) {
    && GrownNodes(d, st.nodes, more.nodes)
    && |st.layers| == |more.layers|
    && (forall e :: 0 <= e < |st.layers| && e <= d ==> more.layers[e] == st.layers[e])
  }

  ghost predicate GrownNodes(d: int, nodes: seq<Node>, more: seq<Node>) {
    nodes <= more && forall j :: |nodes| <= j < |more| ==> more[j].dist == d + 1
  }

  /** What stopping while layer d is expanded means. */
  ghost predicate Stopped(q: Query, nodes: seq<Node>, d: int, o: Outcome)
    requires Asked(q)
  {
    match o
    case Go => true
    case Hit(n) =>
      && NodeOk(q, nodes, n)
      && nodes[n.upNode.value].dist == d
      && AtTarget(q, End(n.guid, n.upPort))
    case TooLong => q.from.cnt + d >= PATH_BYTES - 2
    case Unreadable =>
      exists k, i :: 0 <= k < |nodes| && nodes[k].dist == d && UnreadablePort(q, nodes[k].guid, i)
  }

  /** What one pass, one node or one layer of the loop nest establishes. */
  ghost predicate Kept(q: Query, st: State, d: int, o: Outcome, more: State) {
    && SearchOk(q, st.nodes, st.paths)
    && GrownNodes(d, st.nodes, more.nodes)
    && NodesOk(q, more.nodes)
    && Stopped(q, more.nodes, d, o)
    && (o.Go? ==> StateOk(q, more) && Grown(d, st, more))
  }

  /** Nothing new at the far end: the state is as before the step. */
  lemma BackKeeps(q: Query, st: State, k: nat, path: DrPath)
    requires StateOk(q, st) && k < |st.nodes| && PathsOk(q, st.nodes, st.paths[k := path])
    ensures Kept(q, st, st.nodes[k].dist, Go, SetPath(st, k, path))
  {
  }

  lemma SetTwice(st: State, k: nat, a: DrPath, b: DrPath)
    requires k < |st.paths|
    ensures SetPath(SetPath(st, k, a), k, b) == SetPath(st, k, b)
  {
  }

  function Added(st: State, k: nat, m: Node, ext: DrPath): State
    requires |st.table| == HTSZ && |st.layers| == MAXHOPS && 0 <= m.dist < MAXHOPS && k < |st.paths|
    requires PathSized(ext) && ext.cnt > 0
  {
    SetPath(AddNode(SetPath(st, k, ext), m, ext), k, Shorten(ext))
  }

  lemma AddedFields(st: State, k: nat, m: Node, ext: DrPath)
    requires |st.table| == HTSZ && |st.layers| == MAXHOPS && 0 <= m.dist < MAXHOPS && k < |st.paths|
    requires PathSized(ext) && ext.cnt > 0
    ensures
      var more := Added(st, k, m, ext);
      && more.nodes == st.nodes + [m]
      && more.paths == (st.paths[k := ext] + [ext])[k := Shorten(ext)]
      && more.table == st.table[Hash(m.guid) := [|st.nodes|] + st.table[Hash(m.guid)]]
      && more.layers == st.layers[m.dist := [|st.nodes|] + st.layers[m.dist]]
  {
  }

  lemma AddKeeps(q: Query, st: State, k: nat, m: Node, ext: DrPath)
    requires StateOk(q, st) && k < |st.nodes| && PathSized(ext) && ext.cnt > 0
    requires 0 <= st.nodes[k].dist < MAXHOPS - 1 && m.dist == st.nodes[k].dist + 1
    requires NodesOk(q, st.nodes + [m])
    requires PathsOk(q, st.nodes + [m], (st.paths[k := ext] + [ext])[k := Shorten(ext)])
    ensures Kept(q, st, st.nodes[k].dist, Go, Added(st, k, m, ext))
  {
    AddedFields(st, k, m, ext);
    TableMore(st.nodes, st.table, m);
    LayersMore(st.nodes, st.layers, m);
  }

  /** What a step over port i of node k establishes. */
  ghost predicate StepKept(q: Query, st: State, k: nat, i: nat, o: Outcome, more: State)
    requires k < |st.nodes|
  {
    Kept(q, st, st.nodes[k].dist, o, more) && (o.Go? ==> PortCovered(q, more.nodes, st.nodes[k], i))
  }

  lemma StepBack(q: Query, st: State, k: nat, i: nat, ext: DrPath)
    requires StateOk(q, st) && Stepping(q, st.nodes, st.paths, k, i, ext)
    requires
      var far := GetNode(q.f, q.root, ext);
      far.None? || (far.value.portGuid != q.target && KnownGuid(st.nodes, far.value.guid))
    ensures StepKept(q, st, k, i, Go, SetPath(st, k, Shorten(ext)))
  {
    var far := GetNode(q.f, q.root, ext);
    if far.None? {
      SteppedNowhere(q, st.nodes, st.paths, k, i, ext);
    } else {
      var j :| 0 <= j < |st.nodes| && st.nodes[j].guid == far.value.guid;
      SteppedToKnown(q, st.nodes, st.paths, k, i, ext, far.value, j);
    }
    BackKeeps(q, st, k, Shorten(ext));
  }

  lemma StepNew(q: Query, st: State, k: nat, i: nat, ext: DrPath, r: Reading)
    requires StateOk(q, st) && Stepping(q, st.nodes, st.paths, k, i, ext) && st.nodes[k].dist < MAXHOPS - 1
    requires GetNode(q.f, q.root, ext) == Some(r) && r.portGuid != q.target && !KnownGuid(st.nodes, r.guid)
    ensures
      var m := NodeRead(r, k, st.nodes[k].dist + 1, i);
      StepKept(q, st, k, i, Go, Added(st, k, m, ext))
  {
    var m := NodeRead(r, k, st.nodes[k].dist + 1, i);
    SteppedToNew(q, st.nodes, st.paths, k, i, ext, r);
    AddKeeps(q, st, k, m, ext);
    AddedFields(st, k, m, ext);
  }

  lemma StepHit(q: Query, st: State, k: nat, i: nat, ext: DrPath, r: Reading)
    requires StateOk(q, st) && Stepping(q, st.nodes, st.paths, k, i, ext)
    requires GetNode(q.f, q.root, ext) == Some(r) && r.portGuid == q.target
    ensures StepKept(q, st, k, i, Hit(NodeRead(r, k, -1, i)), SetPath(st, k, ext))
  {
    SteppedToTarget(q, st.nodes, st.paths, k, i, ext, r);
  }

  /** What a step does when nobody answers or the node is known, ... */
  lemma StepOverBack(q: Query, st: State, k: nat, i: nat, ext: DrPath)
    requires Shaped(st) && k < |st.nodes| && ExtendPath(st.paths[k], i) == Some(ext)
    requires
      var far := GetNode(q.f, q.root, ext);
      far.None? || (far.value.portGuid != q.target && KnownGuid(st.nodes, far.value.guid))
    ensures StepOver(q, st, k, i, ext) == (Go, SetPath(st, k, Shorten(ext)))
  {
    SetTwice(st, k, ext, Shorten(ext));
  }

  /** ... when the target answers, ... */
  lemma StepOverHit(q: Query, st: State, k: nat, i: nat, ext: DrPath, r: Reading)
    requires Shaped(st) && k < |st.nodes| && ExtendPath(st.paths[k], i) == Some(ext)
    requires GetNode(q.f, q.root, ext) == Some(r) && r.portGuid == q.target
    ensures StepOver(q, st, k, i, ext) == (Hit(NodeRead(r, k, -1, i)), SetPath(st, k, ext))
  {
  }

  /** ... and when a new node does. */
  lemma StepOverNew(q: Query, st: State, k: nat, i: nat, ext: DrPath, r: Reading)
    requires Shaped(st) && k < |st.nodes| && ExtendPath(st.paths[k], i) == Some(ext)
    requires GetNode(q.f, q.root, ext) == Some(r) && r.portGuid != q.target && !KnownGuid(st.nodes, r.guid)
    ensures st.nodes[k].dist < MAXHOPS - 1
    ensures StepOver(q, st, k, i, ext) == (Go, Added(st, k, NodeRead(r, k, st.nodes[k].dist + 1, i), ext))
  {
    assert 0 <= st.nodes[k].dist <= st.paths[k].cnt;
  }

  lemma StepKeeps(q: Query, st: State, k: nat, i: nat, ext: DrPath)
    requires StateOk(q, st) && Shaped(st) && Stepping(q, st.nodes, st.paths, k, i, ext)
    ensures
      var (o, more) := StepOver(q, st, k, i, ext);
      StepKept(q, st, k, i, o, more)
  {
    var far := GetNode(q.f, q.root, ext);
    if far.None? || (far.value.portGuid != q.target && KnownGuid(st.nodes, far.value.guid)) {
      StepOverBack(q, st, k, i, ext);
      StepBack(q, st, k, i, ext);
    } else if far.value.portGuid == q.target {
      StepOverHit(q, st, k, i, ext, far.value);
      StepHit(q, st, k, i, ext, far.value);
    } else {
      StepOverNew(q, st, k, i, ext, far.value);
      StepNew(q, st, k, i, ext, far.value);
    }
  }

  lemma TryPortKeeps(q: Query, st: State, k: nat, i: nat)
    requires StateOk(q, st) && Shaped(st) && k < |st.nodes| && Outgoing(q, st.nodes[k].guid, i)
    requires Within(st.nodes, st.nodes[k].dist + 1)
    ensures
      var (o, more) := TryPort(q, st, k, i);
      StepKept(q, st, k, i, o, more)
  {
    var path := st.paths[k];
    assert PathOk(q, st.nodes[k], path);
    var port := GetPort(q.f, q.root, path, i);
    if port.None? {
      assert UnreadablePort(q, st.nodes[k].guid, i);
    } else if port.value.physState == LINK_UP && ExtendPath(path, i).Some? {
      StepKeeps(q, st, k, i, ExtendPath(path, i).value);
    }
  }

  lemma KeptTrans(q: Query, st: State, d: int, one: State, o: Outcome, two: State)
    requires Kept(q, st, d, Go, one) && Kept(q, one, d, o, two)
    ensures Kept(q, st, d, o, two)
    ensures Within(st.nodes, d + 1) ==> Within(one.nodes, d + 1)
  {
  }

  lemma PortCoveredGrows(q: Query, nodes: seq<Node>, more: seq<Node>, n: Node, i: nat)
    requires Asked(q) && nodes <= more && PortCovered(q, nodes, n, i)
    ensures PortCovered(q, more, n, i)
  {
    forall hop | McEdge(q, n.guid, hop) && hop.out == i ensures HopCovered(q, more, n.dist, hop) {
      HopCoveredGrows(q, nodes, more, n.dist, hop);
    }
  }

  /** The port loop of node k has reached port i. */
  ghost predicate AtPort(q: Query, st: State, k: nat, ports: seq<bool>, i: nat) {
    && StateOk(q, st)
    && Shaped(st)
    && k < |st.nodes|
    && i >= 1
    && Within(st.nodes, st.nodes[k].dist + 1)
    && Looked(q, st.nodes[k], ports)
    && CoveredUpTo(q, st.nodes, st.nodes[k], i)
  }

  /** These are the ports that node n sends by. */
  ghost predicate Looked(q: Query, n: Node, ports: seq<bool>)
    requires Asked(q)
  {
    && n.guid in q.f.stations
    && var station := q.f.stations[n.guid];
    && n.kind == station.kind
    && n.numPorts == station.numPorts
    && |ports| == 256
    && forall p :: 1 <= p <= n.numPorts && p < 256 ==> (ports[p] <==> Outgoing(q, n.guid, p))
  }

  ghost predicate CoveredUpTo(q: Query, nodes: seq<Node>, n: Node, i: nat)
    requires Asked(q)
  {
    forall p :: 1 <= p < i ==> PortCovered(q, nodes, n, p)
  }

  lemma PortsDone(q: Query, nodes: seq<Node>, n: Node, i: nat)
    requires Asked(q) && CoveredUpTo(q, nodes, n, i)
    requires n.guid in q.f.stations && i > q.f.stations[n.guid].numPorts
    ensures Covered(q, nodes, n)
  {
    forall hop | McEdge(q, n.guid, hop) ensures HopCovered(q, nodes, n.dist, hop) {
      assert PortCovered(q, nodes, n, hop.out);
    }
    forall p | UnreadablePort(q, n.guid, p) ensures p == n.upPort {
      assert PortCovered(q, nodes, n, p);
    }
  }

  /** A port outside the group has no edge; the up port leads back. */
  lemma PortSkipped(q: Query, st: State, k: nat, ports: seq<bool>, i: nat)
    requires AtPort(q, st, k, ports, i) && i <= st.nodes[k].numPorts && (!ports[i] || i == st.nodes[k].upPort)
    ensures AtPort(q, st, k, ports, i + 1)
  {
    var n := st.nodes[k];
    forall hop | McEdge(q, n.guid, hop) && hop.out == i ensures HopCovered(q, st.nodes, n.dist, hop) {
      UpPortCovered(q, st.nodes, k, hop);
    }
    assert PortCovered(q, st.nodes, n, i);
  }

  lemma PortOutgoing(q: Query, st: State, k: nat, ports: seq<bool>, i: nat)
    requires AtPort(q, st, k, ports, i) && i <= st.nodes[k].numPorts && ports[i]
    ensures Outgoing(q, st.nodes[k].guid, i)
  {
  }

  lemma PortTried(q: Query, st: State, k: nat, ports: seq<bool>, i: nat, more: State)
    requires AtPort(q, st, k, ports, i) && Shaped(more) && StepKept(q, st, k, i, Go, more)
    ensures AtPort(q, more, k, ports, i + 1) && more.nodes[k] == st.nodes[k]
  {
    var n := st.nodes[k];
    forall p | 1 <= p < i + 1 ensures PortCovered(q, more.nodes, n, p) {
      if p < i {
        PortCoveredGrows(q, st.nodes, more.nodes, n, p);
      }
    }
  }

  /** A node's attributes are those of its station, which its direct route leads to. */
  lemma NodeStation(q: Query, st: State, k: nat)
    requires StateOk(q, st) && Shaped(st) && k < |st.nodes|
    ensures
      var n := st.nodes[k];
      && n.guid in q.f.stations
      && n.kind == q.f.stations[n.guid].kind
      && n.numPorts == q.f.stations[n.guid].numPorts
      && StationAt(q.f, q.root, st.paths[k]) == Some(q.f.stations[n.guid])
  {
    assert PathOk(q, st.nodes[k], st.paths[k]);
    assert k > 0 ==> NodeOk(q, st.nodes, st.nodes[k]);
  }

  lemma KeptSame(q: Query, st: State, d: int)
    requires StateOk(q, st)
    ensures Kept(q, st, d, Go, st)
  {
  }

  /** The start of the search is its only node in the first layer. */
  lemma OneStart(q: Query, st: State, k: nat)
    requires StateOk(q, st) && k < |st.nodes|
    ensures st.nodes[k].dist == 0 ==> AtStart(q, st.nodes[k].guid)
    ensures st.nodes[k].dist > 0 ==> forall p :: !Sends(q, st.nodes[k].guid, p)
  {
    if k > 0 {
      assert NodeOk(q, st.nodes, st.nodes[k]);
    }
  }

  /** Nodes that forward nothing are covered as they are. */
  lemma NotExpanded(q: Query, nodes: seq<Node>, n: Node)
    requires Asked(q) && n.guid in q.f.stations
    requires
      var st := q.f.stations[n.guid];
      if st.kind.Switch? then !Readable(st, q.mlid) else forall p :: !Sends(q, n.guid, p)
    ensures Covered(q, nodes, n)
  {
  }

  lemma CoveredBelowGrows(q: Query, d: int, nodes: seq<Node>, more: seq<Node>)
    requires Asked(q) && CoveredBelow(q, nodes, d) && GrownNodes(d, nodes, more)
    ensures CoveredBelow(q, more, d)
  {
    forall k | 0 <= k < |more| && more[k].dist < d ensures Covered(q, more, more[k]) {
      CoveredGrows(q, nodes, more, nodes[k]);
    }
  }

  /** Once every node of layer d is covered, everything down to it is. */
  lemma LayerDone(q: Query, d: int, st: State, more: State)
    requires Asked(q) && LayersOk(st.nodes, st.layers) && 0 <= d < MAXHOPS
    requires CoveredBelow(q, st.nodes, d) && GrownNodes(d, st.nodes, more.nodes)
    requires forall j :: 0 <= j < |st.layers[d]| ==> Covered(q, more.nodes, st.nodes[st.layers[d][j]])
    ensures CoveredBelow(q, more.nodes, d + 1)
  {
    CoveredBelowGrows(q, d, st.nodes, more.nodes);
    forall k | 0 <= k < |more.nodes| && more.nodes[k].dist == d ensures Covered(q, more.nodes, more.nodes[k]) {
      assert k < |st.nodes| && k in st.layers[d];
    }
  }

  /** The first j nodes of a layer are covered. */
  ghost predicate CoveredSoFar(q: Query, nodes: seq<Node>, st: State, layer: seq<nat>, j: nat)
    requires Asked(q)
  {
    && j <= |layer|
    && (forall i :: 0 <= i < |layer| ==> layer[i] < |st.nodes|)
    && (forall i :: 0 <= i < j ==> Covered(q, nodes, st.nodes[layer[i]]))
  }

  lemma CoveredOneMore(q: Query, nodes: seq<Node>, more: seq<Node>, st: State, layer: seq<nat>, j: nat)
    requires Asked(q) && nodes <= more && CoveredSoFar(q, nodes, st, layer, j)
    requires j < |layer| && Covered(q, more, st.nodes[layer[j]])
    ensures CoveredSoFar(q, more, st, layer, j + 1)
  {
    forall i | 0 <= i < j ensures Covered(q, more, st.nodes[layer[i]]) {
      CoveredGrows(q, nodes, more, st.nodes[layer[i]]);
    }
  }

  // ---------------------------------------------------------------- the answers

  /** The route found is a route of the group to the target, and none is shorter. */
  lemma HitIsShortest(q: Query, nodes: seq<Node>, d: int, n: Node)
    requires Asked(q) && NodesOk(q, nodes) && CoveredBelow(q, nodes, d) && Stopped(q, nodes, d, Hit(n))
    ensures Delivers(q, nodes[0].guid, RouteOf(nodes, n)) && |RouteOf(nodes, n)| == d + 1
    ensures forall hops :: Delivers(q, nodes[0].guid, hops) ==> |RouteOf(nodes, n)| <= |hops|
  {
    var u := n.upNode.value;
    RouteOfNode(q, nodes, u);
    var route := RouteOf(nodes, n);
    assert route[..|route| - 1] == RouteOf(nodes, nodes[u]);
    NoShorter(q, nodes, d);
  }

  lemma NoShorter(q: Query, nodes: seq<Node>, d: int)
    requires Asked(q) && NodesOk(q, nodes) && CoveredBelow(q, nodes, d)
    ensures forall hops :: Delivers(q, nodes[0].guid, hops) ==> |hops| > d
  {
    forall hops | Delivers(q, nodes[0].guid, hops) ensures |hops| > d {
      if |hops| <= d {
        RoutesCovered(q, nodes, d, hops);
      }
    }
  }

  /** When every node is covered there is no route at all. */
  lemma NoneLeft(q: Query, nodes: seq<Node>, d: int)
    requires Asked(q) && NodesOk(q, nodes) && CoveredBelow(q, nodes, d) && Within(nodes, d - 1)
    ensures forall hops :: !Delivers(q, nodes[0].guid, hops)
  {
    forall hops ensures !Delivers(q, nodes[0].guid, hops) {
      var e := if |hops| < d then d else |hops|;
      assert CoveredBelow(q, nodes, e);
      if McRoute(q, nodes[0].guid, hops) {
        RoutesCovered(q, nodes, e, hops);
      }
    }
  }

  lemma AllRead(q: Query, nodes: seq<Node>, d: int)
    requires Asked(q) && NodesOk(q, nodes) && CoveredBelow(q, nodes, d) && Within(nodes, d - 1)
    ensures forall e :: ReadBelow(q, nodes[0].guid, e)
  {
    forall e ensures ReadBelow(q, nodes[0].guid, e) {
      assert CoveredBelow(q, nodes, e);
      AllReadBelow(q, nodes, e);
    }
  }

  const NO_STATE := State([], [], seq(HTSZ, i => []), seq(MAXHOPS, i => []))

  /** The node at the start of a search. */
  function StartNode(r: Reading): Node {
    Node(r.guid, r.kind, r.numPorts, 0, None, 0, 0)
  }

  lemma StartTables(q: Query, m: Node, st: State)
    requires m.dist == 0 && st == AddNode(NO_STATE, m, q.from)
    ensures st.nodes == [m] && st.paths == [q.from] && TableOk([m], st.table) && LayersOk([m], st.layers)
  {
    assert [] + [m] == [m];
    TableMore([], seq(HTSZ, i => []), m);
    LayersMore([], seq(MAXHOPS, i => []), m);
  }

  /** A search begins at a node that is not itself the target. */
  lemma StartOk(q: Query, r: Reading, st: State)
    requires Asked(q) && GetNode(q.f, q.root, q.from) == Some(r) && r.portGuid != q.target
    requires st == AddNode(NO_STATE, StartNode(r), q.from)
    ensures StateOk(q, st) && CoveredBelow(q, st.nodes, 0) && Within(st.nodes, 0)
  {
    StartTables(q, StartNode(r), st);
    StartSearch(q, r, StartNode(r));
  }

  lemma StartSearch(q: Query, r: Reading, m: Node)
    requires Asked(q) && GetNode(q.f, q.root, q.from) == Some(r) && r.portGuid != q.target
    requires m == StartNode(r)
    ensures SearchOk(q, [m], [q.from])
  {
    assert PathOk(q, m, q.from);
    assert r.kind.Switch? ==> (AtTarget(q, End(r.guid, 0)) <==> r.portGuid == q.target);
  }

  datatype Answer = Traced(node: Node) | NoRoute | NoStart | NotMember | NotSupported | PortUnreadable | PathTooLong

  /** No route of less than d hops leads to a port that cannot be read, unless a route arrives by it. */
  ghost predicate ReadBelow(q: Query, start: Guid, d: int)
    requires Asked(q)
  {
    forall hops, i :: McRoute(q, start, hops) && |hops| < d && UnreadablePort(q, Last(start, hops), i) ==>
      ArrivesBy(q, start, Last(start, hops), i)
  }

  lemma AllReadBelow(q: Query, nodes: seq<Node>, d: int)
    requires Asked(q) && NodesOk(q, nodes) && CoveredBelow(q, nodes, d)
    ensures ReadBelow(q, nodes[0].guid, d)
  {
    forall hops, i | McRoute(q, nodes[0].guid, hops) && |hops| < d && UnreadablePort(q, Last(nodes[0].guid, hops), i)
      ensures ArrivesBy(q, nodes[0].guid, Last(nodes[0].guid, hops), i)
    {
      UnreadableSkipped(q, nodes, d, hops, i);
    }
  }

  /** What each answer says about the routes of the group from the start. */
  ghost predicate Answers(q: Query, nodes: seq<Node>, a: Answer)
    requires nodes != []
  {
    Asked(q) &&
    var start := nodes[0].guid;
    match a
    case Traced(n) =>
      && UpLinks(nodes) && UpLink(n, |nodes|)
      && Delivers(q, start, RouteOf(nodes, n))
      && (forall hops :: Delivers(q, start, hops) ==> |RouteOf(nodes, n)| <= |hops|)
      && ReadBelow(q, start, |RouteOf(nodes, n)| - 1)
    case NoRoute => (forall hops :: !Delivers(q, start, hops)) && forall d :: ReadBelow(q, start, d)
    case PathTooLong =>
      && (forall hops :: Delivers(q, start, hops) ==> q.from.cnt + |hops| >= 63)
      && ReadBelow(q, start, 62 - q.from.cnt)
    case PortUnreadable =>
      exists hops, i ::
        && McRoute(q, start, hops)
        && UnreadablePort(q, Last(start, hops), i)
        && (forall others :: Delivers(q, start, others) ==> |others| > |hops|)
        && ReadBelow(q, start, |hops|)
    case NoStart => false
    case NotMember => false
    case NotSupported => false
  }

  /** When nothing is missed the answer is about the tables: the route found is a shortest of theirs, and
      no route means that they have none. */
  lemma AnswersByTable(q: Query, nodes: seq<Node>, a: Answer)
    requires nodes != [] && Answers(q, nodes, a) && NothingMissed(q, nodes[0].guid)
    ensures a.Traced? ==>
      && TableDelivers(q, nodes[0].guid, RouteOf(nodes, a.node))
      && forall hops :: TableDelivers(q, nodes[0].guid, hops) ==> |RouteOf(nodes, a.node)| <= |hops|
    ensures a.NoRoute? ==> forall hops :: !TableDelivers(q, nodes[0].guid, hops)
  {
    forall hops ensures TableDelivers(q, nodes[0].guid, hops) <==> Delivers(q, nodes[0].guid, hops) {
      RouteByTable(q, nodes[0].guid, hops);
    }
  }

  /** What the search reports when it stops early. */
  function AnswerOf(o: Outcome): Answer
    requires !o.Go?
  {
    match o
    case Hit(n) => Traced(n)
    case TooLong => PathTooLong
    case Unreadable => PortUnreadable
  }

  lemma StoppedAnswers(q: Query, nodes: seq<Node>, d: int, o: Outcome)
    requires Asked(q) && NodesOk(q, nodes) && CoveredBelow(q, nodes, d) && Stopped(q, nodes, d, o) && !o.Go?
    ensures Answers(q, nodes, AnswerOf(o))
  {
    AllReadBelow(q, nodes, d);
    match o
    case Hit(n) => HitIsShortest(q, nodes, d, n);
    case TooLong => NoShorter(q, nodes, d);
    case Unreadable => UnreadableOnRoute(q, nodes, d);
  }

  lemma UnreadableOnRoute(q: Query, nodes: seq<Node>, d: int)
    requires Asked(q) && NodesOk(q, nodes) && CoveredBelow(q, nodes, d) && Stopped(q, nodes, d, Unreadable)
    ensures Answers(q, nodes, PortUnreadable)
  {
    AllReadBelow(q, nodes, d);
    NoShorter(q, nodes, d);
    var k, i :| 0 <= k < |nodes| && nodes[k].dist == d && UnreadablePort(q, nodes[k].guid, i);
    RouteOfNode(q, nodes, k);
    assert UnreadablePort(q, Last(nodes[0].guid, RouteOf(nodes, nodes[k])), i);
  }

  /** The port by which the start was read. */
  ghost predicate StartsBy(q: Query, port: nat) {
    && Asked(q)
    && var r := GetNode(q.f, q.root, q.from);
    r.Some? && r.value.portNum == port
  }

  class Search {
    const q: Query
    var nodes: seq<Node>
    var paths: seq<DrPath>
    var table: seq<seq<nat>>
    var layers: seq<seq<nat>>

    constructor (q: Query)
      ensures this.q == q && St() == NO_STATE
    {
      this.q := q;
      nodes, paths := [], [];
      table, layers := seq(HTSZ, i => []), seq(MAXHOPS, i => []);
    }

    function St(): State
      reads this
    {
      State(nodes, paths, table, layers)
    }

    /** `insert_node`: refuse a GUID that is already in its bucket. */
    method InsertNode(n: Node) returns (known: bool)
      requires TableOk(nodes, table)
      modifies this`nodes, this`table
      ensures known <==> KnownGuid(old(nodes), n.guid)
      ensures known ==> nodes == old(nodes) && table == old(table)
      ensures !known ==> nodes == old(nodes) + [n]
      ensures !known ==> table == old(table)[Hash(n.guid) := [|old(nodes)|] + old(table)[Hash(n.guid)]]
    {
      var h := Hash(n.guid);
      var bucket := table[h];
      var i := 0;
      while i < |bucket|
        invariant 0 <= i <= |bucket|
        invariant forall j :: 0 <= j < i ==> bucket[j] < |nodes| && nodes[bucket[j]].guid != n.guid
      {
        if nodes[bucket[i]].guid == n.guid {
          return true;
        }
        i := i + 1;
      }
      forall k | 0 <= k < |nodes| ensures nodes[k].guid != n.guid {
        assert k in table[Hash(nodes[k].guid)];
      }
      table := table[h := [|nodes|] + table[h]];
      nodes := nodes + [n];
      known := false;
    }

    method LinkNode(n: Node, portGuid: Guid, path: DrPath) returns (r: int)
      requires TableOk(nodes, table) && |layers| == MAXHOPS && 0 <= n.dist < MAXHOPS
      modifies this
      ensures (r, St()) == NewNode(q, old(St()), n, portGuid, path)
    {
      if portGuid == q.target {
        return 1;
      }
      var known := InsertNode(n);
      if known {
        return -1;
      }
      paths := paths + [path];
      layers := layers[n.dist := [|nodes| - 1] + layers[n.dist]];
      r := 0;
    }

    method VisitPort(k: nat, i: nat) returns (o: Outcome)
      requires Asked(q) && Shaped(St()) && TableOk(nodes, table) && k < |nodes|
      modifies this
      ensures (o, St()) == TryPort(q, old(St()), k, i)
    {
      var port := GetPort(q.f, q.root, paths[k], i);
      if port.None? {
        return Unreadable;
      }
      if port.value.physState != LINK_UP {
        return Go;
      }
      var ext := ExtendPath(paths[k], i);
      if ext.None? {
        return TooLong;
      }
      o := CrossLink(k, i, ext.value);
    }

    /** Over the link, look, and back. */
    method CrossLink(k: nat, i: nat, ext: DrPath) returns (o: Outcome)
      requires Asked(q) && Shaped(St()) && TableOk(nodes, table) && k < |nodes| && ExtendPath(paths[k], i) == Some(ext)
      modifies this
      ensures (o, St()) == StepOver(q, old(St()), k, i, ext)
    {
      paths := paths[k := ext];
      var far := GetNode(q.f, q.root, paths[k]);
      if far.None? {
        paths := paths[k := Shorten(paths[k])];
        return Go;
      }
      var m := NodeRead(far.value, k, nodes[k].dist + 1, i);
      var r := LinkNode(m, far.value.portGuid, paths[k]);
      if r == 1 {
        return Hit(m.(dist := -1));
      }
      paths := paths[k := Shorten(paths[k])];
      o := Go;
    }

    /** The port loop of one node. */
    method VisitPorts(k: nat, ports: seq<bool>) returns (o: Outcome)
      requires AtPort(q, St(), k, ports, 1)
      modifies this
      ensures Kept(q, old(St()), old(nodes)[k].dist, o, St())
      ensures o.Go? ==> Covered(q, nodes, old(nodes)[k])
    {
      ghost var start, n := St(), nodes[k];
      KeptSame(q, start, n.dist);
      var i := 1;
      while i <= nodes[k].numPorts
        invariant AtPort(q, St(), k, ports, i) && nodes[k] == n
        invariant Kept(q, start, n.dist, Go, St())
        decreases n.numPorts + 1 - i
      {
        ghost var before := St();
        if !ports[i] || i == nodes[k].upPort {
          PortSkipped(q, before, k, ports, i);
        } else {
          PortOutgoing(q, before, k, ports, i);
          TryPortKeeps(q, before, k, i);
          o := VisitPort(k, i);
          KeptTrans(q, start, n.dist, before, o, St());
          if !o.Go? {
            return;
          }
          PortTried(q, before, k, ports, i, St());
        }
        i := i + 1;
      }
      PortsDone(q, nodes, n, i);
      o := Go;
    }

    /** The body of the node loop: the start if it is an end node, and switches whose table can be read, are
        expanded. */
    method ExpandNode(k: nat, startPort: nat) returns (o: Outcome)
      requires StateOk(q, St()) && k < |nodes| && Within(nodes, nodes[k].dist + 1) && StartsBy(q, startPort)
      modifies this
      ensures Kept(q, old(St()), old(nodes)[k].dist, o, St())
      ensures o.Go? ==> Covered(q, nodes, old(nodes)[k])
    {
      OkShaped(q, St());
      NodeStation(q, St(), k);
      OneStart(q, St(), k);
      KeptSame(q, St(), nodes[k].dist);
      var ports: seq<bool>;
      if !nodes[k].kind.Switch? {
        if nodes[k].dist > 0 {
          NotExpanded(q, nodes, nodes[k]);
          return Go;
        }
        ports := seq(256, p => p == startPort);
      } else {
        var ok;
        ok, ports := SwitchMcLookup(StationAt(q.f, q.root, paths[k]).value, q.mlid);
        if !ok {
          NotExpanded(q, nodes, nodes[k]);
          return Go;
        }
      }
      o := VisitPorts(k, ports);
    }

    method ExpandLayer(d: nat, startPort: nat) returns (o: Outcome)
      requires StartsBy(q, startPort) && StateOk(q, St()) && d < MAXHOPS && CoveredBelow(q, nodes, d) && Within(nodes, d)
      modifies this
      ensures Kept(q, old(St()), d, o, St()) && CoveredBelow(q, nodes, d)
      ensures o.Go? ==> CoveredBelow(q, nodes, d + 1) && Within(nodes, d + 1)
    {
      ghost var start := St();
      KeptSame(q, start, d);
      var layer := layers[d];
      var j := 0;
      while j < |layer|
        invariant j <= |layer| && CoveredSoFar(q, nodes, start, layer, j)
        invariant StateOk(q, St()) && Kept(q, start, d, Go, St()) && Within(nodes, d + 1)
      {
        ghost var before := St();
        assert nodes[layer[j]] == start.nodes[layer[j]];
        o := ExpandNode(layer[j], startPort);
        KeptTrans(q, start, d, before, o, St());
        if !o.Go? {
          CoveredBelowGrows(q, d, start.nodes, nodes);
          return;
        }
        CoveredOneMore(q, before.nodes, nodes, start, layer, j);
        j := j + 1;
      }
      LayerDone(q, d, start, St());
      CoveredBelowGrows(q, d, start.nodes, nodes);
      o := Go;
    }

    /** The layer loop. The answer is about all routes of the group from the start. */
    method ExpandLayers(startPort: nat) returns (a: Answer)
      requires StartsBy(q, startPort) && StateOk(q, St()) && CoveredBelow(q, nodes, 0) && Within(nodes, 0)
      modifies this
      ensures nodes != [] && nodes[0] == old(nodes)[0] && Answers(q, nodes, a)
    {
      var d := 0;
      while d < MAXHOPS
        invariant 0 <= d <= MAXHOPS && StateOk(q, St()) && nodes[0] == old(nodes)[0]
        invariant CoveredBelow(q, nodes, d) && Within(nodes, d)
        invariant d == MAXHOPS ==> Within(nodes, d - 1)
      {
        ghost var first := nodes[0];
        var o := ExpandLayer(d, startPort);
        assert nodes[0] == first;
        if !o.Go? {
          StoppedAnswers(q, nodes, d, o);
          return AnswerOf(o);
        }
        d := d + 1;
      }
      NoneLeft(q, nodes, d);
      AllRead(q, nodes, d);
      a := NoRoute;
    }

    /** `find_mcpath`, unless it starts at an end node that is named by a direct route of some hops. */
    method FindMcPath() returns (a: Answer)
      requires Asked(q) && St() == NO_STATE
      requires
        var r := GetNode(q.f, q.root, q.from);
        r.Some? && !r.value.kind.Switch? ==> q.from.p[q.from.cnt] == 0
      modifies this
      ensures
        var r := GetNode(q.f, q.root, q.from);
        if r.None? then a == NoStart
        else if r.value.portGuid == q.target then
          if !r.value.kind.Switch? then a == NotSupported
          else if Readable(q.f.stations[r.value.guid], q.mlid) && Forwards(q.f.stations[r.value.guid], q.mlid, 0)
          then a == Traced(StartNode(r.value).(dist := -1)) else a == NotMember
        else nodes != [] && nodes[0] == StartNode(r.value) && Answers(q, nodes, a)
    {
      var r := GetNode(q.f, q.root, q.from);
      if r.None? {
        return NoStart;
      }
      var start := StartNode(r.value);
      var s := LinkNode(start, r.value.portGuid, q.from);
      if s == 1 {
        if !start.kind.Switch? {
          return NotSupported;
        }
        var ok, ports := SwitchMcLookup(q.f.stations[start.guid], q.mlid);
        return if ok && ports[0] then Traced(start.(dist := -1)) else NotMember;
      }
      StartOk(q, r.value, St());
      a := ExpandLayers(r.value.portNum);
    }
  }
}
