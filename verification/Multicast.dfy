/** Multicast tracing in ibtracert: `switch_mclookup`, the visited table and the layered
    search of `find_mcpath`. */
module Multicast {
  import opened Common
  import opened Fabric
  import opened Shifts

  const HTSZ := 137
  const MCAST_LID_BASE := 0xc000
  const LINK_UP := 5

  // ---------------------------------------------------------------- forwarding

  function Bit(mask: nat, i: nat): bool {
    if i == 0 then mask % 2 == 1 else Bit(mask / 2, i - 1)
  }

  /** The mask of the members of s from base on, n bits wide: the sum of their powers of two. */
  ghost function Mask(s: set<nat>, base: nat, n: nat): (m: nat)
    ensures m < Pow2(n)
  {
    if n == 0 then 0 else Mask(s, base, n - 1) + if base + n - 1 in s then Pow2(n - 1) else 0
  }

  lemma {:induction false} BitAdded(m: nat, n: nat, i: nat)
    requires m < Pow2(n)
    ensures Bit(m + Pow2(n), i) <==> i == n || Bit(m, i)
    ensures i >= n ==> !Bit(m, i)
    decreases n
  {
    if n == 0 {
      assert i > 0 ==> Bit(m, i) == Bit(m / 2, i - 1) && Bit(m + 1, i) == Bit((m + 1) / 2, i - 1);
      NoBit(i);
    } else if i > 0 {
      BitAdded(m / 2, n - 1, i - 1);
      assert (m + Pow2(n)) / 2 == m / 2 + Pow2(n - 1);
    }
  }

  lemma {:induction false} NoBit(i: nat)
    ensures !Bit(0, i)
  {
    if i > 0 {
      NoBit(i - 1);
    }
  }

  /** A mask has the bits of its members. */
  lemma {:induction false} MaskBits(s: set<nat>, base: nat, n: nat, i: nat)
    ensures Bit(Mask(s, base, n), i) <==> i < n && base + i in s
  {
    if n == 0 {
      NoBit(i);
    } else {
      MaskBits(s, base, n - 1, i);
      BitAdded(Mask(s, base, n - 1), n - 1, i);
    }
  }

  /** The sets of 16 ports that `switch_mclookup` reads. */
  function SetCount(st: Station): nat {
    (st.numPorts + 15) / 16
  }

  /** Every query of the lookup is answered. */
  predicate Readable(st: Station, mlid: nat)
    requires mlid >= MCAST_LID_BASE
  {
    var m := mlid - MCAST_LID_BASE;
    && st.switchInfo.Some?
    && m < st.switchInfo.value.mcastCap
    && forall s :: 0 <= s < SetCount(st) ==> SetRead(st.switchInfo.value, m / 32, s)
  }

  predicate SetRead(si: SwitchInfo, block: nat, s: nat) {
    (block, s) in si.mcast
  }

  /** The multicast forwarding table has port p set for this group. */
  predicate InTable(st: Station, mlid: nat, p: nat)
    requires mlid >= MCAST_LID_BASE
  {
    var m := mlid - MCAST_LID_BASE;
    && st.switchInfo.Some?
    && (m / 32, p / 16) in st.switchInfo.value.mcast
    && |st.switchInfo.value.mcast[(m / 32, p / 16)]| == 32
    && Bit(st.switchInfo.value.mcast[(m / 32, p / 16)][m % 32], p % 16)
  }

  /** The blocks that can be read show these ports for each group, group 0 being LID 0xC000. */
  ghost predicate ShowsGroups(si: SwitchInfo, groups: seq<set<nat>>) {
    forall b, s :: (b, s) in si.mcast ==>
      && |si.mcast[(b, s)]| == 32
      && 32 * b + 32 <= |groups|
      && forall j :: 0 <= j < 32 ==> si.mcast[(b, s)][j] == Mask(groups[32 * b + j], 16 * s, 16)
  }

  ghost predicate InBlock(m: nat, b: nat, s: nat, p: nat) {
    32 * b <= m < 32 * b + 32 && 16 * s <= p < 16 * s + 16
  }

  /** A port is in the table of a group exactly when the block that has it can be read and shows it. */
  lemma InTableIs(st: Station, mlid: nat, p: nat, groups: seq<set<nat>>)
    requires mlid >= 0xc000 && st.switchInfo.Some? && ShowsGroups(st.switchInfo.value, groups)
    ensures InTable(st, mlid, p) <==>
      exists b: nat, s: nat :: InBlock(mlid - 0xc000, b, s, p) && (b, s) in st.switchInfo.value.mcast && p in groups[mlid - 0xc000]
  {
    var si, m := st.switchInfo.value, mlid - 0xc000;
    var b, s := m / 32, p / 16;
    assert InBlock(m, b, s, p);
    forall c: nat, t: nat | InBlock(m, c, t, p) ensures c == b && t == s {
    }
    if (b, s) in si.mcast {
      assert si.mcast[(b, s)][m - 32 * b] == Mask(groups[m], 16 * s, 16);
      MaskBits(groups[m], 16 * s, 16, p - 16 * s);
    }
  }

  /** What the lookup reports for port p. */
  predicate Forwards(st: Station, mlid: nat, p: nat)
    requires mlid >= MCAST_LID_BASE
  {
    p < 16 * SetCount(st) && InTable(st, mlid, p)
  }

  /** The lookup agrees with the table on every port of the switch exactly when the last port
      is not a multiple of 16, or is not in the group: the sets are counted for numPorts ports
      although they are numbered from 0. */
  lemma LookupMissesLastPort(st: Station, mlid: nat)
    requires mlid >= MCAST_LID_BASE
    ensures (forall p :: 0 <= p <= st.numPorts ==> (Forwards(st, mlid, p) <==> InTable(st, mlid, p)))
       <==> st.numPorts % 16 != 0 || !InTable(st, mlid, st.numPorts)
  {
    var n := st.numPorts;
    assert 16 * SetCount(st) == if n % 16 == 0 then n else n + 16 - n % 16;
    assert Forwards(st, mlid, n) <==> n % 16 != 0 && InTable(st, mlid, n);
  }

  /** A switch of 16 ports whose last one carries the group: every query is answered and the port is missed. */
  lemma LastPortMissed() returns (st: Station)
    ensures st.kind.Switch? && st.numPorts == 16 && Readable(st, MCAST_LID_BASE)
    ensures InTable(st, MCAST_LID_BASE, 16) && !Forwards(st, MCAST_LID_BASE, 16)
  {
    var row := seq(32, i => 1);
    st := Station(Switch, 16, map[], Some(SwitchInfo(0, 0, false, map[], 1, map[(0, 0) := row, (0, 1) := row])));
    assert (0, 1) in st.switchInfo.value.mcast && row[0] == 1;
  }

  /** The sets that are read are those that have a port below the number of ports. */
  lemma ReadableIs(st: Station, mlid: nat)
    requires mlid >= 0xc000
    ensures Readable(st, mlid) <==>
      && st.switchInfo.Some?
      && mlid - 0xc000 < st.switchInfo.value.mcastCap
      && forall s :: 0 <= s && 16 * s < st.numPorts ==> SetRead(st.switchInfo.value, (mlid - 0xc000) / 32, s)
  {
    if st.switchInfo.Some? {
      var si, block := st.switchInfo.value, (mlid - MCAST_LID_BASE) / 32;
      if s :| 0 <= s && 16 * s < st.numPorts && !SetRead(si, block, s) {
        assert s < SetCount(st);
        assert !Readable(st, mlid);
      } else {
        forall s | 0 <= s < SetCount(st) ensures SetRead(si, block, s) {
          assert 16 * s < st.numPorts;
        }
      }
    }
  }

  /** `switch_mclookup`. */
  method SwitchMcLookup(st: Station, mlid: nat) returns (ok: bool, ports: seq<bool>)
    requires mlid >= MCAST_LID_BASE && st.numPorts < 256
    requires st.switchInfo.Some? ==> BlocksSized(st.switchInfo.value)
    ensures ok <==> Readable(st, mlid)
    ensures ok <==>
      && st.switchInfo.Some?
      && mlid - 0xc000 < st.switchInfo.value.mcastCap
      && forall s :: 0 <= s && 16 * s < st.numPorts ==> SetRead(st.switchInfo.value, (mlid - 0xc000) / 32, s)
    ensures ok ==> |ports| == 256 && forall p :: 0 <= p < 256 ==> (ports[p] <==> Forwards(st, mlid, p))
  {
    ReadableIs(st, mlid);
    ports := seq(256, i => false);
    if st.switchInfo.None? {
      return false, ports;
    }
    var si := st.switchInfo.value;
    var m := mlid - MCAST_LID_BASE;
    if m >= si.mcastCap {
      return false, ports;
    }
    var block := m / 32;
    var maxSets := (st.numPorts + 15) / 16;
    for s := 0 to maxSets
      invariant |ports| == 256
      invariant forall t :: 0 <= t < s ==> SetRead(si, block, t)
      invariant forall p :: 0 <= p < 256 ==> (ports[p] <==> p < 16 * s && InTable(st, mlid, p))
    {
      if (block, s) !in si.mcast {
        assert 0 <= s < SetCount(st) && !SetRead(st.switchInfo.value, (mlid - MCAST_LID_BASE) / 32, s);
        return false, ports;
      }
      var msets := si.mcast[(block, s)];
      for i := 0 to 16
        invariant |ports| == 256
        invariant forall p :: 0 <= p < 256 ==> (ports[p] <==> p < 16 * s + i && InTable(st, mlid, p))
      {
        assert (16 * s + i) / 16 == s && (16 * s + i) % 16 == i;
        if Bit(msets[m % 32], i) {
          ports := ports[16 * s + i := true];
        }
      }
    }
    ok := true;
  }

  // ---------------------------------------------------------------- multicast routes

  /** What one run is asked: the group, the target port, and where it starts. */
  datatype Query = Query(f: Fabric, root: End, from: DrPath, mlid: nat, target: Guid)

  ghost predicate Asked(q: Query) {
    Sound(q.f) && PathSized(q.from) && q.mlid >= MCAST_LID_BASE
  }

  /** Leave by port `out`, arrive at port `inp` of station `guid`. */
  datatype Hop = Hop(out: nat, guid: Guid, inp: nat)

  /** The PortInfo of port p of g says that the link is up. */
  ghost predicate LinkUp(q: Query, g: Guid, p: nat) {
    g in q.f.stations && p in q.f.stations[g].ports && q.f.stations[g].ports[p].physState == 5
  }

  /** The start is an end node, which sends by its own port p. */
  ghost predicate Sends(q: Query, g: Guid, p: nat)
    requires Asked(q)
  {
    var r := GetNode(q.f, q.root, q.from);
    r.Some? && !r.value.kind.Switch? && g == r.value.guid && p == r.value.portNum
  }

  ghost predicate Outgoing(q: Query, g: Guid, p: nat)
    requires Asked(q)
  {
    && g in q.f.stations
    && 1 <= p <= q.f.stations[g].numPorts
    && var st := q.f.stations[g];
       if st.kind.Switch? then Readable(st, q.mlid) && Forwards(st, q.mlid, p) else Sends(q, g, p)
  }

  /** The switch or start g forwards the group over this hop, to a station that answers. */
  ghost predicate McEdge(q: Query, g: Guid, hop: Hop)
    requires Asked(q)
  {
    && Outgoing(q, g, hop.out)
    && LinkUp(q, g, hop.out)
    && End(g, hop.out) in q.f.links
    && q.f.links[End(g, hop.out)] == End(hop.guid, hop.inp)
    && Responds(q.f, End(hop.guid, hop.inp))
  }

  ghost predicate AtTarget(q: Query, e: End) {
    HasGuid(q.f, e, q.target)
  }

  function Last(g: Guid, hops: seq<Hop>): Guid {
    if hops == [] then g else hops[|hops| - 1].guid
  }

  /** A route the group takes from g. */
  ghost predicate McRoute(q: Query, g: Guid, hops: seq<Hop>)
    requires Asked(q)
  {
    hops == [] ||
    var front := hops[..|hops| - 1];
    McRoute(q, g, front) && McEdge(q, Last(g, front), hops[|hops| - 1])
  }

  /** ... and that arrives at the target port. */
  ghost predicate Delivers(q: Query, g: Guid, hops: seq<Hop>)
    requires Asked(q)
  {
    && hops != []
    && McRoute(q, g, hops)
    && AtTarget(q, End(hops[|hops| - 1].guid, hops[|hops| - 1].inp))
  }

  // ---------------------------------------------------------------- routes by the tables

  /** The table of switch g has this hop for the group, whether or not the lookup reports it. */
  ghost predicate TableEdge(q: Query, g: Guid, hop: Hop)
    requires Asked(q)
  {
    && g in q.f.stations
    && 1 <= hop.out <= q.f.stations[g].numPorts
    && (var st := q.f.stations[g];
        if st.kind.Switch? then Readable(st, q.mlid) && InTable(st, q.mlid, hop.out) else Sends(q, g, hop.out))
    && LinkUp(q, g, hop.out)
    && End(g, hop.out) in q.f.links
    && q.f.links[End(g, hop.out)] == End(hop.guid, hop.inp)
    && Responds(q.f, End(hop.guid, hop.inp))
  }

  ghost predicate TableRoute(q: Query, g: Guid, hops: seq<Hop>)
    requires Asked(q)
  {
    hops == [] ||
    var front := hops[..|hops| - 1];
    TableRoute(q, g, front) && TableEdge(q, Last(g, front), hops[|hops| - 1])
  }

  ghost predicate TableDelivers(q: Query, g: Guid, hops: seq<Hop>)
    requires Asked(q)
  {
    && hops != []
    && TableRoute(q, g, hops)
    && AtTarget(q, End(hops[|hops| - 1].guid, hops[|hops| - 1].inp))
  }

  /** The hop leaves a switch by a last port whose number is a multiple of 16. */
  ghost predicate Missed(q: Query, g: Guid, hop: Hop) {
    g in q.f.stations && q.f.stations[g].kind.Switch? && hop.out == q.f.stations[g].numPorts && hop.out % 16 == 0
  }

  lemma EdgeByTable(q: Query, g: Guid, hop: Hop)
    requires Asked(q)
    ensures McEdge(q, g, hop) <==> TableEdge(q, g, hop) && !Missed(q, g, hop)
  {
    if g in q.f.stations {
      var n := q.f.stations[g].numPorts;
      assert 16 * SetCount(q.f.stations[g]) == if n % 16 == 0 then n else n + 16 - n % 16;
    }
  }

  /** Wherever the tables lead from g, no hop is missed. */
  ghost predicate NothingMissed(q: Query, g: Guid)
    requires Asked(q)
  {
    forall hops, hop :: TableRoute(q, g, hops) && TableEdge(q, Last(g, hops), hop) ==> !Missed(q, Last(g, hops), hop)
  }

  lemma {:induction false} RouteByTable(q: Query, g: Guid, hops: seq<Hop>)
    requires Asked(q)
    ensures McRoute(q, g, hops) ==> TableRoute(q, g, hops)
    ensures NothingMissed(q, g) && TableRoute(q, g, hops) ==> McRoute(q, g, hops)
  {
    if hops != [] {
      var front := hops[..|hops| - 1];
      RouteByTable(q, g, front);
      EdgeByTable(q, Last(g, front), hops[|hops| - 1]);
    }
  }

  lemma MissedDiffers(q: Query, g: Guid, hops: seq<Hop>, hop: Hop)
    requires Asked(q) && TableRoute(q, g, hops) && TableEdge(q, Last(g, hops), hop) && Missed(q, Last(g, hops), hop)
    ensures TableRoute(q, g, hops + [hop]) && !McRoute(q, g, hops + [hop])
  {
    assert (hops + [hop])[..|hops|] == hops;
    EdgeByTable(q, Last(g, hops), hop);
  }

  /** The lookup's routes are those of the tables exactly when no table leads over a missed port. */
  lemma RoutesAgree(q: Query, g: Guid)
    requires Asked(q)
    ensures NothingMissed(q, g) <==> forall hops :: TableRoute(q, g, hops) <==> McRoute(q, g, hops)
  {
    if NothingMissed(q, g) {
      forall hops ensures TableRoute(q, g, hops) <==> McRoute(q, g, hops) {
        RouteByTable(q, g, hops);
      }
    } else {
      var hops, hop :| TableRoute(q, g, hops) && TableEdge(q, Last(g, hops), hop) && Missed(q, Last(g, hops), hop);
      MissedDiffers(q, g, hops, hop);
    }
  }

  // ---------------------------------------------------------------- the search state

  /** The fields of `struct Node` that never change once it is linked in. A node is named by
      its place in the order of allocation; `outPort` is `ports->remoteport->portnum`. */
  datatype Node = Node(guid: Guid, kind: Kind, numPorts: nat, dist: int, upNode: Option<nat>, upPort: nat, outPort: nat)

  /** Follow the upnode links back to the start. */
  function RouteOf(nodes: seq<Node>, n: Node): seq<Hop>
    requires UpLinks(nodes) && UpLink(n, |nodes|)
    decreases if n.upNode.Some? then n.upNode.value + 1 else 0
  {
    if n.upNode.None? then []
    else RouteOf(nodes, nodes[n.upNode.value]) + [Hop(n.outPort, n.guid, n.upPort)]
  }

  predicate UpLink(n: Node, k: nat) {
    n.upNode.Some? ==> n.upNode.value < k
  }

  /** A node is linked to one allocated before it. */
  predicate UpLinks(nodes: seq<Node>) {
    forall k :: 0 <= k < |nodes| ==> UpLink(nodes[k], k)
  }

  /** A node was reached over one edge from the node it is linked to. */
  ghost predicate NodeOk(q: Query, nodes: seq<Node>, n: Node)
    requires Asked(q)
  {
    && n.guid in q.f.stations
    && n.kind == q.f.stations[n.guid].kind
    && n.numPorts == q.f.stations[n.guid].numPorts
    && n.upNode.Some?
    && n.upNode.value < |nodes|
    && McEdge(q, nodes[n.upNode.value].guid, Hop(n.outPort, n.guid, n.upPort))
  }

  /** The start. */
  ghost predicate RootOk(q: Query, n: Node)
    requires Asked(q)
  {
    && AtStart(q, n.guid)
    && n.guid in q.f.stations
    && n.kind == q.f.stations[n.guid].kind
    && n.numPorts == q.f.stations[n.guid].numPorts
    && n.upNode.None?
    && n.upPort == 0
    && n.dist == 0
  }

  /** The start is station g and not the target. */
  ghost predicate AtStart(q: Query, g: Guid)
    requires Asked(q)
  {
    var r := GetNode(q.f, q.root, q.from);
    r.Some? && r.value.guid == g && r.value.portGuid != q.target
  }

  ghost predicate NodesOk(q: Query, nodes: seq<Node>)
    requires Asked(q)
  {
    && nodes != []
    && UpLinks(nodes)
    && RootOk(q, nodes[0])
    && Discovered(q, nodes)
    && DistinctGuids(nodes)
    && NoTargetSwitch(q, nodes)
  }

  /** Every node but the start is one layer below the node it was reached from. */
  ghost predicate Discovered(q: Query, nodes: seq<Node>)
    requires Asked(q)
  {
    forall k {:trigger NodeOk(q, nodes, nodes[k])} :: 0 < k < |nodes| ==>
      NodeOk(q, nodes, nodes[k]) && nodes[k].dist == nodes[nodes[k].upNode.value].dist + 1
  }

  ghost predicate DistinctGuids(nodes: seq<Node>) {
    forall j, k :: 0 <= j < k < |nodes| ==> nodes[j].guid != nodes[k].guid
  }

  ghost predicate NoTargetSwitch(q: Query, nodes: seq<Node>) {
    forall k :: 0 <= k < |nodes| && nodes[k].kind.Switch? ==> !AtTarget(q, End(nodes[k].guid, 0))
  }

  /** Every node's upnode chain is a route of the group, as long as the node's layer. */
  lemma {:induction false} RouteOfNode(q: Query, nodes: seq<Node>, k: nat)
    requires Asked(q) && NodesOk(q, nodes) && k < |nodes|
    ensures McRoute(q, nodes[0].guid, RouteOf(nodes, nodes[k]))
    ensures |RouteOf(nodes, nodes[k])| == nodes[k].dist
    ensures Last(nodes[0].guid, RouteOf(nodes, nodes[k])) == nodes[k].guid
  {
    if k > 0 {
      var n := nodes[k];
      assert NodeOk(q, nodes, n);
      var u := n.upNode.value;
      RouteOfNode(q, nodes, u);
      var route := RouteOf(nodes, n);
      assert route[..|route| - 1] == RouteOf(nodes, nodes[u]);
    }
  }

  // ---------------------------------------------------------------- what the search has covered

  ghost predicate Known(nodes: seq<Node>, g: Guid, dist: int) {
    exists j :: 0 <= j < |nodes| && nodes[j].guid == g && nodes[j].dist <= dist
  }

  /** The far end of the hop is not the target and is in a layer no deeper than the next. */
  ghost predicate HopCovered(q: Query, nodes: seq<Node>, dist: int, hop: Hop) {
    !AtTarget(q, End(hop.guid, hop.inp)) && Known(nodes, hop.guid, dist + 1)
  }

  /** g sends by port i, whose PortInfo cannot be read. */
  ghost predicate UnreadablePort(q: Query, g: Guid, i: nat)
    requires Asked(q)
  {
    Outgoing(q, g, i) && i !in q.f.stations[g].ports
  }

  /** ... for every hop that leaves by port i; if it cannot be read it is the one that is skipped. */
  ghost predicate PortCovered(q: Query, nodes: seq<Node>, n: Node, i: nat)
    requires Asked(q)
  {
    && (forall hop :: McEdge(q, n.guid, hop) && hop.out == i ==> HopCovered(q, nodes, n.dist, hop))
    && (UnreadablePort(q, n.guid, i) ==> i == n.upPort)
  }

  /** A port has one far end. */
  lemma OneHop(q: Query, nodes: seq<Node>, n: Node, hop: Hop)
    requires Asked(q) && McEdge(q, n.guid, hop) && HopCovered(q, nodes, n.dist, hop)
    ensures PortCovered(q, nodes, n, hop.out)
  {
  }

  ghost predicate Covered(q: Query, nodes: seq<Node>, n: Node)
    requires Asked(q)
  {
    && (forall hop :: McEdge(q, n.guid, hop) ==> HopCovered(q, nodes, n.dist, hop))
    && (forall i :: UnreadablePort(q, n.guid, i) ==> i == n.upPort)
  }

  /** Everything closer than layer d has been expanded. */
  ghost predicate CoveredBelow(q: Query, nodes: seq<Node>, d: int)
    requires Asked(q)
  {
    forall k :: 0 <= k < |nodes| && nodes[k].dist < d ==> Covered(q, nodes, nodes[k])
  }

  /** A route no longer than d leads to a known node, and not to the target. */
  lemma {:induction false} RoutesCovered(q: Query, nodes: seq<Node>, d: int, hops: seq<Hop>)
    requires Asked(q) && NodesOk(q, nodes) && CoveredBelow(q, nodes, d)
    requires McRoute(q, nodes[0].guid, hops) && |hops| <= d
    ensures Known(nodes, Last(nodes[0].guid, hops), |hops|)
    ensures !Delivers(q, nodes[0].guid, hops)
  {
    if hops != [] {
      var front, hop := hops[..|hops| - 1], hops[|hops| - 1];
      RoutesCovered(q, nodes, d, front);
      var j :| 0 <= j < |nodes| && nodes[j].guid == Last(nodes[0].guid, front) && nodes[j].dist <= |front|;
      assert Covered(q, nodes, nodes[j]);
      assert HopCovered(q, nodes, nodes[j].dist, hop);
    }
  }

  /** Some route of the group arrives at g by port i. */
  ghost predicate ArrivesBy(q: Query, start: Guid, g: Guid, i: nat)
    requires Asked(q)
  {
    exists hops: seq<Hop> :: McRoute(q, start, hops) && hops != [] && hops[|hops| - 1].guid == g && hops[|hops| - 1].inp == i
  }

  /** A port that cannot be read has been passed over only where a route arrives. */
  lemma UnreadableSkipped(q: Query, nodes: seq<Node>, d: int, hops: seq<Hop>, i: nat)
    requires Asked(q) && NodesOk(q, nodes) && CoveredBelow(q, nodes, d)
    requires McRoute(q, nodes[0].guid, hops) && |hops| < d && UnreadablePort(q, Last(nodes[0].guid, hops), i)
    ensures ArrivesBy(q, nodes[0].guid, Last(nodes[0].guid, hops), i)
  {
    RoutesCovered(q, nodes, d, hops);
    var j :| 0 <= j < |nodes| && nodes[j].guid == Last(nodes[0].guid, hops) && nodes[j].dist <= |hops|;
    assert Covered(q, nodes, nodes[j]);
    assert j > 0;
    RouteOfNode(q, nodes, j);
    assert NodeOk(q, nodes, nodes[j]);
    var route := RouteOf(nodes, nodes[j]);
    assert route[|route| - 1] == Hop(nodes[j].outPort, nodes[j].guid, i);
  }

  lemma CoveredGrows(q: Query, nodes: seq<Node>, more: seq<Node>, n: Node)
    requires Asked(q) && nodes <= more && Covered(q, nodes, n)
    ensures Covered(q, more, n)
  {
    forall hop | McEdge(q, n.guid, hop) ensures HopCovered(q, more, n.dist, hop) {
      HopCoveredGrows(q, nodes, more, n.dist, hop);
    }
  }

  lemma HopCoveredGrows(q: Query, nodes: seq<Node>, more: seq<Node>, dist: int, hop: Hop)
    requires nodes <= more && HopCovered(q, nodes, dist, hop)
    ensures HopCovered(q, more, dist, hop)
  {
    var j :| 0 <= j < |nodes| && nodes[j].guid == hop.guid && nodes[j].dist <= dist + 1;
    assert more[j] == nodes[j];
  }

  lemma StartNotTarget(q: Query, g: Guid, p: nat)
    requires Asked(q) && Sends(q, g, p) && GetNode(q.f, q.root, q.from).value.portGuid != q.target
    ensures !AtTarget(q, End(g, p))
  {
  }

  /** Going back out of the port a node was reached by leads to its known upnode. */
  lemma UpPortCovered(q: Query, nodes: seq<Node>, k: nat, hop: Hop)
    requires Asked(q) && NodesOk(q, nodes) && k < |nodes|
    requires McEdge(q, nodes[k].guid, hop) && hop.out == nodes[k].upPort
    ensures HopCovered(q, nodes, nodes[k].dist, hop)
  {
    assert NodeOk(q, nodes, nodes[k]);
    var up := nodes[nodes[k].upNode.value];
    assert hop.guid == up.guid;
    assert nodes[k].upNode.value > 0 ==> NodeOk(q, nodes, up);
    if up.kind.Switch? {
      assert !AtTarget(q, End(up.guid, 0));
    } else {
      StartNotTarget(q, up.guid, nodes[k].outPort);
    }
    assert up.dist <= nodes[k].dist + 1;
  }

  // ---------------------------------------------------------------- one step of the search

  /** A node's direct route leads to it, and is longer than the start's by its layer. */
  ghost predicate PathOk(q: Query, n: Node, path: DrPath)
    requires Asked(q)
  {
    && PathSized(path)
    && path.cnt == q.from.cnt + n.dist
    && var e := Resolve(q.f, q.root, Hops(path));
    && e.Some? && e.value.guid == n.guid
  }

  ghost predicate PathsOk(q: Query, nodes: seq<Node>, paths: seq<DrPath>)
    requires Asked(q)
  {
    && |paths| == |nodes|
    && (forall k :: 0 <= k < |nodes| ==> PathOk(q, nodes[k], paths[k]))
  }

  /** `get_port`, over the direct route to the node. */
  function GetPort(f: Fabric, root: End, path: DrPath, i: nat): Option<PortInfo>
    requires PathSized(path)
  {
    var e := Resolve(f, root, Hops(path));
    if e.None? || e.value.guid !in f.stations || i !in f.stations[e.value.guid].ports then None
    else Some(f.stations[e.value.guid].ports[i])
  }

  /** The node that a reading one hop further on describes. */
  function NodeRead(r: Reading, k: nat, dist: int, out: nat): Node {
    Node(r.guid, r.kind, r.numPorts, dist, Some(k), r.portNum, out)
  }

  /** A direct route extended by an outgoing port reads exactly the far end of that link. */
  lemma ReadOverLink(q: Query, n: Node, path: DrPath, i: nat, ext: DrPath)
    requires Asked(q) && PathOk(q, n, path) && Outgoing(q, n.guid, i) && LinkUp(q, n.guid, i)
    requires ExtendPath(path, i) == Some(ext)
    ensures
      var r := GetNode(q.f, q.root, ext);
      && (r.None? ==> forall hop :: McEdge(q, n.guid, hop) ==> hop.out != i)
      && (r.Some? ==>
            && McEdge(q, n.guid, Hop(i, r.value.guid, r.value.portNum))
            && Resolve(q.f, q.root, Hops(ext)) == Some(End(r.value.guid, r.value.portNum))
            && r.value.guid in q.f.stations
            && r.value.kind == q.f.stations[r.value.guid].kind
            && r.value.numPorts == q.f.stations[r.value.guid].numPorts
            && (AtTarget(q, End(r.value.guid, r.value.portNum)) <==> r.value.portGuid == q.target))
  {
    assert i % 256 == i;
    ResolveMore(q.f, q.root, Hops(path), i);
  }

  lemma DiscoveredMore(q: Query, nodes: seq<Node>, m: Node)
    requires Asked(q) && UpLinks(nodes) && Discovered(q, nodes) && NodeOk(q, nodes, m)
    requires m.dist == nodes[m.upNode.value].dist + 1
    ensures Discovered(q, nodes + [m])
  {
    var more := nodes + [m];
    forall k | 0 < k < |more|
      ensures NodeOk(q, more, more[k]) && more[k].dist == more[more[k].upNode.value].dist + 1
    {
      if k < |nodes| {
        assert NodeOk(q, nodes, nodes[k]);
      }
      assert more[more[k].upNode.value] == nodes[more[k].upNode.value];
    }
  }

  lemma NodesMore(q: Query, nodes: seq<Node>, m: Node)
    requires Asked(q) && NodesOk(q, nodes) && NodeOk(q, nodes, m)
    requires m.dist == nodes[m.upNode.value].dist + 1
    requires forall k :: 0 <= k < |nodes| ==> nodes[k].guid != m.guid
    requires !AtTarget(q, End(m.guid, m.upPort))
    ensures NodesOk(q, nodes + [m])
  {
    DiscoveredMore(q, nodes, m);
    assert m.kind.Switch? ==> (AtTarget(q, End(m.guid, 0)) <==> AtTarget(q, End(m.guid, m.upPort)));
    assert DistinctGuids(nodes + [m]);
    assert NoTargetSwitch(q, nodes + [m]);
  }

  /** After the hop is taken back every path is as it was. */
  lemma PathsRestored(q: Query, nodes: seq<Node>, paths: seq<DrPath>, k: nat, i: nat, ext: DrPath)
    requires Asked(q) && PathsOk(q, nodes, paths) && k < |nodes| && ExtendPath(paths[k], i) == Some(ext)
    ensures PathsOk(q, nodes, paths[k := Shorten(ext)])
  {
    assert PathOk(q, nodes[k], paths[k]);
    assert Hops(Shorten(ext)) == Hops(paths[k]);
    assert PathOk(q, nodes[k], Shorten(ext));
  }

  /** A new node keeps a copy of the extended path. */
  lemma PathsAdded(q: Query, nodes: seq<Node>, paths: seq<DrPath>, k: nat, i: nat, ext: DrPath, m: Node)
    requires Asked(q) && PathsOk(q, nodes, paths) && k < |nodes| && ExtendPath(paths[k], i) == Some(ext)
    requires PathOk(q, m, ext)
    ensures PathsOk(q, nodes + [m], (paths[k := ext] + [ext])[k := Shorten(ext)])
  {
    PathsRestored(q, nodes, paths, k, i, ext);
    var back := paths[k := Shorten(ext)];
    assert (paths[k := ext] + [ext])[k := Shorten(ext)] == back + [ext];
    forall j | 0 <= j < |nodes| + 1 ensures PathOk(q, (nodes + [m])[j], (back + [ext])[j]) {
      assert j < |nodes| ==> PathOk(q, nodes[j], back[j]);
    }
  }

  /** The part of the state that the tables only index. */
  ghost predicate SearchOk(q: Query, nodes: seq<Node>, paths: seq<DrPath>) {
    Asked(q) && NodesOk(q, nodes) && PathsOk(q, nodes, paths)
  }

  /** Node k may be expanded over port i by the extended route ext. */
  ghost predicate Stepping(q: Query, nodes: seq<Node>, paths: seq<DrPath>, k: nat, i: nat, ext: DrPath) {
    && SearchOk(q, nodes, paths)
    && k < |nodes|
    && Outgoing(q, nodes[k].guid, i)
    && LinkUp(q, nodes[k].guid, i)
    && ExtendPath(paths[k], i) == Some(ext)
    && Within(nodes, nodes[k].dist + 1)
  }

  /** Nobody answers over the link: there is no edge to cover. */
  lemma SteppedNowhere(q: Query, nodes: seq<Node>, paths: seq<DrPath>, k: nat, i: nat, ext: DrPath)
    requires Stepping(q, nodes, paths, k, i, ext) && GetNode(q.f, q.root, ext).None?
    ensures PortCovered(q, nodes, nodes[k], i) && PathsOk(q, nodes, paths[k := Shorten(ext)])
  {
    assert PathOk(q, nodes[k], paths[k]);
    ReadOverLink(q, nodes[k], paths[k], i, ext);
    PathsRestored(q, nodes, paths, k, i, ext);
  }

  lemma SteppedToTarget(q: Query, nodes: seq<Node>, paths: seq<DrPath>, k: nat, i: nat, ext: DrPath, r: Reading)
    requires Stepping(q, nodes, paths, k, i, ext) && GetNode(q.f, q.root, ext) == Some(r) && r.portGuid == q.target
    ensures
      var m := NodeRead(r, k, -1, i);
      NodeOk(q, nodes, m) && AtTarget(q, End(m.guid, m.upPort))
  {
    assert PathOk(q, nodes[k], paths[k]);
    ReadOverLink(q, nodes[k], paths[k], i, ext);
  }

  lemma SteppedToKnown(q: Query, nodes: seq<Node>, paths: seq<DrPath>, k: nat, i: nat, ext: DrPath, r: Reading, j: nat)
    requires Stepping(q, nodes, paths, k, i, ext) && GetNode(q.f, q.root, ext) == Some(r) && r.portGuid != q.target
    requires j < |nodes| && nodes[j].guid == r.guid
    ensures PortCovered(q, nodes, nodes[k], i) && PathsOk(q, nodes, paths[k := Shorten(ext)])
  {
    assert PathOk(q, nodes[k], paths[k]);
    ReadOverLink(q, nodes[k], paths[k], i, ext);
    PathsRestored(q, nodes, paths, k, i, ext);
    OneHop(q, nodes, nodes[k], Hop(i, r.guid, r.portNum));
  }

  lemma SteppedToNew(q: Query, nodes: seq<Node>, paths: seq<DrPath>, k: nat, i: nat, ext: DrPath, r: Reading)
    requires Stepping(q, nodes, paths, k, i, ext) && GetNode(q.f, q.root, ext) == Some(r) && r.portGuid != q.target
    requires forall j :: 0 <= j < |nodes| ==> nodes[j].guid != r.guid
    ensures
      var more := nodes + [NodeRead(r, k, nodes[k].dist + 1, i)];
      && PortCovered(q, more, nodes[k], i)
      && NodesOk(q, more)
      && PathsOk(q, more, (paths[k := ext] + [ext])[k := Shorten(ext)])
  {
    assert PathOk(q, nodes[k], paths[k]);
    ReadOverLink(q, nodes[k], paths[k], i, ext);
    var m := NodeRead(r, k, nodes[k].dist + 1, i);
    assert NodeOk(q, nodes, m);
    NodesMore(q, nodes, m);
    PathsAdded(q, nodes, paths, k, i, ext, m);
    assert (nodes + [m])[|nodes|] == m;
    OneHop(q, nodes + [m], nodes[k], Hop(i, r.guid, r.portNum));
  }

  ghost predicate Within(nodes: seq<Node>, d: int) {
    forall j :: 0 <= j < |nodes| ==> nodes[j].dist <= d
  }
}
