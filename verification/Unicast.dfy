/** Unicast tracing in ibtracert: `switch_lookup` and the hop-bounded walk of `find_route`,
    without the force flag. */
module Unicast {
  import opened Common
  import opened Fabric

  const ACTIVE := 4

  /** `switch_lookup` at a switch: -1 on a failing query or a LID past the table; entries are
      signed bytes. */
  function TableEntry(si: SwitchInfo, lid: nat): int {
    if lid >= si.linearCap && lid > si.linearTop then -1
    else if lid / 64 !in si.linear || |si.linear[lid / 64]| != 64 then -1
    else
      var b: int := si.linear[lid / 64][lid % 64];
      if b < 128 then b else b - 256
  }

  function Lookup(f: Fabric, g: Guid, lid: nat): int {
    if g !in f.stations || f.stations[g].switchInfo.None? then -1
    else TableEntry(f.stations[g].switchInfo.value, lid)
  }

  /** The blocks of 64 that can be read show this table. */
  ghost predicate Shows(si: SwitchInfo, table: seq<Byte>) {
    forall b :: b in si.linear ==> 64 * b + 64 <= |table| && si.linear[b] == table[64 * b..64 * b + 64]
  }

  ghost predicate BlockRead(si: SwitchInfo, lid: nat) {
    exists b :: b in si.linear && 64 * b <= lid < 64 * b + 64
  }

  /** The lookup gives a readable LID within either limit its place in the table, as a signed byte. */
  lemma LookupIs(f: Fabric, g: Guid, lid: nat, table: seq<Byte>)
    requires g in f.stations && f.stations[g].switchInfo.Some? && Shows(f.stations[g].switchInfo.value, table)
    requires
      var si := f.stations[g].switchInfo.value;
      BlockRead(si, lid) && (lid < si.linearCap || lid <= si.linearTop)
    ensures lid < |table|
    ensures table[lid] < 128 ==> Lookup(f, g, lid) == table[lid]
    ensures table[lid] >= 128 ==> Lookup(f, g, lid) + 256 == table[lid]
  {
    var si := f.stations[g].switchInfo.value;
    var b :| b in si.linear && 64 * b <= lid < 64 * b + 64;
    assert lid / 64 == b && lid % 64 == lid - 64 * b;
    assert si.linear[b][lid - 64 * b] == table[lid];
  }

  /** ... and all others -1. */
  lemma LookupFails(f: Fabric, g: Guid, lid: nat)
    requires
      || g !in f.stations
      || f.stations[g].switchInfo.None?
      || !BlockRead(f.stations[g].switchInfo.value, lid)
      || (lid >= f.stations[g].switchInfo.value.linearCap && lid > f.stations[g].switchInfo.value.linearTop)
    ensures Lookup(f, g, lid) == -1
  {
    assert 64 * (lid / 64) <= lid < 64 * (lid / 64) + 64;
  }

  function Enhanced(f: Fabric, g: Guid): bool {
    g in f.stations && f.stations[g].switchInfo.Some? && f.stations[g].switchInfo.value.enhancedPort0
  }

  /** `is_port_inactive`: port 0 of a base switch always counts as active. */
  predicate Inactive(r: Reading, enhanced: bool) {
    r.state != ACTIVE && (!r.kind.Switch? || enhanced)
  }

  /** The request: where the walk starts, and the destination's LID and port as read. */
  datatype Request = Request(f: Fabric, root: End, from: DrPath, lid: nat, dest: Reading)

  ghost predicate Asked(u: Request) {
    Sound(u.f) && PathSized(u.from)
  }

  // ---------------------------------------------------------------- forwarding in the fabric

  /** A station that a packet can pass or end at: it answers, is active, and if it is a switch
      its entry for the LID is one of its ports. */
  ghost predicate Usable(u: Request, e: End) {
    && e.guid in u.f.stations
    && var st := u.f.stations[e.guid];
    && if st.kind.Switch? then
         && 0 in st.ports
         && (st.switchInfo.Some? && st.switchInfo.value.enhancedPort0 ==> st.ports[0].state == 4)
         && 0 <= Lookup(u.f, e.guid, u.lid) <= st.numPorts
       else
         e.port in st.ports && st.ports[e.port].state == 4
  }

  ghost predicate IsDest(u: Request, e: End) {
    HasGuid(u.f, e, u.dest.portGuid)
  }

  /** Following the forwarding tables from e, over links, the destination port is met for the
      first time after k hops. */
  ghost predicate Forwarded(u: Request, e: End, k: nat)
    decreases k
  {
    && Usable(u, e)
    && if k == 0 then IsDest(u, e)
       else
         && !IsDest(u, e)
         && u.f.stations[e.guid].kind.Switch?
         && var out := Lookup(u.f, e.guid, u.lid);
         && out != 0
         && End(e.guid, out) in u.f.links
         && Forwarded(u, u.f.links[End(e.guid, out)], k - 1)
  }

  // ---------------------------------------------------------------- the walk of find_route

  /** The local variables of the loop: the direct route of `from`, the current and the last
      read node with its port, and what the last switch lookup gave. */
  datatype Walk = Walk(path: DrPath, cur: Reading, next: Reading, out: int, enhanced: bool)

  datatype Turn = Bad | Found(path: DrPath) | On(walk: Walk)

  const ZEROED := Reading(0, OtherKind, 0, 0, 0, 0, 0)

  function StationGuid(u: Request, path: DrPath): Option<Guid>
    requires PathSized(path)
  {
    var e := Resolve(u.f, u.root, Hops(path));
    if e.None? then None else Some(e.value.guid)
  }

  /** Look up the next switch and move on to the node just read. */
  function Arrive(u: Request, w: Walk, path: DrPath, next: Reading): Turn
    requires PathSized(path)
  {
    var g := StationGuid(u, path);
    if next.kind.Switch? && g.None? then Bad
    else
      var out := if next.kind.Switch? then Lookup(u.f, g.value, u.lid) else w.out;
      var enhanced := if next.kind.Switch? then Enhanced(u.f, g.value) else w.enhanced;
      if next.kind.Switch? && (out < 0 || out > next.numPorts) then Bad
      else if Inactive(next, enhanced) then Bad
      else On(Walk(path, next, next, out, enhanced))
  }

  function FromSwitch(u: Request, w: Walk): Turn
    requires PathSized(w.path) && w.out >= 0
  {
    var ext := ExtendPath(w.path, w.out);
    if ext.None? then Bad
    else
      var next := GetNode(u.f, u.root, ext.value);
      if next.None? then Bad
      else if w.out == 0 then
        if next.value.portGuid != u.dest.portGuid then Bad else Found(ext.value)
      else Arrive(u, w, ext.value, next.value)
  }

  /** At the CA or router the walk started from: one hop back, or out of its own port. */
  function FromEndNode(u: Request, w: Walk, guid: Guid): Turn
    requires PathSized(w.path)
  {
    if w.cur.portGuid != guid then Bad
    else if w.path.cnt > 0 then
      var back := Shorten(w.path);
      var next := GetNode(u.f, u.root, back);
      if next.None? then Bad else Arrive(u, w, back, next.value.(portNum := w.path.p[w.path.cnt]))
    else
      var ext := if w.cur.portNum != 0 then ExtendPath(w.path, w.cur.portNum) else Some(w.path);
      if ext.None? then Bad
      else
        var next := GetNode(u.f, u.root, ext.value);
        if next.None? then Bad else Arrive(u, w, ext.value, next.value)
  }

  /** One turn of the loop. */
  function Turned(u: Request, w: Walk, guid: Guid): Turn
    requires PathSized(w.path) && (w.cur.kind.Switch? ==> w.out >= 0)
  {
    if Inactive(w.cur, w.enhanced) then Bad
    else if w.cur.portGuid == u.dest.portGuid then Found(w.path)
    else if w.cur.kind.Switch? then FromSwitch(u, w)
    else if EndNode(w.cur) then FromEndNode(u, w, guid)
    else Arrive(u, w, w.path, w.next)
  }

  /** Where the route goes from the hop list v: along a switch's own entry, or away from the
      end node it started at, which is left by the given port when it is the local one. */
  ghost predicate Moves(u: Request, guid: Guid, port: nat, v: seq<nat>, v': seq<nat>) {
    var e := Resolve(u.f, u.root, v);
    && e.Some?
    && var r := ReadEnd(u.f, e.value);
    && r.Some?
    && match r.value.kind
       case Switch =>
         && 0 <= Lookup(u.f, e.value.guid, u.lid) <= r.value.numPorts
         && v' == v + [Lookup(u.f, e.value.guid, u.lid)]
       case OtherKind => v' == v
       case _ =>
         && r.value.portGuid == guid
         && v' == if v != [] then v[..|v| - 1] else if port == 0 then [] else [port % 256]
  }

  /** The port by which the local station is left: its own, or the hop that was just taken back. */
  ghost function LocalPort(u: Request, visits: seq<seq<nat>>): nat {
    var n := |visits|;
    if n > 1 && |visits[n - 2]| == 1 then visits[n - 2][0] else u.root.port
  }

  ghost predicate Trail(u: Request, guid: Guid, visits: seq<seq<nat>>) {
    && visits != []
    && (|visits| > 1 ==>
          var front := visits[..|visits| - 1];
          Trail(u, guid, front) && Moves(u, guid, LocalPort(u, front), front[|front| - 1], visits[|visits| - 1]))
  }

  /** The current node was read at the current direct route. */
  ghost predicate WalkOk(u: Request, w: Walk) {
    && PathSized(w.path)
    && var e := Resolve(u.f, u.root, Hops(w.path));
    && e.Some?
    && var r := ReadEnd(u.f, e.value);
    && r.Some?
    && w.cur == r.value.(portNum := w.cur.portNum)
    && (w.next == w.cur || w.next == ZEROED)
    && (w.cur.kind.Switch? ==>
          && 0 <= w.out <= w.cur.numPorts
          && w.out == Lookup(u.f, e.value.guid, u.lid)
          && w.enhanced == Enhanced(u.f, e.value.guid))
  }

  ghost function EndOf(u: Request, w: Walk): End
    requires WalkOk(u, w)
  {
    Resolve(u.f, u.root, Hops(w.path)).value
  }

  lemma ArriveKeeps(u: Request, w: Walk, path: DrPath, next: Reading, r: Reading)
    requires PathSized(path) && GetNode(u.f, u.root, path) == Some(r) && next == r.(portNum := next.portNum)
    ensures
      var t := Arrive(u, w, path, next);
      !t.Found? && (t.On? ==> t.walk.path == path && WalkOk(u, t.walk))
  {
  }

  /** What a turn from the walk w establishes. */
  ghost predicate TurnOk(u: Request, guid: Guid, w: Walk, t: Turn)
    requires PathSized(w.path)
  {
    var v := Hops(w.path);
    && (t.On? ==>
          && WalkOk(u, t.walk)
          && Moves(u, guid, w.cur.portNum, v, Hops(t.walk.path))
          && (t.walk.path.cnt == 0 && EndNode(t.walk.cur) ==> t.walk.cur.portNum == if |v| == 1 then v[0] else u.root.port))
    && (t.Found? ==> FoundOk(u, t.path) && (Hops(t.path) == v || Moves(u, guid, w.cur.portNum, v, Hops(t.path))))
  }

  predicate EndNode(r: Reading) {
    r.kind.CA? || r.kind.Router?
  }

  /** The port read at this direct route is the destination. */
  ghost predicate FoundOk(u: Request, path: DrPath) {
    && PathSized(path)
    && var e := Resolve(u.f, u.root, Hops(path));
    && e.Some?
    && IsDest(u, e.value)
  }

  /** A switch's entry is a byte, and the direct route is extended by just that. */
  lemma EntryFits(u: Request, w: Walk)
    requires Asked(u) && WalkOk(u, w) && w.cur.kind.Switch?
    ensures 0 <= w.out < 256
    ensures
      var ext := ExtendPath(w.path, w.out);
      ext.Some? ==> Hops(ext.value) == Hops(w.path) + [w.out]
  {
    assert w.out % 256 == w.out;
  }

  lemma FromSwitchKeeps(u: Request, w: Walk, guid: Guid)
    requires Asked(u) && WalkOk(u, w) && w.cur.kind.Switch?
    ensures TurnOk(u, guid, w, FromSwitch(u, w))
  {
    EntryFits(u, w);
    var ext := ExtendPath(w.path, w.out);
    if ext.Some? && GetNode(u.f, u.root, ext.value).Some? {
      var r := GetNode(u.f, u.root, ext.value).value;
      ArriveKeeps(u, w, ext.value, r, r);
      ReadDest(u, Resolve(u.f, u.root, Hops(ext.value)).value);
    }
  }

  lemma GoingBackKeeps(u: Request, w: Walk, guid: Guid)
    requires WalkOk(u, w) && EndNode(w.cur) && w.path.cnt > 0
    ensures TurnOk(u, guid, w, FromEndNode(u, w, guid))
  {
    var back := Shorten(w.path);
    var next := GetNode(u.f, u.root, back);
    assert Hops(back) == Hops(w.path)[..|Hops(w.path)| - 1];
    if next.Some? {
      ArriveKeeps(u, w, back, next.value.(portNum := w.path.p[w.path.cnt]), next.value);
    }
  }

  lemma GoingOutKeeps(u: Request, w: Walk, guid: Guid)
    requires WalkOk(u, w) && EndNode(w.cur) && w.path.cnt == 0
    ensures TurnOk(u, guid, w, FromEndNode(u, w, guid))
  {
    assert Hops(w.path) == [];
    var ext := if w.cur.portNum != 0 then ExtendPath(w.path, w.cur.portNum) else Some(w.path);
    if ext.Some? && GetNode(u.f, u.root, ext.value).Some? {
      var r := GetNode(u.f, u.root, ext.value).value;
      ArriveKeeps(u, w, ext.value, r, r);
    }
  }

  /** A turn keeps the walk in step with its direct route, and follows the tables. */
  lemma TurnKeeps(u: Request, w: Walk, guid: Guid)
    requires Asked(u) && WalkOk(u, w)
    ensures TurnOk(u, guid, w, Turned(u, w, guid))
  {
    if w.cur.kind.Switch? {
      FromSwitchKeeps(u, w, guid);
    } else if EndNode(w.cur) {
      if w.path.cnt > 0 {
        GoingBackKeeps(u, w, guid);
      } else {
        GoingOutKeeps(u, w, guid);
      }
    } else if w.next == w.cur {
      var r := ReadEnd(u.f, EndOf(u, w)).value;
      ArriveKeeps(u, w, w.path, w.next, r);
    }
  }

  /** Before the loop: the first node, and its table entry if it is a switch. */
  function Begin(u: Request, r: Reading): Turn
    requires PathSized(u.from)
  {
    if !r.kind.Switch? then On(Walk(u.from, r, ZEROED, 255, false))
    else
      var out := Lookup(u.f, r.guid, u.lid);
      if out < 0 || out > r.numPorts then Bad
      else On(Walk(u.from, r, ZEROED, out, Enhanced(u.f, r.guid)))
  }

  // ---------------------------------------------------------------- the walk against the fabric

  /** The walk has moved over the link that the current switch forwards to. */
  ghost predicate SwitchHop(u: Request, w: Walk, w': Walk)
    requires WalkOk(u, w) && WalkOk(u, w')
  {
    var e, e' := EndOf(u, w), EndOf(u, w');
    && !IsDest(u, e)
    && Usable(u, e)
    && w.cur.kind.Switch?
    && w.out != 0
    && End(e.guid, w.out) in u.f.links
    && e' == u.f.links[End(e.guid, w.out)]
    && Usable(u, e')
    && w'.path.cnt == w.path.cnt + 1 <= PATH_BYTES - 2
    && Hops(w'.path) == Hops(w.path) + [w.out]
    && w'.next == w'.cur
  }

  /** The direct route extended by a switch's entry reads the far end of that link, or for
      entry 0 the switch again. */
  lemma ReadNext(u: Request, w: Walk, ext: DrPath)
    requires Asked(u) && WalkOk(u, w) && w.cur.kind.Switch? && ExtendPath(w.path, w.out) == Some(ext)
    ensures Hops(ext) == Hops(w.path) + [w.out]
    ensures
      var e := EndOf(u, w);
      Resolve(u.f, u.root, Hops(ext)) ==
        if w.out == 0 then Some(End(e.guid, 0))
        else if End(e.guid, w.out) in u.f.links then Some(u.f.links[End(e.guid, w.out)])
        else None
  {
    assert w.out % 256 == w.out;
    ResolveMore(u.f, u.root, Hops(w.path), w.out);
  }

  /** What `get_node`, `is_port_inactive` and `switch_lookup` tell of a station is whether it is usable. */
  lemma ReadUsable(u: Request, e: End)
    ensures
      var r := ReadEnd(u.f, e);
      Usable(u, e) <==>
        && r.Some?
        && !Inactive(r.value, Enhanced(u.f, e.guid))
        && (r.value.kind.Switch? ==> 0 <= Lookup(u.f, e.guid, u.lid) <= r.value.numPorts)
  {
  }

  lemma ReadDest(u: Request, e: End)
    ensures
      var r := ReadEnd(u.f, e);
      IsDest(u, e) <==> r.Some? && r.value.portGuid == u.dest.portGuid
  {
  }

  lemma ArriveUsable(u: Request, w: Walk, path: DrPath, e: End)
    requires PathSized(path) && Resolve(u.f, u.root, Hops(path)) == Some(e) && ReadEnd(u.f, e).Some?
    ensures Arrive(u, w, path, ReadEnd(u.f, e).value).On? <==> Usable(u, e)
  {
    ReadUsable(u, e);
  }

  /** Forwarding that goes on from e goes over its entry's link to a usable station. */
  lemma ForwardedLeaves(u: Request, e: End, k: nat)
    requires Forwarded(u, e, k) && !IsDest(u, e)
    ensures
      var out := Lookup(u.f, e.guid, u.lid);
      k > 0 && out > 0 && End(e.guid, out) in u.f.links && Usable(u, u.f.links[End(e.guid, out)])
  {
  }

  lemma HopFromSwitch(u: Request, w: Walk)
    requires Asked(u) && WalkOk(u, w) && w.cur.kind.Switch? && Usable(u, EndOf(u, w)) && !IsDest(u, EndOf(u, w))
    ensures
      var t, e := FromSwitch(u, w), EndOf(u, w);
      && !t.Found?
      && (t.On? ==> WalkOk(u, t.walk) && SwitchHop(u, w, t.walk))
      && (t.Bad? ==> forall k :: Forwarded(u, e, k) ==> w.path.cnt >= PATH_BYTES - 2)
  {
    var t, e := FromSwitch(u, w), EndOf(u, w);
    var ext := ExtendPath(w.path, w.out);
    if ext.Some? {
      ReadNext(u, w, ext.value);
      if w.out == 0 {
        ReadDest(u, End(e.guid, 0));
      } else if End(e.guid, w.out) in u.f.links {
        var e' := u.f.links[End(e.guid, w.out)];
        var r := ReadEnd(u.f, e');
        ReadUsable(u, e');
        if r.Some? {
          ArriveKeeps(u, w, ext.value, r.value, r.value);
          ArriveUsable(u, w, ext.value, e');
        }
      }
      forall k: nat | Forwarded(u, e, k) ensures t.On? {
        ForwardedLeaves(u, e, k);
      }
    }
  }

  ghost predicate HopTold(u: Request, w: Walk, t: Turn)
    requires WalkOk(u, w)
  {
    match t
    case Found(path) => Forwarded(u, EndOf(u, w), 0) && path == w.path
    case On(w') => WalkOk(u, w') && SwitchHop(u, w, w')
    case Bad => forall k :: Forwarded(u, EndOf(u, w), k) ==> k > 0 && w.path.cnt >= PATH_BYTES - 2
  }

  /** One turn at a switch is one hop of the fabric's own forwarding. */
  lemma SwitchTurn(u: Request, w: Walk, guid: Guid)
    requires Asked(u) && WalkOk(u, w) && w.cur.kind.Switch?
    ensures HopTold(u, w, Turned(u, w, guid))
  {
    var e := EndOf(u, w);
    assert Usable(u, e) <==> !Inactive(w.cur, w.enhanced);
    if Usable(u, e) && !IsDest(u, e) {
      HopFromSwitch(u, w);
    }
  }

  /** Forwarding led to an end node other than the destination. All that can follow is going
      back to the switch before it and forth again. */
  ghost predicate Stranded(u: Request, w: Walk) {
    && WalkOk(u, w)
    && !IsDest(u, EndOf(u, w))
    && w.next == w.cur
    && if w.cur.kind.Switch? then
         var e := EndOf(u, w);
         w.out != 0 && End(e.guid, w.out) in u.f.links && StrandedEnd(u, u.f.links[End(e.guid, w.out)])
       else
         && Hops(w.path) != []
         && var v := Hops(w.path)[..|Hops(w.path)| - 1];
            var e := Resolve(u.f, u.root, v);
         && e.Some?
         && !IsDest(u, e.value)
         && IsSwitch(u, e.value)
         && Lookup(u.f, e.value.guid, u.lid) == Hops(w.path)[|Hops(w.path)| - 1] != 0
  }

  ghost predicate IsSwitch(u: Request, e: End) {
    var r := ReadEnd(u.f, e);
    r.Some? && r.value.kind.Switch?
  }

  ghost predicate StrandedEnd(u: Request, e: End) {
    !IsDest(u, e) && !IsSwitch(u, e)
  }

  lemma BecomesStranded(u: Request, w: Walk, w': Walk)
    requires WalkOk(u, w) && WalkOk(u, w') && SwitchHop(u, w, w')
    requires !w'.cur.kind.Switch? && !IsDest(u, EndOf(u, w'))
    ensures Stranded(u, w')
  {
    assert Hops(w'.path)[..|Hops(w'.path)| - 1] == Hops(w.path);
  }

  lemma StaysStranded(u: Request, w: Walk, guid: Guid)
    requires Asked(u) && Stranded(u, w)
    ensures
      var t := Turned(u, w, guid);
      !t.Found? && (t.On? ==> Stranded(u, t.walk))
  {
    if w.cur.kind.Switch? {
      SwitchTurn(u, w, guid);
      var t := Turned(u, w, guid);
      if t.On? {
        BecomesStranded(u, w, t.walk);
      }
    } else {
      TurnKeeps(u, w, guid);
    }
  }

  /** A stretch of forwarding: where it begins, how long the direct route is there, and how many turns
      were used up before. */
  datatype Leg = Leg(start: End, cnt: nat, used: nat)

  /** After h hops the walk is where forwarding along the leg is. */
  ghost predicate InStep(u: Request, leg: Leg, w: Walk, h: nat) {
    && WalkOk(u, w)
    && w.path.cnt == leg.cnt + h
    && (h == 0 || w.path.cnt <= PATH_BYTES - 2)
    && (forall k :: h <= k ==> (Forwarded(u, leg.start, k) <==> Forwarded(u, EndOf(u, w), k - h)))
    && (forall k :: 0 <= k < h ==> !Forwarded(u, leg.start, k))
  }

  lemma NextInStep(u: Request, leg: Leg, w: Walk, w': Walk, h: nat)
    requires InStep(u, leg, w, h) && WalkOk(u, w') && SwitchHop(u, w, w')
    ensures InStep(u, leg, w', h + 1)
  {
    var e, e' := EndOf(u, w), EndOf(u, w');
    forall k | h + 1 <= k ensures Forwarded(u, leg.start, k) <==> Forwarded(u, e', k - (h + 1)) {
      assert Forwarded(u, leg.start, k) <==> Forwarded(u, e, k - h);
    }
    assert Forwarded(u, leg.start, h) <==> Forwarded(u, e, 0);
  }

  /** Within the hop limit and the direct-route array: the walk may make k hops. */
  ghost predicate InReach(leg: Leg, k: nat) {
    leg.used + k < 62 && (k == 0 || leg.cnt + k <= 62)
  }

  ghost predicate Deliverable(u: Request, leg: Leg) {
    exists k :: InReach(leg, k) && Forwarded(u, leg.start, k)
  }

  /** The walk goes along the leg, and its answer is the fabric's. */
  ghost predicate Along(u: Request, leg: Leg, w: Walk, h: nat) {
    InStep(u, leg, w, h) && (w.cur.kind.Switch? || Forwarded(u, EndOf(u, w), 0))
  }

  /** What a turn after h hops of the leg tells of the answer. */
  ghost predicate TurnTells(u: Request, leg: Leg, h: nat, t: Turn) {
    match t
    case On(w) => Along(u, leg, w, h + 1) || (Stranded(u, w) && !Deliverable(u, leg))
    case Bad => !Deliverable(u, leg)
    case Found(_) => leg.used + h < MAXHOPS - 1 <==> Deliverable(u, leg)
  }

  lemma InStepTurn(u: Request, leg: Leg, w: Walk, h: nat, t: Turn)
    requires InStep(u, leg, w, h) && HopTold(u, w, t)
    ensures TurnTells(u, leg, h, t)
  {
    match t
    case On(w') =>
      NextInStep(u, leg, w, w', h);
      AlongAfterHop(u, leg, w, w', h + 1);
    case Found(_) => FoundDeliverable(u, leg, w, h);
    case Bad => BadTurn(u, leg, w, h);
  }

  lemma FoundDeliverable(u: Request, leg: Leg, w: Walk, h: nat)
    requires InStep(u, leg, w, h) && Forwarded(u, EndOf(u, w), 0)
    ensures leg.used + h < MAXHOPS - 1 <==> Deliverable(u, leg)
  {
    assert Forwarded(u, leg.start, h) <==> Forwarded(u, EndOf(u, w), h - h);
    assert leg.used + h < MAXHOPS - 1 ==> InReach(leg, h);
  }

  lemma BadTurn(u: Request, leg: Leg, w: Walk, h: nat)
    requires InStep(u, leg, w, h)
    requires forall k :: Forwarded(u, EndOf(u, w), k) ==> k > 0 && w.path.cnt >= PATH_BYTES - 2
    ensures !Deliverable(u, leg)
  {
    forall k: nat | InReach(leg, k) ensures !Forwarded(u, leg.start, k) {
      if k >= h {
        assert Forwarded(u, leg.start, k) <==> Forwarded(u, EndOf(u, w), k - h);
      }
    }
  }

  lemma AlongAfterHop(u: Request, leg: Leg, w: Walk, w': Walk, h: nat)
    requires WalkOk(u, w) && WalkOk(u, w') && SwitchHop(u, w, w') && InStep(u, leg, w', h)
    ensures Along(u, leg, w', h) || (Stranded(u, w') && !Deliverable(u, leg))
  {
    if !w'.cur.kind.Switch? && !IsDest(u, EndOf(u, w')) {
      BecomesStranded(u, w, w');
      StrandedNever(u, w');
      NeverDeliverable(u, leg, w', h);
    }
  }

  lemma StrandedNever(u: Request, w: Walk)
    requires Stranded(u, w)
    ensures forall k :: !Forwarded(u, EndOf(u, w), k)
  {
    var e := EndOf(u, w);
    forall k: nat ensures !Forwarded(u, e, k) {
      if w.cur.kind.Switch? && k > 0 {
        assert !Forwarded(u, u.f.links[End(e.guid, w.out)], k - 1);
      }
    }
  }

  lemma NeverDeliverable(u: Request, leg: Leg, w: Walk, h: nat)
    requires InStep(u, leg, w, h) && forall k :: !Forwarded(u, EndOf(u, w), k)
    ensures !Deliverable(u, leg)
  {
    forall k: nat ensures !Forwarded(u, leg.start, k) {
      if k >= h {
        assert !Forwarded(u, EndOf(u, w), k - h);
      }
    }
  }

  // ---------------------------------------------------------------- leaving the start

  /** An active end node with the start's port GUID that is not the destination. */
  ghost predicate Own(u: Request, guid: Guid, e: End) {
    && e.guid in u.f.stations
    && var st := u.f.stations[e.guid];
    && (st.kind.CA? || st.kind.Router?)
    && e.port in st.ports
    && st.ports[e.port].guid == guid
    && st.ports[e.port].state == 4
    && !IsDest(u, e)
  }

  /** The station after the first c hops of the route to the start. */
  ghost function Before(u: Request, c: nat): Option<End>
    requires Asked(u) && c <= u.from.cnt
  {
    Resolve(u.f, u.root, Hops(u.from)[..c])
  }

  /** Going back over the route to the start until something else than the start's own port is met. */
  ghost function Backed(u: Request, guid: Guid, c: nat): Option<Leg>
    requires Asked(u) && c <= u.from.cnt
  {
    var e := Before(u, c);
    if e.None? then None
    else if !Own(u, guid, e.value) then Some(Leg(e.value, c, u.from.cnt - c))
    else if c == 0 then None
    else Backed(u, guid, c - 1)
  }

  /** Where forwarding takes over from the start: at the start itself, behind it on the way it was
      reached, or, when it is the local port, over that port's own link. */
  ghost function Departure(u: Request, guid: Guid): Option<Leg>
    requires Asked(u)
  {
    if u.from.cnt > 0 || !Own(u, guid, u.root) then Backed(u, guid, u.from.cnt)
    else if u.root.port == 0 then None
    else
      var e := Follow(u.f, u.root, u.root.port % 256);
      if e.None? then None else Some(Leg(e.value, 1, 1))
  }

  /** Forwarding from where the start is left meets the destination, within the limits. */
  ghost predicate Reaches(u: Request, guid: Guid)
    requires Asked(u)
  {
    var leg := Departure(u, guid);
    leg.Some? && Deliverable(u, leg.value)
  }

  /** An end node that is neither the destination nor the start's port, or a station of unknown kind. */
  ghost predicate DeadEnd(u: Request, guid: Guid, w: Walk) {
    if EndNode(w.cur) then w.cur.portGuid != guid else !w.cur.kind.Switch?
  }

  /** Between the local port and an end node across its link there is only back and forth. */
  ghost predicate Shuttling(u: Request, w: Walk)
    requires WalkOk(u, w)
  {
    && w.next == w.cur
    && StrandedEnd(u, u.root)
    && StrandedEnd(u, EndOf(u, w))
    && (w.path.cnt == 1 ||
        (w.path.cnt == 0 &&
         if w.cur.portNum == 0 then u.root.port == 0
         else
           var e := Follow(u.f, u.root, w.cur.portNum % 256);
           e.Some? ==> StrandedEnd(u, e.value)))
  }

  /** The walk can only end without an answer. */
  ghost predicate Lost(u: Request, guid: Guid, w: Walk) {
    && WalkOk(u, w)
    && (|| Inactive(w.cur, w.enhanced)
        || (!IsDest(u, EndOf(u, w)) && (Stranded(u, w) || DeadEnd(u, guid, w) || Shuttling(u, w))))
  }

  lemma ShuttlingTurn(u: Request, guid: Guid, w: Walk)
    requires Asked(u) && WalkOk(u, w) && Shuttling(u, w) && !DeadEnd(u, guid, w)
    ensures
      var t := Turned(u, w, guid);
      !t.Found? && (t.On? ==> Lost(u, guid, t.walk))
  {
    TurnKeeps(u, w, guid);
    if w.path.cnt == 1 {
      assert Hops(w.path) == [w.path.p[1]];
      assert Hops(w.path)[..0] == [];
      assert Hops(Shorten(w.path)) == [];
    } else if w.cur.portNum != 0 {
      var ext := ExtendPath(w.path, w.cur.portNum).value;
      assert Hops(ext) == [] + [w.cur.portNum % 256];
      ResolveMore(u.f, u.root, [], w.cur.portNum % 256);
    }
  }

  lemma LostTurn(u: Request, guid: Guid, w: Walk)
    requires Asked(u) && Lost(u, guid, w)
    ensures
      var t := Turned(u, w, guid);
      !t.Found? && (t.On? ==> Lost(u, guid, t.walk))
  {
    TurnKeeps(u, w, guid);
    if Inactive(w.cur, w.enhanced) {
    } else if Stranded(u, w) {
      StaysStranded(u, w, guid);
    } else if !DeadEnd(u, guid, w) {
      ShuttlingTurn(u, guid, w);
    }
  }

  // ---------------------------------------------------------------- the whole walk

  /** Still on the route to the start, at the start's own port. */
  ghost predicate Backing(u: Request, guid: Guid, w: Walk, t: nat)
    requires Asked(u)
  {
    && WalkOk(u, w)
    && Own(u, guid, EndOf(u, w))
    && if u.from.cnt == 0 then t == 0 && w.path == u.from && w.cur.portNum == u.root.port
       else
         && t < u.from.cnt
         && w.path == u.from.(cnt := u.from.cnt - t)
         && Departure(u, guid) == Backed(u, guid, u.from.cnt - t)
  }

  /** After t turns the answer is open and is the fabric's, or it is no. */
  ghost predicate Open(u: Request, guid: Guid, w: Walk, t: nat)
    requires Asked(u)
  {
    || (Lost(u, guid, w) && !Reaches(u, guid))
    || Backing(u, guid, w, t)
    || (Departure(u, guid).Some? && var leg := Departure(u, guid).value;
        leg.used <= t && Along(u, leg, w, t - leg.used))
  }

  /** What turn t tells of the answer. */
  ghost predicate Tells(u: Request, guid: Guid, t: nat, turn: Turn)
    requires Asked(u)
  {
    match turn
    case On(w) => Open(u, guid, w, t + 1)
    case Bad => !Reaches(u, guid)
    case Found(_) => t < MAXHOPS - 1 <==> Reaches(u, guid)
  }

  /** Arriving where forwarding takes over. */
  lemma ArriveOnLeg(u: Request, guid: Guid, w: Walk, path: DrPath, next: Reading, leg: Leg, t: nat)
    requires Asked(u) && Departure(u, guid) == Some(leg) && leg.used == t + 1 && PathSized(path) && path.cnt == leg.cnt
    requires Resolve(u.f, u.root, Hops(path)) == Some(leg.start) && ReadEnd(u.f, leg.start).Some?
    requires next == ReadEnd(u.f, leg.start).value.(portNum := next.portNum)
    requires Own(u, guid, leg.start) ==> leg.cnt == 1 && StrandedEnd(u, u.root)
    ensures Tells(u, guid, t, Arrive(u, w, path, next))
  {
    var turn := Arrive(u, w, path, next);
    ArriveKeeps(u, w, path, next, ReadEnd(u.f, leg.start).value);
    if turn.Bad? {
      assert !Usable(u, leg.start);
    } else {
      LegBegins(u, guid, leg, turn.walk);
    }
  }

  lemma LegBegins(u: Request, guid: Guid, leg: Leg, w: Walk)
    requires Asked(u) && Departure(u, guid) == Some(leg) && WalkOk(u, w) && EndOf(u, w) == leg.start
    requires w.path.cnt == leg.cnt
    requires !Inactive(w.cur, w.enhanced)
    requires Own(u, guid, leg.start) ==> w.next == w.cur && leg.cnt == 1 && StrandedEnd(u, u.root)
    ensures Open(u, guid, w, leg.used)
  {
    assert Usable(u, leg.start);
    if !w.cur.kind.Switch? && !IsDest(u, leg.start) {
      assert forall k :: !Forwarded(u, leg.start, k);
    } else {
      assert InStep(u, leg, w, 0);
    }
  }

  /** One hop back from the start's own port. */
  lemma BackTurn(u: Request, guid: Guid, w: Walk, t: nat)
    requires Asked(u) && Backing(u, guid, w, t) && u.from.cnt > 0
    ensures Tells(u, guid, t, FromEndNode(u, w, guid))
  {
    var c := u.from.cnt - t;
    var back := Shorten(w.path);
    BackedStep(u, guid, w, c, back);
    var r := GetNode(u.f, u.root, back);
    if r.Some? {
      var next := r.value.(portNum := w.path.p[w.path.cnt]);
      var e := Before(u, c - 1).value;
      if !Own(u, guid, e) {
        ArriveOnLeg(u, guid, w, back, next, Leg(e, c - 1, t + 1), t);
      } else {
        ArriveBack(u, guid, w, t, next, r.value);
      }
    }
  }

  lemma BackedStep(u: Request, guid: Guid, w: Walk, c: nat, back: DrPath)
    requires Asked(u) && 0 < c <= u.from.cnt && w.path == u.from.(cnt := c) && WalkOk(u, w) && Own(u, guid, EndOf(u, w))
    requires back == Shorten(w.path)
    ensures Hops(back) == Hops(u.from)[..c - 1] && Backed(u, guid, c) == Backed(u, guid, c - 1)
  {
    assert Hops(w.path) == Hops(u.from)[..c];
  }

  lemma ArriveBack(u: Request, guid: Guid, w: Walk, t: nat, next: Reading, r: Reading)
    requires Asked(u) && Backing(u, guid, w, t) && u.from.cnt > 0
    requires
      var back := Shorten(w.path);
      GetNode(u.f, u.root, back) == Some(r) && Own(u, guid, Resolve(u.f, u.root, Hops(back)).value)
    requires next == r.(portNum := w.path.p[w.path.cnt])
    ensures Tells(u, guid, t, Arrive(u, w, Shorten(w.path), next))
  {
    var c := u.from.cnt - t;
    var back := Shorten(w.path);
    BackedStep(u, guid, w, c, back);
    ArriveKeeps(u, w, back, next, r);
    if c == 1 {
      BackAtRoot(u, guid, w, Arrive(u, w, back, next).walk);
    }
  }

  /** Back at the local port, which is the start's own too: it can only be left the way it was come to. */
  lemma BackAtRoot(u: Request, guid: Guid, w: Walk, w': Walk)
    requires Asked(u) && WalkOk(u, w) && Own(u, guid, EndOf(u, w)) && w.path.cnt == 1
    requires WalkOk(u, w') && Own(u, guid, EndOf(u, w')) && w'.path.cnt == 0 && w'.next == w'.cur
    requires w'.cur.portNum == w.path.p[1]
    ensures Lost(u, guid, w')
  {
    assert Hops(w.path) == [] + [w.path.p[1]];
    ResolveMore(u.f, u.root, [], w.path.p[1]);
    assert Hops(w'.path) == [];
  }

  /** Out of the local port. */
  lemma OutTurn(u: Request, guid: Guid, w: Walk)
    requires Asked(u) && Backing(u, guid, w, 0) && u.from.cnt == 0
    ensures Tells(u, guid, 0, FromEndNode(u, w, guid))
  {
    assert Hops(w.path) == [];
    if u.root.port == 0 {
      var r := ReadEnd(u.f, u.root).value;
      ArriveKeeps(u, w, w.path, r, r);
    } else {
      OutOverLink(u, guid, w, ExtendPath(w.path, u.root.port).value);
    }
  }

  /** What is read over the local port's link, and what the turn makes of it. */
  ghost function OverLink(u: Request, w: Walk, ext: DrPath): Turn
    requires PathSized(ext)
  {
    var far := GetNode(u.f, u.root, ext);
    if far.None? then Bad else Arrive(u, w, ext, far.value)
  }

  lemma OutOverLink(u: Request, guid: Guid, w: Walk, ext: DrPath)
    requires Asked(u) && Backing(u, guid, w, 0) && u.from.cnt == 0 && u.root.port != 0
    requires ExtendPath(w.path, u.root.port) == Some(ext)
    ensures FromEndNode(u, w, guid) == OverLink(u, w, ext) && Tells(u, guid, 0, OverLink(u, w, ext))
  {
    assert Hops(w.path) == [];
    OverLinkTells(u, guid, w, ext);
  }

  lemma OverLinkTells(u: Request, guid: Guid, w: Walk, ext: DrPath)
    requires Asked(u) && Own(u, guid, u.root) && u.from.cnt == 0 && u.root.port != 0
    requires PathSized(ext) && ext.cnt == 1 && Hops(ext) == [u.root.port % 256]
    ensures Tells(u, guid, 0, OverLink(u, w, ext))
  {
    var port := u.root.port % 256;
    assert [] + [port] == [port];
    ResolveMore(u.f, u.root, [], port);
    var e := Follow(u.f, u.root, port);
    var far := GetNode(u.f, u.root, ext);
    if far.Some? {
      ArriveOnLeg(u, guid, w, ext, far.value, Leg(e.value, 1, 1), 0);
    } else {
      NobodyThere(u, guid, e);
    }
  }

  /** When nobody answers over the local port's link there is no route. */
  lemma NobodyThere(u: Request, guid: Guid, e: Option<End>)
    requires Asked(u) && u.from.cnt == 0 && Own(u, guid, u.root) && u.root.port != 0
    requires e == Follow(u.f, u.root, u.root.port % 256) && (e.None? || ReadEnd(u.f, e.value).None?)
    ensures !Reaches(u, guid)
  {
    if e.Some? {
      ReadUsable(u, e.value);
    }
  }

  lemma OpenTurn(u: Request, guid: Guid, w: Walk, t: nat)
    requires Asked(u) && Open(u, guid, w, t)
    ensures WalkOk(u, w) && Tells(u, guid, t, Turned(u, w, guid))
  {
    if Lost(u, guid, w) && !Reaches(u, guid) {
      LostTurn(u, guid, w);
    } else if Backing(u, guid, w, t) {
      BackingTurn(u, guid, w, t);
    } else {
      LegTurn(u, guid, Departure(u, guid).value, w, t);
    }
  }

  lemma LegTurn(u: Request, guid: Guid, leg: Leg, w: Walk, t: nat)
    requires Asked(u) && Departure(u, guid) == Some(leg) && leg.used <= t && Along(u, leg, w, t - leg.used)
    ensures Tells(u, guid, t, Turned(u, w, guid))
  {
    if w.cur.kind.Switch? {
      SwitchTurn(u, w, guid);
      InStepTells(u, guid, leg, w, t, Turned(u, w, guid));
    } else {
      MetTells(u, guid, leg, w, t);
    }
  }

  lemma InStepTells(u: Request, guid: Guid, leg: Leg, w: Walk, t: nat, turn: Turn)
    requires Asked(u) && Departure(u, guid) == Some(leg) && leg.used <= t && InStep(u, leg, w, t - leg.used)
    requires HopTold(u, w, turn)
    ensures Tells(u, guid, t, turn)
  {
    InStepTurn(u, leg, w, t - leg.used, turn);
    LegTells(u, guid, leg, t, turn);
  }

  /** An end node along the leg is the destination. */
  lemma MetTells(u: Request, guid: Guid, leg: Leg, w: Walk, t: nat)
    requires Asked(u) && Departure(u, guid) == Some(leg) && leg.used <= t && InStep(u, leg, w, t - leg.used)
    requires !w.cur.kind.Switch? && Forwarded(u, EndOf(u, w), 0)
    ensures Tells(u, guid, t, Turned(u, w, guid))
  {
    FoundDeliverable(u, leg, w, t - leg.used);
  }

  lemma LegTells(u: Request, guid: Guid, leg: Leg, t: nat, turn: Turn)
    requires Asked(u) && Departure(u, guid) == Some(leg) && leg.used <= t && TurnTells(u, leg, t - leg.used, turn)
    ensures Tells(u, guid, t, turn)
  {
    if turn.On? && !Along(u, leg, turn.walk, t + 1 - leg.used) {
      assert Lost(u, guid, turn.walk);
    }
  }

  lemma BackingTurn(u: Request, guid: Guid, w: Walk, t: nat)
    requires Asked(u) && Backing(u, guid, w, t)
    ensures Tells(u, guid, t, Turned(u, w, guid))
  {
    if u.from.cnt > 0 {
      BackTurn(u, guid, w, t);
    } else {
      OutTurn(u, guid, w);
    }
  }

  /** A start that is not active delivers nothing. */
  lemma InactiveStart(u: Request, r: Reading, w: Walk)
    requires Asked(u) && GetNode(u.f, u.root, u.from) == Some(r) && Begin(u, r) == On(w) && Inactive(r, w.enhanced)
    ensures !Reaches(u, r.portGuid)
  {
    assert Hops(u.from)[..u.from.cnt] == Hops(u.from);
  }

  /** The first node, of whatever kind. */
  lemma BeginOpen(u: Request, r: Reading)
    requires Asked(u) && GetNode(u.f, u.root, u.from) == Some(r)
    ensures
      match Begin(u, r)
      case On(w) =>
        WalkOk(u, w) && w.path == u.from && w.cur == r && Open(u, r.portGuid, w, 0)
      case Bad => !Reaches(u, r.portGuid)
      case Found(_) => false
  {
    var guid, e := r.portGuid, Resolve(u.f, u.root, Hops(u.from)).value;
    assert Hops(u.from)[..u.from.cnt] == Hops(u.from);
    var turn := Begin(u, r);
    if turn.Bad? {
      assert !Usable(u, e);
    } else if Inactive(r, turn.walk.enhanced) {
      InactiveStart(u, r, turn.walk);
    } else if !Own(u, guid, e) {
      LegBegins(u, guid, Leg(e, u.from.cnt, 0), turn.walk);
    }
  }

  /** A successful trace: each step follows the tables, and the last hop list is the direct
      route at which the destination port was read. */
  ghost predicate Traced(u: Request, guid: Guid, visits: seq<seq<nat>>, path: DrPath) {
    && FoundOk(u, path)
    && Trail(u, guid, visits)
    && |visits| <= MAXHOPS
    && PathSized(u.from)
    && visits[0] == Hops(u.from)
    && visits[|visits| - 1] == Hops(path)
  }

  /** The trail so far ends at the current direct route. */
  ghost predicate TrailTo(u: Request, guid: Guid, visits: seq<seq<nat>>, w: Walk) {
    && Asked(u)
    && PathSized(w.path)
    && Trail(u, guid, visits)
    && visits[0] == Hops(u.from)
    && visits[|visits| - 1] == Hops(w.path)
    && (w.path.cnt == 0 && EndNode(w.cur) ==> w.cur.portNum == LocalPort(u, visits))
  }

  lemma MovesFrom(u: Request, guid: Guid, visits: seq<seq<nat>>, w: Walk, v': seq<nat>)
    requires TrailTo(u, guid, visits, w) && WalkOk(u, w) && Moves(u, guid, w.cur.portNum, Hops(w.path), v')
    ensures Moves(u, guid, LocalPort(u, visits), Hops(w.path), v')
    ensures Trail(u, guid, visits + [v'])
  {
    assert (visits + [v'])[..|visits|] == visits;
  }

  lemma TrailMore(u: Request, guid: Guid, visits: seq<seq<nat>>, w: Walk, w': Walk)
    requires TrailTo(u, guid, visits, w) && WalkOk(u, w) && TurnOk(u, guid, w, On(w'))
    ensures TrailTo(u, guid, visits + [Hops(w'.path)], w')
  {
    MovesFrom(u, guid, visits, w, Hops(w'.path));
  }

  /** The trail of a successful walk. */
  lemma TrailFound(u: Request, guid: Guid, visits: seq<seq<nat>>, w: Walk, path: DrPath)
    returns (all: seq<seq<nat>>)
    requires TrailTo(u, guid, visits, w) && WalkOk(u, w) && |visits| < MAXHOPS && TurnOk(u, guid, w, Found(path))
    ensures Traced(u, guid, all, path)
  {
    all := visits;
    if Hops(path) != Hops(w.path) {
      MovesFrom(u, guid, visits, w, Hops(path));
      all := visits + [Hops(path)];
    }
  }

  /** The loop after t turns. */
  ghost predicate Going(u: Request, guid: Guid, visits: seq<seq<nat>>, w: Walk, t: nat) {
    Asked(u) && WalkOk(u, w) && TrailTo(u, guid, visits, w) && |visits| == t + 1 && Open(u, guid, w, t)
  }

  lemma GoingOn(u: Request, guid: Guid, visits: seq<seq<nat>>, w: Walk, t: nat, w': Walk)
    requires Going(u, guid, visits, w, t) && TurnOk(u, guid, w, On(w')) && Tells(u, guid, t, On(w'))
    ensures Going(u, guid, visits + [Hops(w'.path)], w', t + 1)
  {
    TrailMore(u, guid, visits, w, w');
  }

  /** The loop body. */
  method TakeTurn(u: Request, w: Walk, guid: Guid, ghost t: nat) returns (turn: Turn)
    requires Asked(u) && WalkOk(u, w) && Open(u, guid, w, t)
    ensures TurnOk(u, guid, w, turn) && Tells(u, guid, t, turn)
  {
    turn := Turned(u, w, guid);
    TurnKeeps(u, w, guid);
    OpenTurn(u, guid, w, t);
  }

  /** The loop: it runs while the hop budget lasts, and a destination met on the last turn is
      reported as not found. */
  method WalkOn(u: Request, walk: Walk, guid: Guid) returns (ok: bool, path: DrPath, ghost visits: seq<seq<nat>>)
    requires Asked(u) && Going(u, guid, [Hops(u.from)], walk, 0)
    ensures ok ==> Traced(u, guid, visits, path)
    ensures ok <==> Reaches(u, guid)
  {
    var w, maxHops := walk, MAXHOPS;
    visits := [Hops(u.from)];
    while maxHops > 0
      invariant 0 <= maxHops <= MAXHOPS && Going(u, guid, visits, w, MAXHOPS - maxHops)
    {
      maxHops := maxHops - 1;
      ghost var t := MAXHOPS - 1 - maxHops;
      var turn := TakeTurn(u, w, guid, t);
      if turn.Bad? {
        return false, w.path, visits;
      }
      if turn.Found? {
        ok, path := maxHops > 0, turn.path;
        if ok {
          visits := TrailFound(u, guid, visits, w, path);
        }
        return;
      }
      GoingOn(u, guid, visits, w, t, turn.walk);
      visits := visits + [Hops(turn.walk.path)];
      w := turn.walk;
    }
    OutOfHops(u, guid, w);
    return false, w.path, visits;
  }

  lemma OutOfHops(u: Request, guid: Guid, w: Walk)
    requires Asked(u) && Open(u, guid, w, MAXHOPS)
    ensures !Reaches(u, guid)
  {
  }

  /** `find_route`. */
  method FindRoute(u: Request, destRead: bool) returns (ok: bool, path: DrPath, ghost visits: seq<seq<nat>>)
    requires Asked(u)
    ensures
      var r := GetNode(u.f, u.root, u.from);
      ok <==> destRead && r.Some? && Reaches(u, r.value.portGuid)
    ensures ok ==> Traced(u, GetNode(u.f, u.root, u.from).value.portGuid, visits, path)
  {
    var first := GetNode(u.f, u.root, u.from);
    if first.None? || !destRead {
      return false, u.from, [];
    }
    var turn := Begin(u, first.value);
    BeginOpen(u, first.value);
    if turn.Bad? {
      return false, u.from, [];
    }
    ok, path, visits := WalkOn(u, turn.walk, first.value.portGuid);
  }

  // ---------------------------------------------------------------- one hop too far

  /** Switches 0 to 62 in a row: port 2 of each is cabled to port 1 of the next, and every table sends
      every LID to port 2. */
  function Chained(g: Guid): Station {
    var si := SwitchInfo(64, 63, false, map[0 := seq(64, i => 2)], 0, map[]);
    Station(Switch, 2, map[0 := PortInfo(g, 0, ACTIVE, 5)], Some(si))
  }

  ghost predicate IsRow(f: Fabric) {
    && (forall g: Guid :: g in f.stations <==> g < MAXHOPS)
    && (forall g: Guid :: g < MAXHOPS ==> f.stations[g] == Chained(g))
    && (forall g: Guid :: g < MAXHOPS - 1 ==> Cabled(f, g))
    && (forall e :: e in f.links ==> Plugged(e))
  }

  ghost predicate Cabled(f: Fabric, g: Guid)
    requires g < MAXHOPS - 1
  {
    && End(g, 2) in f.links && f.links[End(g, 2)] == End(g + 1, 1)
    && End(g + 1, 1) in f.links && f.links[End(g + 1, 1)] == End(g, 2)
  }

  predicate Plugged(e: End) {
    (e.port == 2 && e.guid < MAXHOPS - 1) || (e.port == 1 && 1 <= e.guid < MAXHOPS)
  }

  lemma RowExists() returns (f: Fabric)
    ensures IsRow(f)
  {
    f := Fabric(
      map g: Guid | 0 <= g < MAXHOPS :: Chained(g),
      (map g: Guid | 0 <= g < MAXHOPS - 1 :: End(g, 2) := End(g + 1, 1)) +
      (map g: Guid | 1 <= g < MAXHOPS :: End(g, 1) := End(g - 1, 2)));
  }

  lemma RowSound(f: Fabric)
    requires IsRow(f)
    ensures Sound(f)
  {
    forall e | e in f.links ensures f.links[e] in f.links && f.links[f.links[e]] == e {
      assert Plugged(e);
      assert e.port == 2 ==> Cabled(f, e.guid);
      assert e.port == 1 ==> Cabled(f, e.guid - 1);
    }
  }

  /** From switch 0 of the row to the management port of switch 62. */
  ghost predicate IsFar(u: Request) {
    && IsRow(u.f) && u.root == End(0, 0) && PathSized(u.from) && u.from.cnt == 0
    && u.lid == 1 && u.dest.portGuid == MAXHOPS - 1
  }

  lemma OnRow(u: Request, g: Guid, port: nat)
    requires IsFar(u) && g < MAXHOPS
    ensures ReadEnd(u.f, End(g, port)) == Some(Reading(g, Switch, 2, g, port, 0, ACTIVE)) && Lookup(u.f, g, 1) == 2
  {
    assert u.f.stations[g] == Chained(g);
  }

  lemma {:induction false} FarForwarded(u: Request, g: Guid, port: nat)
    requires IsFar(u) && g < MAXHOPS
    ensures Forwarded(u, End(g, port), MAXHOPS - 1 - g)
    decreases MAXHOPS - g
  {
    OnRow(u, g, port);
    if g < MAXHOPS - 1 {
      FarForwarded(u, g + 1, 1);
      assert Cabled(u.f, g);
    }
  }

  /** Forwarding meets the destination after one number of hops only. */
  lemma {:induction false} ForwardedOnce(u: Request, e: End, j: nat, k: nat)
    requires Forwarded(u, e, j) && Forwarded(u, e, k)
    ensures j == k
    decreases j
  {
    if j > 0 && k > 0 {
      ForwardedOnce(u, u.f.links[End(e.guid, Lookup(u.f, e.guid, u.lid))], j - 1, k - 1);
    }
  }

  lemma TooFar(u: Request)
    requires IsFar(u)
    ensures Asked(u) && Forwarded(u, u.root, MAXHOPS - 1) && !Reaches(u, 0)
  {
    RowSound(u.f);
    FarForwarded(u, 0, 0);
    OnRow(u, 0, 0);
    var leg := Leg(u.root, 0, 0);
    assert Hops(u.from)[..0] == [];
    assert Departure(u, 0) == Some(leg);
    forall k: nat | InReach(leg, k) ensures !Forwarded(u, leg.start, k) {
      if Forwarded(u, leg.start, k) {
        ForwardedOnce(u, leg.start, k, MAXHOPS - 1);
      }
    }
  }

  /** A destination that forwarding meets after 62 hops, with room for them in the path array, is not found. */
  lemma OneHopTooFar() returns (u: Request)
    ensures Asked(u) && u.from.cnt == 0 && Forwarded(u, u.root, 62) && 62 <= PATH_BYTES - 2
    ensures GetNode(u.f, u.root, u.from).Some? && !Reaches(u, GetNode(u.f, u.root, u.from).value.portGuid)
  {
    var f := RowExists();
    u := Request(f, End(0, 0), DrPath(0, seq(PATH_BYTES, i => 0)), 1, Reading(62, Switch, 2, 62, 1, 0, ACTIVE));
    TooFar(u);
    OnRow(u, 0, 0);
    assert Hops(u.from) == [];
  }
}
