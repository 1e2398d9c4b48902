/** An InfiniBand fabric as ibtracert sees it through subnet-management queries: stations,
    their ports and forwarding tables, the links between ports, and direct-routed paths.
    Each query is a pure function of the fabric, and any query may fail. */
module Fabric {
  import opened Common

  const MAXHOPS := 63

  type Guid = g: nat | g < 0x1_0000_0000_0000_0000

  datatype Kind = CA | Switch | Router | OtherKind

  /** PortInfo of one port, and the GUID that NodeInfo reports for it. */
  datatype PortInfo = PortInfo(guid: Guid, lid: nat, state: nat, physState: nat)

  /** SwitchInfo and the two forwarding tables, block by block; a missing block is a failing
      query. A multicast block is addressed by its number and its set of 16 ports. */
  datatype SwitchInfo = SwitchInfo(
    linearCap: nat, linearTop: nat, enhancedPort0: bool, linear: map<nat, seq<Byte>>,
    mcastCap: nat, mcast: map<(nat, nat), seq<nat>>)

  datatype Station = Station(kind: Kind, numPorts: nat, ports: map<nat, PortInfo>, switchInfo: Option<SwitchInfo>)

  /** One end of a link: a port of a station. */
  datatype End = End(guid: Guid, port: nat)

  datatype Fabric = Fabric(stations: map<Guid, Station>, links: map<End, End>)

  /** Cables have two ends, port counts are 8-bit fields, table blocks have their fixed sizes. */
  ghost predicate Sound(f: Fabric) {
    && (forall e :: e in f.links ==> f.links[e] in f.links && f.links[f.links[e]] == e)
    && (forall g :: g in f.stations ==> f.stations[g].numPorts < 256)
    && (forall g :: g in f.stations && f.stations[g].switchInfo.Some? ==> BlocksSized(f.stations[g].switchInfo.value))
  }

  ghost predicate BlocksSized(si: SwitchInfo) {
    && (forall b :: b in si.linear ==> |si.linear[b]| == 64)
    && (forall b :: b in si.mcast ==> |si.mcast[b]| == 32)
  }

  // ---------------------------------------------------------------- direct routes

  /** `ib_dr_path_t`: the hops are p[1..cnt]; bytes beyond are left over from earlier use. */
  datatype DrPath = DrPath(cnt: nat, p: seq<Byte>)

  ghost predicate PathSized(path: DrPath) {
    |path.p| == PATH_BYTES && path.cnt < PATH_BYTES
  }

  function Hops(path: DrPath): seq<Byte>
    requires PathSized(path)
  {
    path.p[1..path.cnt + 1]
  }

  /** `extend_dpath`: None when the path array is full. */
  function ExtendPath(path: DrPath, port: nat): (r: Option<DrPath>)
    requires PathSized(path)
    ensures r.None? <==> path.cnt >= PATH_BYTES - 2
    ensures r.Some? ==> PathSized(r.value) && r.value.cnt == path.cnt + 1
    ensures r.Some? ==> Hops(r.value) == Hops(path) + [port % 256]
  {
    if path.cnt + 2 >= PATH_BYTES then None
    else Some(DrPath(path.cnt + 1, path.p[path.cnt + 1 := port % 256]))
  }

  /** The in-place `cnt--` that takes the last hop back. */
  function Shorten(path: DrPath): (r: DrPath)
    requires PathSized(path) && path.cnt > 0
    ensures PathSized(r) && Hops(path) == Hops(r) + [path.p[path.cnt]]
  {
    path.(cnt := path.cnt - 1)
  }

  /** Where one hop leads. Port 0 of a switch is its own management port. */
  function Follow(f: Fabric, at: End, port: nat): Option<End> {
    if port == 0 then
      if at.guid in f.stations && f.stations[at.guid].kind.Switch? then Some(End(at.guid, 0)) else None
    else if End(at.guid, port) in f.links then Some(f.links[End(at.guid, port)])
    else None
  }

  /** Where a direct route from `root` ends. */
  function Resolve(f: Fabric, root: End, hops: seq<nat>): Option<End> {
    if hops == [] then Some(root)
    else
      var e := Resolve(f, root, hops[..|hops| - 1]);
      if e.None? then None else Follow(f, e.value, hops[|hops| - 1])
  }

  lemma ResolveMore(f: Fabric, root: End, hops: seq<nat>, port: nat)
    ensures Resolve(f, root, hops + [port]) ==
            var e := Resolve(f, root, hops);
            if e.None? then None else Follow(f, e.value, port)
  {
    assert (hops + [port])[..|hops|] == hops;
  }

  // ---------------------------------------------------------------- reading a station

  /** What `get_node` learns at the end of a direct route. */
  datatype Reading = Reading(guid: Guid, kind: Kind, numPorts: nat, portGuid: Guid, portNum: nat, lid: nat, state: nat)

  /** A switch answers for its management port, whichever port the query came in by. */
  function ReadEnd(f: Fabric, e: End): Option<Reading> {
    if e.guid !in f.stations then None
    else
      var st := f.stations[e.guid];
      var port := if st.kind.Switch? then 0 else e.port;
      if port !in st.ports then None
      else
        var pi := st.ports[port];
        Some(Reading(e.guid, st.kind, st.numPorts, pi.guid, e.port, pi.lid, pi.state))
  }

  /** Somebody answers at e. */
  ghost predicate Responds(f: Fabric, e: End) {
    e.guid in f.stations && (if f.stations[e.guid].kind.Switch? then 0 else e.port) in f.stations[e.guid].ports
  }

  /** The port that answers at e has this GUID; a switch answers for its port 0. */
  ghost predicate HasGuid(f: Fabric, e: End, guid: Guid) {
    && e.guid in f.stations
    && var st := f.stations[e.guid];
    if st.kind.Switch? then 0 in st.ports && st.ports[0].guid == guid
    else e.port in st.ports && st.ports[e.port].guid == guid
  }

  /** `get_node`. */
  function GetNode(f: Fabric, root: End, path: DrPath): Option<Reading>
    requires PathSized(path)
  {
    var e := Resolve(f, root, Hops(path));
    if e.None? then None else ReadEnd(f, e.value)
  }
}
