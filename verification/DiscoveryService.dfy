/** Accepting, un-accepting and regrouping discovered devices across the device, node, entity and
    live point stores. */
module DiscoveryService {
  import opened Options
  import opened ModbusTypes
  import opened LivePoints
  import opened Grouping
  import opened NodeStores

  datatype DeviceState = Discovered | Accepted | Ignored

  datatype Device = Device(state: DeviceState, dis: string, protocol: string, acceptedAt: Option<int>)

  datatype Event = DeviceAccepted(device: string, protocol: string, pointCount: nat)

  datatype Outcome = Ok | NotFound | NotAccepted

  type Tags = map<string, Option<string>>

  // What the service is given: tag suggestions, group names, the printed point set, and the orders
  // in which the stores list accepted devices and Space nodes.
  datatype Policy = Policy(
    equipTags: string -> Tags,
    pointTags: (DiscoveredPoint, Tags) -> Tags,
    groupName: string -> string,
    pointSet: seq<DiscoveredPoint> -> string,
    accepted: map<string, Device> -> seq<string>,
    spaces: Nodes -> seq<string>)
  {
    ghost predicate Valid() {
      && (forall ns: Nodes {:trigger spaces(ns)} :: ListsSpaces(ns, spaces(ns)))
      && (forall ds: map<string, Device>, d: string {:trigger d in accepted(ds)} ::
            d in accepted(ds) <==> d in ds && ds[d].state == Accepted)
    }
  }

  datatype World = World(
    devices: map<string, Device>,
    points: map<string, seq<DiscoveredPoint>>,
    nodes: Nodes,
    entities: Entities,
    live: map<PointKey, Entry>,
    events: seq<Event>)
  {
    function PointsOf(d: string): seq<DiscoveredPoint> {
      Lookup(points, d).GetOr([])
    }

    function GroupOf(d: string): string {
      GroupNodeId(Fingerprint(PointsOf(d)))
    }
  }

  function PointId(d: string, point: string): string { d + "/" + point }

  // ----- the rows an accepted device adds -----

  function GroupNode(p: Policy, dis: string, pts: seq<DiscoveredPoint>): Node {
    Node(Space, p.groupName(dis), None, map["pointSet" := p.pointSet(pts)], false, None)
  }

  function EquipNode(dis: string, group: string): Node {
    Node(Equip, dis, Some(group), map[], false, None)
  }

  function PointNode(d: string, pt: DiscoveredPoint): Node {
    Node(Point, pt.dis, Some(d), map[], pt.writable, Some(pt.binding))
  }

  function EquipEntity(p: Policy, dis: string): Entity {
    Entity("equip", dis, None, p.equipTags(dis), map[])
  }

  function NewPointEntity(p: Policy, d: string, dis: string, pt: DiscoveredPoint): Entity {
    Entity("point", pt.dis, Some(d), p.pointTags(pt, p.equipTags(dis)), map[])
  }

  function DefaultValue(k: PointKind): PointValue {
    match k
    case Binary => Bool(false)
    case Analog => Float(0.0)
    case Multistate => Integer(0)
  }

  function InsertDefault(live: map<PointKey, Entry>, key: PointKey, v: PointValue): map<PointKey, Entry> {
    if key in live then live else live[key := Entry(v, 0)]
  }

  function RemoveDevice(live: map<PointKey, Entry>, d: string): map<PointKey, Entry> {
    map k | k in live && k.device != d :: live[k]
  }

  function WithGroup(p: Policy, ns: Nodes, group: string, dis: string, pts: seq<DiscoveredPoint>): Nodes {
    if group in ns then ns
    else
      var bare := Node(Space, p.groupName(dis), None, map[], false, None);
      SetProperty(CreateNode(ns, group, bare), group, "pointSet", p.pointSet(pts))
  }

  function CreatePointNodes(ns: Nodes, d: string, pts: seq<DiscoveredPoint>, n: nat): Nodes
    requires n <= |pts|
  {
    if n == 0 then ns
    else CreateNode(CreatePointNodes(ns, d, pts, n - 1), PointId(d, pts[n - 1].id), PointNode(d, pts[n - 1]))
  }

  function CreatePointEntities(p: Policy, es: Entities, d: string, dis: string, pts: seq<DiscoveredPoint>, n: nat): Entities
    requires n <= |pts|
  {
    if n == 0 then es
    else
      var id := PointId(d, pts[n - 1].id);
      SetRef(CreateEntity(CreatePointEntities(p, es, d, dis, pts, n - 1), id, NewPointEntity(p, d, dis, pts[n - 1])),
             id, "equipRef", d)
  }

  function RegisterPoints(live: map<PointKey, Entry>, d: string, pts: seq<DiscoveredPoint>, n: nat): map<PointKey, Entry>
    requires n <= |pts|
  {
    if n == 0 then live
    else InsertDefault(RegisterPoints(live, d, pts, n - 1), PointKey(d, pts[n - 1].id), DefaultValue(pts[n - 1].kind))
  }

  function DeletePointNodes(ns: Nodes, d: string, pts: seq<DiscoveredPoint>, n: nat): Nodes
    requires n <= |pts|
  {
    if n == 0 then ns else DeleteNode(DeletePointNodes(ns, d, pts, n - 1), PointId(d, pts[n - 1].id))
  }

  function DeletePointEntities(es: Entities, d: string, pts: seq<DiscoveredPoint>, n: nat): Entities
    requires n <= |pts|
  {
    if n == 0 then es else DeleteEntity(DeletePointEntities(es, d, pts, n - 1), PointId(d, pts[n - 1].id))
  }

  // ----- finding devices -----

  predicate HasRow(rows: seq<DiscoveredPoint>, id: string) {
    exists r <- rows :: r.id == id
  }

  // The rows whose point is still on the device.
  function KeepFirst(rows: seq<DiscoveredPoint>, pts: seq<DiscoveredPoint>, n: nat): seq<DiscoveredPoint>
    requires n <= |rows|
  {
    if n == 0 then []
    else KeepFirst(rows, pts, n - 1) + if HasRow(pts, rows[n - 1].id) then [rows[n - 1]] else []
  }

  // A point that has a row updates it, but for the display name; any other point is a new row.
  function UpsertPoint(rows: seq<DiscoveredPoint>, pt: DiscoveredPoint): seq<DiscoveredPoint> {
    if HasRow(rows, pt.id)
    then seq(|rows|, i requires 0 <= i < |rows| => if rows[i].id == pt.id then pt.(dis := rows[i].dis) else rows[i])
    else rows + [pt]
  }

  function UpsertFirst(rows: seq<DiscoveredPoint>, pts: seq<DiscoveredPoint>, n: nat): seq<DiscoveredPoint>
    requires n <= |pts|
  {
    if n == 0 then rows else UpsertPoint(UpsertFirst(rows, pts, n - 1), pts[n - 1])
  }

  // A scan that read no points leaves the rows alone.
  function Upserted(rows: seq<DiscoveredPoint>, pts: seq<DiscoveredPoint>): seq<DiscoveredPoint> {
    if pts == [] then rows else UpsertFirst(KeepFirst(rows, pts, |rows|), pts, |pts|)
  }

  // New points for a device that is known, from a scan, a profile or a probe.
  function Repointed(w: World, d: string, pts: seq<DiscoveredPoint>): World {
    if d !in w.devices || pts == [] then w else w.(points := w.points[d := Upserted(w.PointsOf(d), pts)])
  }

  // A scan adds a device or renames it; what state it is in, and since when, stays as it is.
  function Found(w: World, d: string, dis: string, protocol: string, pts: seq<DiscoveredPoint>): World {
    var device := if d in w.devices then w.devices[d].(dis := dis) else Device(Discovered, dis, protocol, None);
    Repointed(w.(devices := w.devices[d := device]), d, pts)
  }

  // Ignoring a device, or taking that back, looks at nothing but the device row.
  function Marked(w: World, d: string, state: DeviceState): (World, Outcome) {
    if d !in w.devices then (w, NotFound) else (w.(devices := w.devices[d := w.devices[d].(state := state)]), Ok)
  }

  predicate IsAccepted(w: World, d: string) {
    d in w.devices && w.devices[d].state == Accepted
  }

  predicate IsPending(w: World, d: string) {
    d in w.devices && w.devices[d].state == Discovered
  }

  // Run at startup: devices that nobody decided on are forgotten, with their points.
  function Cleared(w: World): World {
    w.(devices := map d | d in w.devices && !IsPending(w, d) :: w.devices[d],
       points := map d | d in w.points && !IsPending(w, d) :: w.points[d])
  }

  // ----- the operations -----

  function EquippedNodes(p: Policy, w: World, d: string): Nodes
    requires d in w.devices
  {
    var dis, pts, group := w.devices[d].dis, w.PointsOf(d), w.GroupOf(d);
    CreateNode(WithGroup(p, w.nodes, group, dis, pts), d, EquipNode(dis, group))
  }

  function AcceptDevice(p: Policy, w: World, d: string, now: int): (World, Outcome) {
    if d !in w.devices then (w, NotFound)
    else if w.devices[d].state == Accepted then (w, Ok)
    else
      var device, pts := w.devices[d], w.PointsOf(d);
      (World(w.devices[d := device.(state := Accepted, acceptedAt := Some(now))], w.points,
             CreatePointNodes(EquippedNodes(p, w, d), d, pts, |pts|),
             CreatePointEntities(p, CreateEntity(w.entities, d, EquipEntity(p, device.dis)), d, device.dis, pts, |pts|),
             RegisterPoints(w.live, d, pts, |pts|),
             w.events + [DeviceAccepted(d, device.protocol, |pts|)]), Ok)
  }

  function UnacceptDevice(p: Policy, w: World, d: string): (World, Outcome) {
    if d !in w.devices then (w, NotFound)
    else if w.devices[d].state != Accepted then (w, NotAccepted)
    else
      var pts := w.PointsOf(d);
      var ns := DeleteNode(DeletePointNodes(w.nodes, d, pts, |pts|), d);
      (w.(devices := w.devices[d := w.devices[d].(state := Discovered)],
          nodes := Sweep(ns, p.spaces(ns)),
          entities := DeleteEntity(DeletePointEntities(w.entities, d, pts, |pts|), d),
          live := RemoveDevice(w.live, d)), Ok)
  }

  // Regrouping looks only at accepted devices that have points.
  predicate HasPoints(w: World, d: string) {
    d in w.points && w.points[d] != []
  }

  function MoveOne(p: Policy, w: World, ns: Nodes, d: string): (Nodes, nat)
    requires d in w.devices
  {
    var group := w.GroupOf(d);
    if !HasPoints(w, d) || (d in ns && ns[d].parent == Some(group)) then (ns, 0)
    else (SetParent(WithGroup(p, ns, group, w.devices[d].dis, w.PointsOf(d)), d, group), 1)
  }

  function MoveFirst(p: Policy, w: World, ns: Nodes, ds: seq<string>, n: nat): (Nodes, nat)
    requires n <= |ds| && forall d <- ds :: d in w.devices
  {
    if n == 0 then (ns, 0)
    else
      var (before, count) := MoveFirst(p, w, ns, ds, n - 1);
      var (after, one) := MoveOne(p, w, before, ds[n - 1]);
      (after, count + one)
  }

  ghost function Regroup(p: Policy, w: World): (World, nat)
    requires p.Valid()
  {
    var ds := p.accepted(w.devices);
    var (moved, count) := MoveFirst(p, w, w.nodes, ds, |ds|);
    (w.(nodes := Sweep(moved, p.spaces(moved))), count)
  }

  function HydrateFirst(w: World, ds: seq<string>, n: nat): map<PointKey, Entry>
    requires n <= |ds|
  {
    if n == 0 then w.live
    else
      var pts := w.PointsOf(ds[n - 1]);
      RegisterPoints(HydrateFirst(w, ds, n - 1), ds[n - 1], pts, |pts|)
  }

  function Hydrate(p: Policy, w: World): World {
    var ds := p.accepted(w.devices);
    w.(live := HydrateFirst(w, ds, |ds|))
  }

  // ----- the service -----

  class DiscoveryService {
    const policy: Policy
    var devices: map<string, Device>
    var points: map<string, seq<DiscoveredPoint>>
    var nodes: Nodes
    var entities: Entities
    var live: map<PointKey, Entry>
    var events: seq<Event>

    function State(): World
      reads this
    {
      World(devices, points, nodes, entities, live, events)
    }

    constructor (policy: Policy)
      ensures this.policy == policy && State() == World(map[], map[], map[], map[], map[], [])
    {
      this.policy := policy;
      devices, points, nodes, entities, live, events := map[], map[], map[], map[], map[], [];
    }

    method UpsertPoints(d: string, pts: seq<DiscoveredPoint>)
      requires d in devices
      modifies this`points
      ensures State() == Repointed(old(State()), d, pts)
    {
      hide HasRow, UpsertPoint;
      if pts == [] {
        return;
      }
      var rows := if d in points then points[d] else [];
      var kept := [];
      for i := 0 to |rows|
        invariant kept == KeepFirst(rows, pts, i)
      {
        if HasRow(pts, rows[i].id) {
          kept := kept + [rows[i]];
        }
      }
      ghost var before := kept;
      for i := 0 to |pts|
        invariant kept == UpsertFirst(before, pts, i)
      {
        kept := UpsertPoint(kept, pts[i]);
      }
      points := points[d := kept];
    }

    method FindDevice(d: string, dis: string, protocol: string, pts: seq<DiscoveredPoint>)
      modifies this`devices, this`points
      ensures State() == Found(old(State()), d, dis, protocol, pts)
    {
      if d in devices {
        devices := devices[d := devices[d].(dis := dis)];
      } else {
        devices := devices[d := Device(Discovered, dis, protocol, None)];
      }
      UpsertPoints(d, pts);
    }

    method SetDeviceState(d: string, state: DeviceState) returns (r: Outcome)
      requires state != Accepted
      modifies this`devices
      ensures (State(), r) == Marked(old(State()), d, state)
    {
      if d !in devices {
        return NotFound;
      }
      devices := devices[d := devices[d].(state := state)];
      r := Ok;
    }

    method EnsureGroup(group: string, dis: string, pts: seq<DiscoveredPoint>)
      modifies this`nodes
      ensures nodes == WithGroup(policy, old(nodes), group, dis, pts)
    {
      if group !in nodes {
        nodes := CreateNode(nodes, group, Node(Space, policy.groupName(dis), None, map[], false, None));
        nodes := SetProperty(nodes, group, "pointSet", policy.pointSet(pts));
      }
    }

    method CreatePoints(d: string, dis: string, pts: seq<DiscoveredPoint>)
      modifies this`nodes, this`entities
      ensures nodes == CreatePointNodes(old(nodes), d, pts, |pts|)
      ensures entities == CreatePointEntities(policy, old(entities), d, dis, pts, |pts|)
    {
      hide CreateNode, CreateEntity, SetRef, PointId, PointNode, NewPointEntity;
      for i := 0 to |pts|
        invariant nodes == CreatePointNodes(old(nodes), d, pts, i)
        invariant entities == CreatePointEntities(policy, old(entities), d, dis, pts, i)
      {
        var id := PointId(d, pts[i].id);
        nodes := CreateNode(nodes, id, PointNode(d, pts[i]));
        entities := CreateEntity(entities, id, NewPointEntity(policy, d, dis, pts[i]));
        entities := SetRef(entities, id, "equipRef", d);
      }
    }

    method InsertDefaults(d: string, pts: seq<DiscoveredPoint>)
      modifies this`live
      ensures live == RegisterPoints(old(live), d, pts, |pts|)
    {
      for i := 0 to |pts|
        invariant live == RegisterPoints(old(live), d, pts, i)
      {
        live := InsertDefault(live, PointKey(d, pts[i].id), DefaultValue(pts[i].kind));
      }
    }

    method Accept(d: string, now: int) returns (r: Outcome)
      modifies this
      ensures (State(), r) == AcceptDevice(policy, old(State()), d, now)
    {
      hide Fingerprint, GroupNodeId, WithGroup, CreateNode, CreateEntity, CreatePointNodes, CreatePointEntities, RegisterPoints,
        EquipNode, EquipEntity;
      if d !in devices {
        return NotFound;
      }
      var device := devices[d];
      if device.state == Accepted {
        return Ok;
      }
      var pts := if d in points then points[d] else [];
      var fingerprint := ComputeFingerprint(pts);
      var group := GroupNodeId(fingerprint);
      EnsureGroup(group, device.dis, pts);
      nodes := CreateNode(nodes, d, EquipNode(device.dis, group));
      entities := CreateEntity(entities, d, EquipEntity(policy, device.dis));
      CreatePoints(d, device.dis, pts);
      InsertDefaults(d, pts);
      devices := devices[d := device.(state := Accepted, acceptedAt := Some(now))];
      events := events + [DeviceAccepted(d, device.protocol, |pts|)];
      r := Ok;
    }

    // Run at startup: every point of every accepted device gets an entry.
    method HydratePointStore()
      modifies this`live
      ensures State() == Hydrate(policy, old(State()))
    {
      var ds := policy.accepted(devices);
      for i := 0 to |ds|
        invariant live == HydrateFirst(old(State()), ds, i)
      {
        InsertDefaults(ds[i], if ds[i] in points then points[ds[i]] else []);
      }
    }

    method CleanUpEmptyGroups()
      modifies this`nodes
      ensures nodes == Sweep(old(nodes), policy.spaces(old(nodes)))
    {
      var groups := policy.spaces(nodes);
      for i := 0 to |groups|
        invariant nodes == SweepFirst(old(nodes), groups, i)
      {
        if HasGroupPrefix(groups[i]) && !HasChild(nodes, groups[i]) {
          nodes := DeleteNode(nodes, groups[i]);
        }
      }
    }

    method Unaccept(d: string) returns (r: Outcome)
      modifies this
      ensures (State(), r) == UnacceptDevice(policy, old(State()), d)
    {
      hide DeleteNode, DeleteEntity, Sweep, PointId;
      if d !in devices {
        return NotFound;
      }
      if devices[d].state != Accepted {
        return NotAccepted;
      }
      var pts := if d in points then points[d] else [];
      for i := 0 to |pts|
        modifies this`nodes, this`entities
        invariant nodes == DeletePointNodes(old(nodes), d, pts, i)
        invariant entities == DeletePointEntities(old(entities), d, pts, i)
      {
        nodes := DeleteNode(nodes, PointId(d, pts[i].id));
        entities := DeleteEntity(entities, PointId(d, pts[i].id));
      }
      nodes := DeleteNode(nodes, d);
      entities := DeleteEntity(entities, d);
      live := RemoveDevice(live, d);
      CleanUpEmptyGroups();
      devices := devices[d := devices[d].(state := Discovered)];
      r := Ok;
    }

    method RegroupAcceptedDevices() returns (regrouped: nat)
      requires policy.Valid()
      modifies this`nodes
      ensures (State(), regrouped) == Regroup(policy, old(State()))
    {
      hide Fingerprint, GroupNodeId, WithGroup, SetParent, Sweep, ListsSpaces;
      var ds := policy.accepted(devices);
      regrouped := 0;
      for i := 0 to |ds|
        invariant (nodes, regrouped) == MoveFirst(policy, old(State()), old(nodes), ds, i)
      {
        var d := ds[i];
        assert d in ds;
        if d in points && points[d] != [] {
          var fingerprint := ComputeFingerprint(points[d]);
          var group := GroupNodeId(fingerprint);
          if !(d in nodes && nodes[d].parent == Some(group)) {
            EnsureGroup(group, devices[d].dis, points[d]);
            nodes := SetParent(nodes, d, group);
            regrouped := regrouped + 1;
          }
        }
      }
      CleanUpEmptyGroups();
    }
  }
}
