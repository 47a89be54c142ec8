/** What accepting, un-accepting and hydrating do to the stores taken together. */
module DiscoveryLifecycle {
  import opened Options
  import opened ModbusTypes
  import opened LivePoints
  import opened Grouping
  import opened NodeStores
  import opened DiscoveryService

  // ----- ids -----

  lemma PointIdInjective(d: string, a: string, b: string)
    requires PointId(d, a) == PointId(d, b)
    ensures a == b
  {
    assert PointId(d, a)[|d| + 1..] == a;
    assert PointId(d, b)[|d| + 1..] == b;
  }

  lemma FirstSlash(d: string, a: string, k: nat)
    requires '/' !in d && k < |PointId(d, a)|
    ensures PointId(d, a)[|d|] == '/' && (k < |d| ==> PointId(d, a)[k] != '/')
  {
  }

  // Point ids of different devices never meet when device ids hold no slash.
  lemma PointIdsOfDevicesDiffer(d: string, a: string, e: string, b: string)
    requires '/' !in d && '/' !in e && PointId(d, a) == PointId(e, b)
    ensures d == e && a == b
  {
    var s := PointId(d, a);
    FirstSlash(d, a, |e|);
    FirstSlash(e, b, |d|);
    assert s[..|d|] == d && s[..|e|] == e;
    assert s[|d| + 1..] == a && s[|e| + 1..] == b;
  }

  lemma PointIdIsNoGroup(d: string, a: string)
    requires !HasGroupPrefix(d)
    ensures !HasGroupPrefix(PointId(d, a))
  {
    var s := PointId(d, a);
    if |d| < 6 {
      assert s[|d|] == '/' != GROUP_PREFIX[|d|];
    } else {
      assert s[..6] == d[..6];
    }
  }

  lemma GroupIdHasPrefix(fingerprint: nat)
    ensures HasGroupPrefix(GroupNodeId(fingerprint))
  {
  }

  function PointIds(d: string, pts: seq<DiscoveredPoint>, n: nat): set<string>
    requires n <= |pts|
  {
    if n == 0 then {} else PointIds(d, pts, n - 1) + {PointId(d, pts[n - 1].id)}
  }

  // An id of the set comes from some point.
  lemma {:induction false} PointIdFrom(d: string, pts: seq<DiscoveredPoint>, n: nat, id: string) returns (i: nat)
    requires n <= |pts| && id in PointIds(d, pts, n)
    ensures i < n && id == PointId(d, pts[i].id)
  {
    hide PointId;
    if id == PointId(d, pts[n - 1].id) {
      i := n - 1;
    } else {
      i := PointIdFrom(d, pts, n - 1, id);
    }
  }

  lemma {:induction false} PointIdIn(d: string, pts: seq<DiscoveredPoint>, n: nat, i: nat)
    requires i < n <= |pts|
    ensures PointId(d, pts[i].id) in PointIds(d, pts, n)
  {
    if i < n - 1 {
      PointIdIn(d, pts, n - 1, i);
    }
  }

  ghost predicate DistinctPointIds(pts: seq<DiscoveredPoint>) {
    forall i, j | 0 <= i < j < |pts| :: pts[i].id != pts[j].id
  }

  // No store knows the device or one of its points.
  ghost predicate Unknown(w: World, d: string) {
    && d !in w.nodes && d !in w.entities
    && (forall id <- PointIds(d, w.PointsOf(d), |w.PointsOf(d)|) :: id !in w.nodes && id !in w.entities)
    && (forall k <- w.live :: k.device != d)
  }

  ghost predicate ValidWorld(w: World) {
    && NodesValid(w.nodes) && EntitiesValid(w.entities)
    && forall d <- w.points :: DistinctPointIds(w.points[d])
  }

  // ----- accepting adds rows -----

  function PointNodes(d: string, pts: seq<DiscoveredPoint>, n: nat): (added: Nodes)
    requires n <= |pts|
    ensures added.Keys == PointIds(d, pts, n)
  {
    if n == 0 then map[] else PointNodes(d, pts, n - 1)[PointId(d, pts[n - 1].id) := PointNode(d, pts[n - 1])]
  }

  lemma FreshPointId(d: string, pts: seq<DiscoveredPoint>, n: nat)
    requires DistinctPointIds(pts) && 0 < n <= |pts|
    ensures PointId(d, pts[n - 1].id) !in PointIds(d, pts, n - 1)
  {
    hide PointId;
    var id := PointId(d, pts[n - 1].id);
    if id in PointIds(d, pts, n - 1) {
      var i := PointIdFrom(d, pts, n - 1, id);
      PointIdInjective(d, pts[i].id, pts[n - 1].id);
    }
  }

  lemma AddRow<V>(a: map<string, V>, b: map<string, V>, k: string, v: V)
    ensures (a + b)[k := v] == a + b[k := v]
  {
  }

  lemma {:induction false} CreatedPointNodes(ns: Nodes, d: string, pts: seq<DiscoveredPoint>, n: nat)
    requires n <= |pts| && d in ns && DistinctPointIds(pts) && PointIds(d, pts, n) !! ns.Keys
    ensures CreatePointNodes(ns, d, pts, n) == ns + PointNodes(d, pts, n)
  {
    if n > 0 {
      hide PointId, DistinctPointIds;
      var id, added := PointId(d, pts[n - 1].id), PointNodes(d, pts, n - 1);
      CreatedPointNodes(ns, d, pts, n - 1);
      FreshPointId(d, pts, n);
      assert id !in ns && id !in added && d in ns + added;
      AddRow(ns, added, id, PointNode(d, pts[n - 1]));
    }
  }

  lemma {:induction false} DeletedPointNodes(ns: Nodes, d: string, pts: seq<DiscoveredPoint>, n: nat)
    requires n <= |pts| && forall id <- PointIds(d, pts, n) :: !HasChild(ns, id)
    ensures DeletePointNodes(ns, d, pts, n) == ns - PointIds(d, pts, n)
  {
    if n > 0 {
      hide PointId, DeleteNode, HasChild;
      DeletedPointNodes(ns, d, pts, n - 1);
      var id, gone := PointId(d, pts[n - 1].id), PointIds(d, pts, n - 1);
      FewerNodesFewerChildren(ns, gone, id);
      DeleteChildless(ns - gone, id);
    }
  }

  function PointEntity(p: Policy, d: string, dis: string, pt: DiscoveredPoint): Entity {
    NewPointEntity(p, d, dis, pt).(refs := map["equipRef" := d])
  }

  function PointEntities(p: Policy, d: string, dis: string, pts: seq<DiscoveredPoint>, n: nat): (added: Entities)
    requires n <= |pts|
    ensures added.Keys == PointIds(d, pts, n)
  {
    if n == 0 then map[]
    else PointEntities(p, d, dis, pts, n - 1)[PointId(d, pts[n - 1].id) := PointEntity(p, d, dis, pts[n - 1])]
  }

  lemma CreatedPointEntity(p: Policy, es: Entities, d: string, dis: string, pt: DiscoveredPoint)
    requires d in es && PointId(d, pt.id) !in es
    ensures SetRef(CreateEntity(es, PointId(d, pt.id), NewPointEntity(p, d, dis, pt)), PointId(d, pt.id), "equipRef", d)
         == es[PointId(d, pt.id) := PointEntity(p, d, dis, pt)]
  {
  }

  lemma {:induction false} CreatedPointEntities(p: Policy, es: Entities, d: string, dis: string, pts: seq<DiscoveredPoint>, n: nat)
    requires n <= |pts| && d in es && DistinctPointIds(pts) && PointIds(d, pts, n) !! es.Keys
    ensures CreatePointEntities(p, es, d, dis, pts, n) == es + PointEntities(p, d, dis, pts, n)
  {
    if n > 0 {
      hide PointId, DistinctPointIds, SetRef, CreateEntity, PointEntity;
      var id, added := PointId(d, pts[n - 1].id), PointEntities(p, d, dis, pts, n - 1);
      CreatedPointEntities(p, es, d, dis, pts, n - 1);
      FreshPointId(d, pts, n);
      assert id !in es && id !in added && d in es + added;
      CreatedPointEntity(p, es + added, d, dis, pts[n - 1]);
      AddRow(es, added, id, PointEntity(p, d, dis, pts[n - 1]));
    }
  }

  lemma {:induction false} DeletedPointEntities(es: Entities, d: string, pts: seq<DiscoveredPoint>, n: nat)
    requires n <= |pts| && forall id <- PointIds(d, pts, n) :: !Mentioned(es, id)
    ensures DeletePointEntities(es, d, pts, n) == es - PointIds(d, pts, n)
  {
    if n > 0 {
      hide PointId, DeleteEntity, Mentioned;
      DeletedPointEntities(es, d, pts, n - 1);
      var id, gone := PointId(d, pts[n - 1].id), PointIds(d, pts, n - 1);
      FewerEntitiesFewerMentions(es, gone, id);
      DeleteUnmentioned(es - gone, id);
    }
  }

  lemma {:induction false} PointNodesHangBelow(d: string, pts: seq<DiscoveredPoint>, n: nat)
    requires n <= |pts|
    ensures forall k <- PointNodes(d, pts, n) :: PointNodes(d, pts, n)[k].parent == Some(d)
  {
    if n > 0 {
      hide PointId;
      PointNodesHangBelow(d, pts, n - 1);
    }
  }

  lemma {:induction false} PointEntitiesMentionDevice(p: Policy, d: string, dis: string, pts: seq<DiscoveredPoint>, n: nat, id: string)
    requires n <= |pts| && id != d
    ensures forall k <- PointEntities(p, d, dis, pts, n) :: !Mentions(PointEntities(p, d, dis, pts, n)[k], id)
  {
    if n > 0 {
      hide PointId;
      PointEntitiesMentionDevice(p, d, dis, pts, n - 1, id);
    }
  }

  // The node rows just before the point nodes: the group, and the equip node below it unless the
  // device has a row already.
  lemma EquippedNodesAre(p: Policy, w: World, d: string)
    requires d in w.devices && !HasGroupPrefix(d)
    ensures var dis, group := w.devices[d].dis, w.GroupOf(d);
            && group != d
            && WithGroup(p, w.nodes, group, dis, w.PointsOf(d))
                 == (if group in w.nodes then w.nodes else w.nodes[group := GroupNode(p, dis, w.PointsOf(d))])
            && EquippedNodes(p, w, d)
                 == (if d in w.nodes then WithGroup(p, w.nodes, group, dis, w.PointsOf(d))
                     else WithGroup(p, w.nodes, group, dis, w.PointsOf(d))[d := EquipNode(dis, group)])
  {
    hide Fingerprint;
    GroupIdHasPrefix(Fingerprint(w.PointsOf(d)));
  }

  lemma PointIdsAreFresh(p: Policy, w: World, d: string)
    requires d in w.devices && Unknown(w, d) && !HasGroupPrefix(d)
    ensures PointIds(d, w.PointsOf(d), |w.PointsOf(d)|) !! EquippedNodes(p, w, d).Keys
  {
    hide Fingerprint, WithGroup, EquippedNodes, GroupNodeId, HasGroupPrefix;
    EquippedNodesAre(p, w, d);
    GroupIdHasPrefix(Fingerprint(w.PointsOf(d)));
    var pts := w.PointsOf(d);
    forall id | id in PointIds(d, pts, |pts|) ensures id !in EquippedNodes(p, w, d) {
      var i := PointIdFrom(d, pts, |pts|, id);
      PointIdIsNoGroup(d, pts[i].id);
      assert |id| > |d|;
    }
  }

  lemma HierarchyRows(ns: Nodes, group: string, row: Node, d: string, equip: Node, added: Nodes)
    requires d !in ns && d != group && added.Keys !! ns.Keys + {d, group}
    ensures var after := (if group in ns then ns else ns[group := row])[d := equip] + added;
            && Lookup(after, d) == Some(equip) && group in after
            && (group !in ns ==> after[group] == row)
            && (forall k <- ns :: Lookup(after, k) == Some(ns[k]))
            && after.Keys == ns.Keys + {d, group} + added.Keys
  {
  }

  lemma HierarchyAfterAccept(p: Policy, w: World, d: string, now: int)
    requires ValidWorld(w) && d in w.devices && w.devices[d].state != Accepted && Unknown(w, d) && !HasGroupPrefix(d)
    ensures var ns, group := AcceptDevice(p, w, d, now).0.nodes, w.GroupOf(d);
            && Lookup(ns, d) == Some(EquipNode(w.devices[d].dis, group)) && group in ns
            && (group !in w.nodes ==> ns[group] == GroupNode(p, w.devices[d].dis, w.PointsOf(d)))
            && (forall k <- w.nodes :: Lookup(ns, k) == Some(w.nodes[k]))
            && ns.Keys == w.nodes.Keys + {d, group} + PointIds(d, w.PointsOf(d), |w.PointsOf(d)|)
  {
    hide PointId, GroupNodeId, Fingerprint, WithGroup, EquippedNodes, HasGroupPrefix, AcceptDevice, PointIds, PointNodes,
      PointEntities, PointNode, DistinctPointIds, EquipNode, EquipEntity, ValidWorld;
    var pts, dis, group := w.PointsOf(d), w.devices[d].dis, w.GroupOf(d);
    AcceptedRows(p, w, d, now);
    EquippedNodesAre(p, w, d);
    PointIdsAreFresh(p, w, d);
    DeviceIsNoPoint(d, pts);
    HierarchyRows(w.nodes, group, GroupNode(p, dis, pts), d, EquipNode(dis, group), PointNodes(d, pts, |pts|));
  }

  lemma EntitiesAfterAccept(p: Policy, w: World, d: string, now: int)
    requires ValidWorld(w) && d in w.devices && w.devices[d].state != Accepted && Unknown(w, d) && !HasGroupPrefix(d)
    ensures var es := AcceptDevice(p, w, d, now).0.entities;
            && Lookup(es, d) == Some(EquipEntity(p, w.devices[d].dis))
            && (forall k <- w.entities :: Lookup(es, k) == Some(w.entities[k]))
            && es.Keys == w.entities.Keys + {d} + PointIds(d, w.PointsOf(d), |w.PointsOf(d)|)
  {
    hide PointId, EquippedNodes, HasGroupPrefix, AcceptDevice, PointIds, PointNodes, PointEntities, ValidWorld, DistinctPointIds;
    AcceptedRows(p, w, d, now);
    DeviceIsNoPoint(d, w.PointsOf(d));
  }

  // An accepted device has an equip row of its own below the group of its kinds, and a missing group is
  // made, named after the device, with the printed point set. Node rows that were there before do not
  // change, and only the group, the device and its points are new.
  lemma AcceptBuildsHierarchy(p: Policy, w: World, d: string, now: int)
    requires ValidWorld(w) && d in w.devices && w.devices[d].state != Accepted && Unknown(w, d) && !HasGroupPrefix(d)
    ensures var ns, dis, pts := AcceptDevice(p, w, d, now).0.nodes, w.devices[d].dis, w.PointsOf(d);
            var group := GroupNodeId(Fingerprint(pts));
            && Lookup(ns, d) == Some(Node(Equip, dis, Some(group), map[], false, None)) && group in ns
            && (group !in w.nodes ==>
                  ns[group] == Node(Space, p.groupName(dis), None, map["pointSet" := p.pointSet(pts)], false, None))
            && (forall k <- w.nodes :: Lookup(ns, k) == Some(w.nodes[k]))
            && ns.Keys == w.nodes.Keys + {d, group} + PointIds(d, pts, |pts|)
  {
    hide AcceptDevice, GroupNodeId, Fingerprint, ValidWorld, Unknown, HasGroupPrefix, PointIds;
    HierarchyAfterAccept(p, w, d, now);
  }

  // In the same way it has an entity of its own, with the suggested tags.
  lemma AcceptKeepsEntities(p: Policy, w: World, d: string, now: int)
    requires ValidWorld(w) && d in w.devices && w.devices[d].state != Accepted && Unknown(w, d) && !HasGroupPrefix(d)
    ensures var es, dis := AcceptDevice(p, w, d, now).0.entities, w.devices[d].dis;
            && Lookup(es, d) == Some(Entity("equip", dis, None, p.equipTags(dis), map[]))
            && (forall k <- w.entities :: Lookup(es, k) == Some(w.entities[k]))
            && es.Keys == w.entities.Keys + {d} + PointIds(d, w.PointsOf(d), |w.PointsOf(d)|)
  {
    hide AcceptDevice, ValidWorld, Unknown, HasGroupPrefix, PointIds;
    EntitiesAfterAccept(p, w, d, now);
  }

  lemma PointsAfterAccept(p: Policy, w: World, d: string, now: int, i: nat)
    requires ValidWorld(w) && d in w.devices && w.devices[d].state != Accepted && Unknown(w, d) && !HasGroupPrefix(d)
    requires i < |w.PointsOf(d)|
    ensures var w', pt := AcceptDevice(p, w, d, now).0, w.PointsOf(d)[i];
            && Lookup(w'.nodes, PointId(d, pt.id)) == Some(PointNode(d, pt))
            && Lookup(w'.entities, PointId(d, pt.id)) == Some(PointEntity(p, d, w.devices[d].dis, pt))
  {
    hide PointId, EquippedNodes, AcceptDevice, PointIds, PointNodes, PointEntities, PointNode, PointEntity;
    AcceptedRows(p, w, d, now);
    PointRow(p, d, w.devices[d].dis, w.PointsOf(d), |w.PointsOf(d)|, i);
  }

  // Every point of an accepted device has a row below the device in both stores: the node with its
  // access and binding, the entity with the tags suggested for it and a reference to the device.
  lemma AcceptAddsPoint(p: Policy, w: World, d: string, now: int, i: nat)
    requires ValidWorld(w) && d in w.devices && w.devices[d].state != Accepted && Unknown(w, d) && !HasGroupPrefix(d)
    requires i < |w.PointsOf(d)|
    ensures var w', pt, equipTags := AcceptDevice(p, w, d, now).0, w.PointsOf(d)[i], p.equipTags(w.devices[d].dis);
            var id := d + "/" + pt.id;
            && Lookup(w'.nodes, id) == Some(Node(Point, pt.dis, Some(d), map[], pt.writable, Some(pt.binding)))
            && Lookup(w'.entities, id)
                 == Some(Entity("point", pt.dis, Some(d), p.pointTags(pt, equipTags), map["equipRef" := d]))
  {
    hide AcceptDevice, ValidWorld, Unknown, HasGroupPrefix;
    PointsAfterAccept(p, w, d, now, i);
  }

  lemma {:induction false} PointRow(p: Policy, d: string, dis: string, pts: seq<DiscoveredPoint>, n: nat, i: nat)
    requires i < n <= |pts| && DistinctPointIds(pts)
    ensures Lookup(PointNodes(d, pts, n), PointId(d, pts[i].id)) == Some(PointNode(d, pts[i]))
    ensures Lookup(PointEntities(p, d, dis, pts, n), PointId(d, pts[i].id)) == Some(PointEntity(p, d, dis, pts[i]))
  {
    if i < n - 1 {
      hide PointId, PointNode, PointEntity;
      PointRow(p, d, dis, pts, n - 1, i);
      FreshPointId(d, pts, n);
    }
  }

  lemma AcceptedRowsOf(p: Policy, w: World, d: string, now: int)
    requires DistinctPointIds(w.PointsOf(d)) && d in w.devices && w.devices[d].state != Accepted && Unknown(w, d) && !HasGroupPrefix(d)
    ensures var w', pts, dis := AcceptDevice(p, w, d, now).0, w.PointsOf(d), w.devices[d].dis;
            && w'.nodes == EquippedNodes(p, w, d) + PointNodes(d, pts, |pts|)
            && w'.entities == w.entities[d := EquipEntity(p, dis)] + PointEntities(p, d, dis, pts, |pts|)
  {
    hide PointId, GroupNodeId, Fingerprint, WithGroup, HasGroupPrefix, DistinctPointIds;
    var pts, dis := w.PointsOf(d), w.devices[d].dis;
    EquippedNodesAre(p, w, d);
    PointIdsAreFresh(p, w, d);
    CreatedPointNodes(EquippedNodes(p, w, d), d, pts, |pts|);
    DeviceIsNoPoint(d, pts);
    CreatedPointEntities(p, CreateEntity(w.entities, d, EquipEntity(p, dis)), d, dis, pts, |pts|);
  }

  lemma AcceptedRows(p: Policy, w: World, d: string, now: int)
    requires ValidWorld(w) && d in w.devices && w.devices[d].state != Accepted && Unknown(w, d) && !HasGroupPrefix(d)
    ensures var w', pts, dis := AcceptDevice(p, w, d, now).0, w.PointsOf(d), w.devices[d].dis;
            && w'.nodes == EquippedNodes(p, w, d) + PointNodes(d, pts, |pts|)
            && w'.entities == w.entities[d := EquipEntity(p, dis)] + PointEntities(p, d, dis, pts, |pts|)
            && DistinctPointIds(pts)
  {
    hide EquippedNodes, AcceptDevice, PointNodes, PointEntities, PointIds, DistinctPointIds, HasGroupPrefix, Unknown;
    PointsAreDistinct(w, d);
    AcceptedRowsOf(p, w, d, now);
  }

  lemma PointsAreDistinct(w: World, d: string)
    requires ValidWorld(w)
    ensures DistinctPointIds(w.PointsOf(d))
  {
  }

  // What accepting does outside the node, entity and live point stores.
  lemma AcceptedState(p: Policy, w: World, d: string, now: int)
    requires d in w.devices && w.devices[d].state != Accepted
    ensures var w' := AcceptDevice(p, w, d, now).0;
            && w'.devices == w.devices[d := w.devices[d].(state := Accepted, acceptedAt := Some(now))]
            && w'.points == w.points
            && w'.events == w.events + [DeviceAccepted(d, w.devices[d].protocol, |w.PointsOf(d)|)]
            && forall e :: IsAccepted(w', e) <==> e == d || IsAccepted(w, e)
  {
    hide EquippedNodes, CreatePointNodes, CreatePointEntities, RegisterPoints;
  }

  lemma PointIdsAreLonger(d: string, pts: seq<DiscoveredPoint>)
    ensures forall id <- PointIds(d, pts, |pts|) :: |id| > |d|
  {
    forall id <- PointIds(d, pts, |pts|) ensures |id| > |d| {
      var i := PointIdFrom(d, pts, |pts|, id);
    }
  }

  lemma DeviceIsNoPoint(d: string, pts: seq<DiscoveredPoint>)
    ensures d !in PointIds(d, pts, |pts|)
  {
    PointIdsAreLonger(d, pts);
  }

  // ----- un-accepting removes them again -----

  lemma NodesUndone(grouped: Nodes, group: string, d: string, equip: Node, pts: seq<DiscoveredPoint>)
    requires NodesValid(grouped) && d !in grouped && group in grouped && equip.parent == Some(group)
    requires PointIds(d, pts, |pts|) !! grouped.Keys + {d}
    ensures var all := grouped[d := equip] + PointNodes(d, pts, |pts|);
            DeleteNode(DeletePointNodes(all, d, pts, |pts|), d) == grouped
  {
    hide PointId, PointIds, PointNodes, DeletePointNodes, DeleteNode, CreatePointNodes;
    var ids, added, equipped := PointIds(d, pts, |pts|), PointNodes(d, pts, |pts|), grouped[d := equip];
    PointNodesHangBelow(d, pts, |pts|);
    forall id <- ids ensures !HasChild(equipped + added, id) {
    }
    DeletedPointNodes(equipped + added, d, pts, |pts|);
    assert equipped + added - ids == equipped;
    assert !HasChild(equipped, d);
    DeleteChildless(equipped, d);
    assert equipped - {d} == grouped;
  }

  lemma NodesBeforeSweep(p: Policy, w: World, d: string, now: int)
    requires ValidWorld(w) && d in w.devices && w.devices[d].state != Accepted && Unknown(w, d) && !HasGroupPrefix(d)
    ensures var w', pts := AcceptDevice(p, w, d, now).0, w.PointsOf(d);
            DeleteNode(DeletePointNodes(w'.nodes, d, pts, |pts|), d)
              == WithGroup(p, w.nodes, w.GroupOf(d), w.devices[d].dis, pts)
  {
    hide PointId, GroupNodeId, Fingerprint, HasGroupPrefix, DeletePointNodes, EquippedNodes, DeleteNode, AcceptDevice,
      PointNodes, EntitiesValid, WithGroup, DistinctPointIds, PointIds;
    var pts, dis, group := w.PointsOf(d), w.devices[d].dis, w.GroupOf(d);
    var grouped := WithGroup(p, w.nodes, group, dis, pts);
    AcceptedRows(p, w, d, now);
    EquippedNodesAre(p, w, d);
    PointIdsAreFresh(p, w, d);
    DeviceIsNoPoint(d, pts);
    assert NodesValid(grouped);
    NodesUndone(grouped, group, d, EquipNode(dis, group), pts);
  }

  lemma EntitiesUndone(p: Policy, es: Entities, d: string, dis: string, equip: Entity, pts: seq<DiscoveredPoint>)
    requires EntitiesValid(es) && d !in es && equip.parent == None && equip.refs == map[]
    requires PointIds(d, pts, |pts|) !! es.Keys + {d}
    ensures var all := es[d := equip] + PointEntities(p, d, dis, pts, |pts|);
            DeleteEntity(DeletePointEntities(all, d, pts, |pts|), d) == es
  {
    hide PointId, PointIds, PointEntities, DeletePointEntities, DeleteEntity, CreatePointEntities, Mentions, EntitiesValid;
    var ids, added, equipped := PointIds(d, pts, |pts|), PointEntities(p, d, dis, pts, |pts|), es[d := equip];
    NewRowUnmentioned(es, equip);
    forall id <- ids ensures !Mentioned(equipped + added, id) {
      PointEntitiesMentionDevice(p, d, dis, pts, |pts|, id);
    }
    DeletedPointEntities(equipped + added, d, pts, |pts|);
    assert equipped + added - ids == equipped;
    assert !Mentioned(equipped, d);
    DeleteUnmentioned(equipped, d);
    assert equipped - {d} == es;
  }

  lemma NewRowUnmentioned(es: Entities, equip: Entity)
    requires EntitiesValid(es) && equip.parent == None && equip.refs == map[]
    ensures forall id: string :: !Mentions(equip, id)
    ensures forall id, k | k in es && id !in es :: !Mentions(es[k], id)
  {
  }

  lemma EntitiesRestored(p: Policy, w: World, d: string, now: int)
    requires ValidWorld(w) && d in w.devices && w.devices[d].state != Accepted && Unknown(w, d) && !HasGroupPrefix(d)
    ensures var w', pts := AcceptDevice(p, w, d, now).0, w.PointsOf(d);
            DeleteEntity(DeletePointEntities(w'.entities, d, pts, |pts|), d) == w.entities
  {
    hide PointId, GroupNodeId, Fingerprint, HasGroupPrefix, DeletePointEntities, EquippedNodes, DeleteEntity, AcceptDevice,
      PointEntities, EntitiesValid, NodesValid, DistinctPointIds, PointIds;
    var pts, dis := w.PointsOf(d), w.devices[d].dis;
    AcceptedRows(p, w, d, now);
    DeviceIsNoPoint(d, pts);
    EntitiesUndone(p, w.entities, d, dis, EquipEntity(p, dis), pts);
  }

  lemma {:induction false} LiveRestored(live: map<PointKey, Entry>, d: string, pts: seq<DiscoveredPoint>, n: nat)
    requires n <= |pts| && forall k <- live :: k.device != d
    ensures RemoveDevice(RegisterPoints(live, d, pts, n), d) == live
  {
    if n > 0 {
      LiveRestored(live, d, pts, n - 1);
    }
  }

  // Adding a group nobody hangs below, and sweeping, undoes itself exactly when nothing else is swept.
  lemma SweepAfterGroup(p: Policy, ns: Nodes, group: string, dis: string, pts: seq<DiscoveredPoint>)
    requires p.Valid() && NodesValid(ns) && HasGroupPrefix(group)
    ensures var grouped := WithGroup(p, ns, group, dis, pts);
            Sweep(grouped, p.spaces(grouped)) == ns <==> EmptyGroups(ns) == {}
  {
    hide Sweep, HasGroupPrefix;
    var grouped := WithGroup(p, ns, group, dis, pts);
    var order := p.spaces(grouped);
    assert grouped == if group in ns then ns else ns[group := GroupNode(p, dis, pts)];
    forall k ensures HasChild(grouped, k) <==> HasChild(ns, k) {
      if c :| c in ns && ns[c].parent == Some(k) { assert grouped[c].parent == Some(k); }
    }
    assert group !in ns ==> !HasChild(grouped, group);
    assert EmptyGroups(grouped) == EmptyGroups(ns) + if group in ns then {} else {group};
    if EmptyGroups(ns) == {} {
      forall g <- grouped ensures !HoldsOnlyEmptyGroups(grouped, g) {
        if c :| c in grouped && grouped[c].parent == Some(g) {
          assert c in ns && c !in EmptyGroups(grouped);
        }
      }
      SettledSweep(grouped, order);
      assert grouped - EmptyGroups(grouped) == ns;
    } else {
      var e :| e in EmptyGroups(ns);
      SweepDropsEmpty(grouped, order, e);
    }
  }

  lemma SweepDropsEmpty(ns: Nodes, order: seq<string>, e: string)
    requires ListsSpaces(ns, order) && e in EmptyGroups(ns)
    ensures e !in Sweep(ns, order)
  {
    var gone := SweepRemoves(ns, order, |order|);
    AllGroupsListed(ns, order);
  }

  // Accepting a device that no store knows, and un-accepting it again, restores the entity and live
  // point stores; only the time of acceptance stays behind. The node store is restored exactly when it
  // held no empty group before, and the state exactly when the device was not ignored.
  lemma UnacceptUndoesAccept(p: Policy, w: World, d: string, now: int)
    requires p.Valid() && ValidWorld(w) && Unknown(w, d) && !HasGroupPrefix(d)
    requires d in w.devices && w.devices[d].state != Accepted
    ensures var (accepted, r1) := AcceptDevice(p, w, d, now);
            var (back, r2) := UnacceptDevice(p, accepted, d);
            && r1 == Ok && r2 == Ok
            && back.entities == w.entities && back.live == w.live && back.points == w.points
            && back.devices == w.devices[d := w.devices[d].(state := Discovered, acceptedAt := Some(now))]
            && (back.devices[d].state == w.devices[d].state <==> w.devices[d].state != Ignored)
            && back.events == w.events + [DeviceAccepted(d, w.devices[d].protocol, |w.PointsOf(d)|)]
            && (back.nodes == w.nodes <==> EmptyGroups(w.nodes) == {})
  {
    hide CreatePointNodes, CreatePointEntities, DeletePointNodes, DeletePointEntities, RegisterPoints, RemoveDevice, Sweep, WithGroup,
      EquippedNodes, DeleteNode, DeleteEntity, EmptyGroups, GroupNodeId, Fingerprint, Unknown, ValidWorld, HasGroupPrefix;
    assert NodesValid(w.nodes) by { WorldParts(w, d); }
    NodesBeforeSweep(p, w, d, now);
    EntitiesRestored(p, w, d, now);
    assert forall k <- w.live :: k.device != d by { WorldParts(w, d); }
    LiveRestored(w.live, d, w.PointsOf(d), |w.PointsOf(d)|);
    GroupIdHasPrefix(Fingerprint(w.PointsOf(d)));
    SweepAfterGroup(p, w.nodes, w.GroupOf(d), w.devices[d].dis, w.PointsOf(d));
    var accepted := AcceptDevice(p, w, d, now).0;
    assert accepted.PointsOf(d) == w.PointsOf(d);
  }

  // What the two commands report. A device that is accepted already is accepted again without effect, and
  // one that is not cannot be un-accepted; what fails changes nothing.
  lemma OutcomesExactly(p: Policy, w: World, d: string, now: int)
    ensures var (w', r) := AcceptDevice(p, w, d, now);
            && r == (if d in w.devices then Ok else NotFound)
            && (d !in w.devices || w.devices[d].state == Accepted ==> w' == w)
    ensures var (w', r) := UnacceptDevice(p, w, d);
            && r == (if d !in w.devices then NotFound else if w.devices[d].state == Accepted then Ok else NotAccepted)
            && (r != Ok ==> w' == w)
  {
    hide EquippedNodes, CreatePointNodes, CreatePointEntities, RegisterPoints, DeletePointNodes, DeletePointEntities, Sweep;
  }

  lemma WorldParts(w: World, d: string)
    requires ValidWorld(w) && Unknown(w, d)
    ensures NodesValid(w.nodes) && forall k <- w.live :: k.device != d
  {
  }

  // The rows of different devices have different ids.
  lemma PointIdsDisjoint(d: string, pts: seq<DiscoveredPoint>, e: string, others: seq<DiscoveredPoint>)
    requires d != e && '/' !in d && '/' !in e
    ensures PointIds(d, pts, |pts|) !! PointIds(e, others, |others|)
    ensures d !in PointIds(e, others, |others|)
  {
    hide PointId;
    forall id | id in PointIds(e, others, |others|) ensures id !in PointIds(d, pts, |pts|) {
      var j := PointIdFrom(e, others, |others|, id);
      if id in PointIds(d, pts, |pts|) {
        var i := PointIdFrom(d, pts, |pts|, id);
        PointIdsOfDevicesDiffer(d, pts[i].id, e, others[j].id);
      }
    }
    SlashIn(e, others);
  }

  lemma SlashIn(e: string, others: seq<DiscoveredPoint>)
    ensures forall id <- PointIds(e, others, |others|) :: '/' in id
  {
    forall id <- PointIds(e, others, |others|) ensures '/' in id {
      var j := PointIdFrom(e, others, |others|, id);
      assert id[|e|] == '/';
    }
  }

  lemma PointIdsAreNoGroups(e: string, others: seq<DiscoveredPoint>)
    requires !HasGroupPrefix(e)
    ensures forall id <- PointIds(e, others, |others|) :: !HasGroupPrefix(id)
  {
    hide PointId, HasGroupPrefix;
    forall id <- PointIds(e, others, |others|) ensures !HasGroupPrefix(id) {
      var j := PointIdFrom(e, others, |others|, id);
      PointIdIsNoGroup(e, others[j].id);
    }
  }

  lemma AcceptedLive(p: Policy, w: World, d: string, now: int)
    requires d in w.devices && w.devices[d].state != Accepted
    ensures AcceptDevice(p, w, d, now).0.live == RegisterPoints(w.live, d, w.PointsOf(d), |w.PointsOf(d)|)
  {
    hide EquippedNodes, CreatePointNodes, CreatePointEntities, RegisterPoints;
  }

  // The ids that accepting a device adds to the stores.
  function NewIds(w: World, d: string): set<string> {
    {d, w.GroupOf(d)} + PointIds(d, w.PointsOf(d), |w.PointsOf(d)|)
  }

  lemma AcceptedIds(p: Policy, w: World, d: string, now: int)
    requires DistinctPointIds(w.PointsOf(d)) && d in w.devices && w.devices[d].state != Accepted && Unknown(w, d)
    requires !HasGroupPrefix(d)
    ensures var w' := AcceptDevice(p, w, d, now).0;
            w'.nodes.Keys <= w.nodes.Keys + NewIds(w, d) && w'.entities.Keys <= w.entities.Keys + NewIds(w, d)
  {
    hide Fingerprint, WithGroup, EquippedNodes, GroupNodeId, PointIds, HasGroupPrefix, PointNodes, PointEntities, DistinctPointIds,
      AcceptDevice, Unknown;
    AcceptedRowsOf(p, w, d, now);
    EquippedNodesAre(p, w, d);
  }

  lemma NewIdsAreOwn(w: World, d: string, e: string)
    requires d != e && '/' !in d && '/' !in e && !HasGroupPrefix(d) && !HasGroupPrefix(e)
    ensures {e} + PointIds(e, w.PointsOf(e), |w.PointsOf(e)|) !! NewIds(w, d)
  {
    hide Fingerprint, GroupNodeId, PointIds, HasGroupPrefix;
    var pts, others := w.PointsOf(d), w.PointsOf(e);
    GroupIdHasPrefix(Fingerprint(pts));
    PointIdsDisjoint(d, pts, e, others);
    PointIdsDisjoint(e, others, d, pts);
    PointIdsAreNoGroups(e, others);
  }

  lemma StillUnknown(w: World, w': World, e: string, added: set<string>)
    requires Unknown(w, e) && w'.points == w.points
    requires w'.nodes.Keys <= w.nodes.Keys + added && w'.entities.Keys <= w.entities.Keys + added
    requires {e} + PointIds(e, w.PointsOf(e), |w.PointsOf(e)|) !! added
    requires forall k <- w'.live :: k in w.live || k.device != e
    ensures Unknown(w', e)
  {
    hide PointIds;
    assert w'.PointsOf(e) == w.PointsOf(e);
  }

  // Accepting one device does not make another known.
  lemma AcceptKeepsOthersUnknown(p: Policy, w: World, d: string, e: string, now: int)
    requires DistinctPointIds(w.PointsOf(d)) && d in w.devices && w.devices[d].state != Accepted && Unknown(w, d) && Unknown(w, e)
    requires d != e && '/' !in d && '/' !in e && !HasGroupPrefix(d) && !HasGroupPrefix(e)
    ensures Unknown(AcceptDevice(p, w, d, now).0, e)
  {
    hide PointIds, NewIds, HasGroupPrefix, DistinctPointIds, AcceptDevice, Unknown, RegisterPoints;
    AcceptedIds(p, w, d, now);
    AcceptedState(p, w, d, now);
    AcceptedLive(p, w, d, now);
    RegisteredDevices(w.live, d, w.PointsOf(d), |w.PointsOf(d)|);
    NewIdsAreOwn(w, d, e);
    StillUnknown(w, AcceptDevice(p, w, d, now).0, e, NewIds(w, d));
  }

  lemma {:induction false} RegisteredDevices(live: map<PointKey, Entry>, d: string, pts: seq<DiscoveredPoint>, n: nat)
    requires n <= |pts|
    ensures forall k <- RegisterPoints(live, d, pts, n) :: k in live || k.device == d
  {
    if n > 0 {
      RegisteredDevices(live, d, pts, n - 1);
    }
  }

  // ----- filling the live point store -----

  lemma {:induction false} RegisteredExactly(live: map<PointKey, Entry>, d: string, pts: seq<DiscoveredPoint>, n: nat, key: PointKey)
    requires n <= |pts|
    ensures var after := RegisterPoints(live, d, pts, n);
            && (key in live ==> Lookup(after, key) == Some(live[key]))
            && (key in after <==> key in live || exists i :: 0 <= i < n && key == PointKey(d, pts[i].id))
            && (key in after && key !in live ==> after[key].status == 0)
  {
    if n > 0 {
      RegisteredExactly(live, d, pts, n - 1, key);
    }
  }

  lemma {:induction false} RegisteredValue(live: map<PointKey, Entry>, d: string, pts: seq<DiscoveredPoint>, n: nat, i: nat)
    requires i < n <= |pts| && DistinctPointIds(pts) && PointKey(d, pts[i].id) !in live
    ensures Lookup(RegisterPoints(live, d, pts, n), PointKey(d, pts[i].id)) == Some(Entry(DefaultValue(pts[i].kind), 0))
  {
    RegisteredExactly(live, d, pts, n - 1, PointKey(d, pts[n - 1].id));
    if i < n - 1 {
      RegisteredValue(live, d, pts, n - 1, i);
    }
  }

  // Every point of an accepted device starts out at the default value of its kind, without flags, and
  // no value that was there before changes.
  lemma AcceptRegistersPoint(p: Policy, w: World, d: string, now: int, i: nat)
    requires ValidWorld(w) && d in w.devices && w.devices[d].state != Accepted && Unknown(w, d) && !HasGroupPrefix(d)
    requires i < |w.PointsOf(d)|
    ensures var live, pt := AcceptDevice(p, w, d, now).0.live, w.PointsOf(d)[i];
            && Lookup(live, PointKey(d, pt.id))
                 == Some(Entry(match pt.kind case Binary => Bool(false) case Analog => Float(0.0) case Multistate => Integer(0), 0))
            && (forall k <- w.live :: Lookup(live, k) == Some(w.live[k]))
            && (forall k <- live :: k in w.live || k.device == d)
  {
    var pts := w.PointsOf(d);
    hide RegisterPoints;
    AcceptedRows(p, w, d, now);
    WorldParts(w, d);
    RegisteredValue(w.live, d, pts, |pts|, i);
    forall k: PointKey
      ensures k in w.live ==> Lookup(RegisterPoints(w.live, d, pts, |pts|), k) == Some(w.live[k])
      ensures k in RegisterPoints(w.live, d, pts, |pts|) ==> k in w.live || k.device == d
    {
      RegisteredExactly(w.live, d, pts, |pts|, k);
    }
  }

  ghost predicate IsPointOf(w: World, d: string, key: PointKey) {
    d == key.device && exists i :: 0 <= i < |w.PointsOf(d)| && w.PointsOf(d)[i].id == key.point
  }

  ghost predicate IsAcceptedPoint(w: World, key: PointKey) {
    key.device in w.devices && w.devices[key.device].state == Accepted && IsPointOf(w, key.device, key)
  }

  lemma {:induction false} HydratedFirstExactly(w: World, ds: seq<string>, n: nat, key: PointKey)
    requires n <= |ds|
    ensures var after := HydrateFirst(w, ds, n);
            && (key in w.live ==> Lookup(after, key) == Some(w.live[key]))
            && (key in after <==> key in w.live || exists j :: 0 <= j < n && IsPointOf(w, ds[j], key))
            && (key in after && key !in w.live ==> after[key].status == 0)
  {
    if n > 0 {
      hide RegisterPoints;
      HydratedFirstExactly(w, ds, n - 1, key);
      var pts := w.PointsOf(ds[n - 1]);
      RegisteredExactly(HydrateFirst(w, ds, n - 1), ds[n - 1], pts, |pts|, key);
    }
  }

  // Hydration adds an unflagged entry for exactly the missing points of accepted devices, and never
  // touches an entry that is there.
  lemma HydrateAddsExactlyTheMissing(p: Policy, w: World, key: PointKey)
    requires p.Valid()
    ensures var live := Hydrate(p, w).live;
            && (key in w.live ==> Lookup(live, key) == Some(w.live[key]))
            && (key in live <==> key in w.live || IsAcceptedPoint(w, key))
            && (key in live && key !in w.live ==> live[key].status == 0)
  {
    hide IsPointOf;
    var ds := p.accepted(w.devices);
    HydratedFirstExactly(w, ds, |ds|, key);
    IsPointOfItsDevice(w, key);
    assert key.device in ds <==> key.device in w.devices && w.devices[key.device].state == Accepted;
  }

  lemma IsPointOfItsDevice(w: World, key: PointKey)
    ensures forall d | IsPointOf(w, d, key) :: d == key.device
  {
  }

  lemma {:induction false} HydratedFirstValue(w: World, ds: seq<string>, n: nat, j: nat, i: nat)
    requires j < n <= |ds| && i < |w.PointsOf(ds[j])| && DistinctPointIds(w.PointsOf(ds[j]))
    requires PointKey(ds[j], w.PointsOf(ds[j])[i].id) !in w.live
    ensures var pt := w.PointsOf(ds[j])[i];
            Lookup(HydrateFirst(w, ds, n), PointKey(ds[j], pt.id)) == Some(Entry(DefaultValue(pt.kind), 0))
  {
    hide RegisterPoints, DefaultValue, DistinctPointIds;
    var d, pts, before := ds[n - 1], w.PointsOf(ds[n - 1]), HydrateFirst(w, ds, n - 1);
    var key := PointKey(ds[j], w.PointsOf(ds[j])[i].id);
    HydratedFirstExactly(w, ds, n - 1, key);
    RegisteredExactly(before, d, pts, |pts|, key);
    if j < n - 1 {
      HydratedFirstValue(w, ds, n - 1, j, i);
    } else if key in before {
      var k :| 0 <= k < n - 1 && IsPointOf(w, ds[k], key);
      HydratedFirstValue(w, ds, n - 1, k, i);
    } else {
      RegisteredValue(before, d, pts, |pts|, i);
    }
  }

  // Where a point of an accepted device had no entry, it gets the default of its kind.
  lemma HydrateGivesDefaults(p: Policy, w: World, d: string, i: nat)
    requires p.Valid() && d in w.devices && w.devices[d].state == Accepted
    requires i < |w.PointsOf(d)| && DistinctPointIds(w.PointsOf(d)) && PointKey(d, w.PointsOf(d)[i].id) !in w.live
    ensures var pt := w.PointsOf(d)[i];
            Lookup(Hydrate(p, w).live, PointKey(d, pt.id))
              == Some(Entry(match pt.kind case Binary => Bool(false) case Analog => Float(0.0) case Multistate => Integer(0), 0))
  {
    hide HydrateFirst, DistinctPointIds;
    var ds := p.accepted(w.devices);
    assert d in ds;
    var j :| 0 <= j < |ds| && ds[j] == d;
    HydratedFirstValue(w, ds, |ds|, j, i);
  }

  // A second hydration changes nothing.
  lemma HydrateIsIdempotent(p: Policy, w: World)
    requires p.Valid()
    ensures Hydrate(p, Hydrate(p, w)) == Hydrate(p, w)
  {
    hide Hydrate, HydrateFirst, RegisterPoints, IsAcceptedPoint;
    var once := Hydrate(p, w);
    var twice := Hydrate(p, once);
    HydrateChangesOnlyLive(p, w);
    HydrateChangesOnlyLive(p, once);
    forall key: PointKey ensures Lookup(twice.live, key) == Lookup(once.live, key) {
      HydrateAddsExactlyTheMissing(p, w, key);
      HydrateAddsExactlyTheMissing(p, once, key);
      SameAcceptedPoints(w, once, key);
    }
    SameLookups(twice.live, once.live);
  }

  lemma SameAcceptedPoints(w: World, once: World, key: PointKey)
    requires once == w.(live := once.live)
    ensures IsAcceptedPoint(once, key) <==> IsAcceptedPoint(w, key)
  {
    assert once.PointsOf(key.device) == w.PointsOf(key.device);
  }

  lemma HydrateChangesOnlyLive(p: Policy, w: World)
    ensures Hydrate(p, w) == w.(live := Hydrate(p, w).live)
  {
  }

  lemma SameLookups(a: map<PointKey, Entry>, b: map<PointKey, Entry>)
    requires forall key: PointKey :: Lookup(a, key) == Lookup(b, key)
    ensures a == b
  {
    forall key: PointKey ensures key in a <==> key in b {
      assert Lookup(a, key) == Lookup(b, key);
    }
    forall key <- a ensures a[key] == b[key] {
      assert Lookup(a, key) == Lookup(b, key);
    }
  }
}
