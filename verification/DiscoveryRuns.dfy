/** Whole runs of the discovery service from empty stores, with scans, re-scans and ignored devices:
    what every command keeps, and what the results about single commands come to. */
module DiscoveryRuns {
  import opened Options
  import opened Grouping
  import opened NodeStores
  import opened DiscoveryService
  import opened DiscoveryLifecycle
  import opened DiscoveryScans
  import opened Regrouping

  datatype Command =
    | Find(d: string, dis: string, protocol: string, pts: seq<DiscoveredPoint>)
    | Repoint(d: string, pts: seq<DiscoveredPoint>)
    | Accept(d: string, now: int)
    | Unaccept(d: string)
    | Ignore(d: string)
    | Unignore(d: string)
    | ClearPending
    | Regrouping
    | Hydrating

  ghost function Obeyed(p: Policy, w: World, c: Command): World
    requires p.Valid()
  {
    match c
    case Find(d, dis, protocol, pts) => Found(w, d, dis, protocol, pts)
    case Repoint(d, pts) => Repointed(w, d, pts)
    case Accept(d, now) => AcceptDevice(p, w, d, now).0
    case Unaccept(d) => UnacceptDevice(p, w, d).0
    case Ignore(d) => Marked(w, d, Ignored).0
    case Unignore(d) => Marked(w, d, Discovered).0
    case ClearPending => Cleared(w)
    case Regrouping => Regroup(p, w).0
    case Hydrating => Hydrate(p, w)
  }

  const EMPTY: World := World(map[], map[], map[], map[], map[], [])

  ghost function After(p: Policy, cs: seq<Command>, n: nat): World
    requires p.Valid() && n <= |cs|
  {
    if n == 0 then EMPTY else Obeyed(p, After(p, cs, n - 1), cs[n - 1])
  }

  predicate GoodId(d: string) {
    '/' !in d && !HasGroupPrefix(d)
  }

  // The ids of devices hold no slash and do not look like group ids.
  ghost predicate GoodCommands(cs: seq<Command>) {
    forall c <- cs | c.Find? :: GoodId(c.d)
  }

  // ----- what every command keeps -----

  // Parents exist, and Space nodes are groups without a parent.
  ghost predicate GoodNodes(ns: Nodes) {
    NodesValid(ns) && forall k <- ns | ns[k].nodeType == Space :: HasGroupPrefix(k) && ns[k].parent == None
  }

  ghost predicate Sound(w: World) {
    && GoodNodes(w.nodes) && EntitiesValid(w.entities)
    && (forall d <- w.points :: DistinctPointIds(w.points[d]))
    && (forall d <- w.devices :: GoodId(d))
    && (forall d | IsAccepted(w, d) :: d in w.nodes && d in w.entities)
  }

  lemma SoundIsValid(w: World)
    requires Sound(w)
    ensures ValidWorld(w) && forall d | Processed(w, d) :: !HasGroupPrefix(d)
  {
    hide HasGroupPrefix;
  }

  // ----- the stores, one operation at a time -----

  lemma CreateKeepsGood(ns: Nodes, id: string, n: Node)
    requires GoodNodes(ns) && (n.nodeType == Space ==> HasGroupPrefix(id) && n.parent == None)
    ensures GoodNodes(CreateNode(ns, id, n))
  {
  }

  lemma DeleteKeepsGood(ns: Nodes, id: string)
    requires GoodNodes(ns)
    ensures GoodNodes(DeleteNode(ns, id))
  {
  }

  lemma WithGroupKeepsGood(p: Policy, ns: Nodes, group: string, dis: string, pts: seq<DiscoveredPoint>)
    requires GoodNodes(ns) && HasGroupPrefix(group)
    ensures GoodNodes(WithGroup(p, ns, group, dis, pts))
  {
  }

  lemma {:induction false} CreatePointsKeepsGood(ns: Nodes, d: string, pts: seq<DiscoveredPoint>, n: nat)
    requires GoodNodes(ns) && n <= |pts|
    ensures GoodNodes(CreatePointNodes(ns, d, pts, n))
  {
    if n > 0 {
      hide GoodNodes, CreateNode;
      CreatePointsKeepsGood(ns, d, pts, n - 1);
      CreateKeepsGood(CreatePointNodes(ns, d, pts, n - 1), PointId(d, pts[n - 1].id), PointNode(d, pts[n - 1]));
    }
  }

  lemma {:induction false} DeletePointsKeepsGood(ns: Nodes, d: string, pts: seq<DiscoveredPoint>, n: nat)
    requires GoodNodes(ns) && n <= |pts|
    ensures GoodNodes(DeletePointNodes(ns, d, pts, n))
  {
    if n > 0 {
      hide GoodNodes, DeleteNode;
      DeletePointsKeepsGood(ns, d, pts, n - 1);
      DeleteKeepsGood(DeletePointNodes(ns, d, pts, n - 1), PointId(d, pts[n - 1].id));
    }
  }

  lemma CreateKeepsEntities(es: Entities, id: string, e: Entity)
    requires EntitiesValid(es) && e.refs == map[]
    ensures EntitiesValid(CreateEntity(es, id, e))
  {
  }

  lemma SetRefKeepsEntities(es: Entities, source: string, tag: string, target: string)
    requires EntitiesValid(es)
    ensures EntitiesValid(SetRef(es, source, tag, target))
  {
  }

  lemma DeleteKeepsEntities(es: Entities, id: string)
    requires EntitiesValid(es)
    ensures EntitiesValid(DeleteEntity(es, id))
  {
  }

  lemma {:induction false} CreatePointsKeepsEntities(p: Policy, es: Entities, d: string, dis: string, pts: seq<DiscoveredPoint>, n: nat)
    requires EntitiesValid(es) && n <= |pts|
    ensures EntitiesValid(CreatePointEntities(p, es, d, dis, pts, n))
  {
    if n > 0 {
      hide EntitiesValid, CreateEntity, SetRef;
      var before, id, e := CreatePointEntities(p, es, d, dis, pts, n - 1), PointId(d, pts[n - 1].id), NewPointEntity(p, d, dis, pts[n - 1]);
      CreatePointsKeepsEntities(p, es, d, dis, pts, n - 1);
      CreateKeepsEntities(before, id, e);
      SetRefKeepsEntities(CreateEntity(before, id, e), id, "equipRef", d);
    }
  }

  lemma {:induction false} DeletePointsKeepsEntities(es: Entities, d: string, pts: seq<DiscoveredPoint>, n: nat)
    requires EntitiesValid(es) && n <= |pts|
    ensures EntitiesValid(DeletePointEntities(es, d, pts, n))
  {
    if n > 0 {
      hide EntitiesValid, DeleteEntity, PointId;
      DeletePointsKeepsEntities(es, d, pts, n - 1);
      DeleteKeepsEntities(DeletePointEntities(es, d, pts, n - 1), PointId(d, pts[n - 1].id));
    }
  }


  // ----- scans and marks -----

  lemma RepointKeepsSound(w: World, d: string, pts: seq<DiscoveredPoint>)
    requires Sound(w)
    ensures Sound(Repointed(w, d, pts))
  {
    hide GoodNodes, EntitiesValid, GoodId, DistinctPointIds, Upserted;
    assert DistinctPointIds(w.PointsOf(d)) by { SoundIsValid(w); PointsAreDistinct(w, d); }
    UpsertedAreDistinct(w.PointsOf(d), pts);
  }

  lemma FindKeepsSound(w: World, d: string, dis: string, protocol: string, pts: seq<DiscoveredPoint>)
    requires Sound(w) && GoodId(d)
    ensures Sound(Found(w, d, dis, protocol, pts))
  {
    hide GoodNodes, EntitiesValid, GoodId, DistinctPointIds, Repointed;
    var device := if d in w.devices then w.devices[d].(dis := dis) else Device(Discovered, dis, protocol, None);
    var w' := w.(devices := w.devices[d := device]);
    assert forall e :: IsAccepted(w', e) == IsAccepted(w, e);
    RepointKeepsSound(w', d, pts);
  }

  lemma MarkKeepsSound(w: World, d: string, state: DeviceState)
    requires Sound(w) && state != Accepted
    ensures Sound(Marked(w, d, state).0)
  {
    hide GoodNodes, EntitiesValid, GoodId, DistinctPointIds;
  }

  lemma ClearKeepsSound(w: World)
    requires Sound(w)
    ensures Sound(Cleared(w))
  {
    hide GoodNodes, EntitiesValid, GoodId, DistinctPointIds;
  }

  lemma HydrateKeepsSound(p: Policy, w: World)
    requires Sound(w)
    ensures Sound(Hydrate(p, w))
  {
    hide GoodNodes, EntitiesValid, GoodId, DistinctPointIds, Hydrate;
    HydrateChangesOnlyLive(p, w);
  }

  // ----- accepting -----

  lemma {:induction false} CreatePointsKeepsIds(p: Policy, es: Entities, d: string, dis: string, pts: seq<DiscoveredPoint>, n: nat)
    requires n <= |pts|
    ensures es.Keys <= CreatePointEntities(p, es, d, dis, pts, n).Keys
  {
    if n > 0 {
      hide PointId, NewPointEntity;
      CreatePointsKeepsIds(p, es, d, dis, pts, n - 1);
    }
  }

  lemma AcceptKeepsNodes(p: Policy, w: World, d: string, now: int)
    requires GoodNodes(w.nodes) && GoodId(d) && d in w.devices && w.devices[d].state != Accepted
    ensures var ns, pts := AcceptDevice(p, w, d, now).0.nodes, w.PointsOf(d);
            && GoodNodes(ns) && d in ns && w.nodes.Keys <= ns.Keys
            && ns.Keys <= w.nodes.Keys + {d, w.GroupOf(d)} + PointIds(d, pts, |pts|)
  {
    hide GoodNodes, WithGroup, CreateNode, CreatePointNodes, CreatePointEntities, Fingerprint, GroupNodeId, HasGroupPrefix, PointIds;
    var dis, pts, group := w.devices[d].dis, w.PointsOf(d), w.GroupOf(d);
    GroupIdHasPrefix(Fingerprint(pts));
    WithGroupKeepsGood(p, w.nodes, group, dis, pts);
    CreateKeepsGood(WithGroup(p, w.nodes, group, dis, pts), d, EquipNode(dis, group));
    CreatePointsKeepsGood(EquippedNodes(p, w, d), d, pts, |pts|);
    EquippedNodesAre(p, w, d);
    CreatePointsKeepsRows(EquippedNodes(p, w, d), d, pts, |pts|);
  }

  lemma AcceptKeepsEntityStore(p: Policy, w: World, d: string, now: int)
    requires EntitiesValid(w.entities) && d in w.devices && w.devices[d].state != Accepted
    ensures var es := AcceptDevice(p, w, d, now).0.entities;
            EntitiesValid(es) && d in es && w.entities.Keys <= es.Keys
  {
    hide EntitiesValid, EquippedNodes, CreatePointNodes, CreatePointEntities;
    var dis, pts := w.devices[d].dis, w.PointsOf(d);
    var equipped := CreateEntity(w.entities, d, EquipEntity(p, dis));
    CreateKeepsEntities(w.entities, d, EquipEntity(p, dis));
    CreatePointsKeepsEntities(p, equipped, d, dis, pts, |pts|);
    CreatePointsKeepsIds(p, equipped, d, dis, pts, |pts|);
  }

  lemma SoundAgain(w: World, w': World)
    requires Sound(w) && w'.points == w.points && w'.devices.Keys == w.devices.Keys
    requires GoodNodes(w'.nodes) && EntitiesValid(w'.entities)
    requires forall e | IsAccepted(w', e) :: e in w'.nodes && e in w'.entities
    ensures Sound(w')
  {
    hide GoodNodes, EntitiesValid, GoodId, DistinctPointIds, IsAccepted;
    assert forall e <- w'.devices :: e in w.devices;
  }

  lemma SoundParts(w: World)
    requires Sound(w)
    ensures GoodNodes(w.nodes) && NodesValid(w.nodes) && EntitiesValid(w.entities)
    ensures forall d <- w.devices :: GoodId(d) && !HasGroupPrefix(d)
    ensures forall d | IsAccepted(w, d) :: d in w.devices && d in w.nodes && d in w.entities
  {
    hide HasGroupPrefix;
  }

  lemma AcceptKeepsSound(p: Policy, w: World, d: string, now: int)
    requires Sound(w)
    ensures Sound(AcceptDevice(p, w, d, now).0)
  {
    if d in w.devices && w.devices[d].state != Accepted {
      hide Sound, AcceptDevice, IsAccepted, GoodNodes, EntitiesValid, GoodId, PointIds, Fingerprint, GroupNodeId;
      SoundParts(w);
      AcceptKeepsNodes(p, w, d, now);
      AcceptKeepsEntityStore(p, w, d, now);
      AcceptedState(p, w, d, now);
      SoundAgain(w, AcceptDevice(p, w, d, now).0);
    } else {
      assert AcceptDevice(p, w, d, now).0 == w;
    }
  }

  // Accepting leaves no empty group exactly when the equip node is new or the group is there already.
  lemma AcceptLeavesNoEmptyGroupExactly(p: Policy, w: World, d: string, now: int)
    requires GoodNodes(w.nodes) && GoodId(d) && d in w.devices && w.devices[d].state != Accepted
    requires EmptyGroups(w.nodes) == {}
    ensures EmptyGroups(AcceptDevice(p, w, d, now).0.nodes) == {} <==> d !in w.nodes || w.GroupOf(d) in w.nodes
  {
    hide AcceptDevice, GoodNodes, WithGroup, EquippedNodes, CreatePointNodes, Fingerprint, GroupNodeId, HasGroupPrefix, EmptyGroups;
    var dis, pts, group := w.devices[d].dis, w.PointsOf(d), w.GroupOf(d);
    var equipped := EquippedNodes(p, w, d);
    EquippedNodesAre(p, w, d);
    GroupIdHasPrefix(Fingerprint(pts));
    PointsChangeNoGroup(equipped, d, pts);
    assert AcceptDevice(p, w, d, now).0.nodes == CreatePointNodes(equipped, d, pts, |pts|) by { AcceptedNodes(p, w, d, now); }
    if d !in w.nodes {
      EquipFillsGroup(w.nodes, group, GroupNode(p, dis, pts), d, EquipNode(dis, group));
    } else if group !in w.nodes {
      NewGroupIsEmpty(w.nodes, group, GroupNode(p, dis, pts));
    }
  }

  lemma AcceptedNodes(p: Policy, w: World, d: string, now: int)
    requires d in w.devices && w.devices[d].state != Accepted
    ensures AcceptDevice(p, w, d, now).0.nodes == CreatePointNodes(EquippedNodes(p, w, d), d, w.PointsOf(d), |w.PointsOf(d)|)
  {
  }

  // The nodes of points hang below the device, which is no group.
  lemma PointsChangeNoGroup(ns: Nodes, d: string, pts: seq<DiscoveredPoint>)
    requires !HasGroupPrefix(d)
    ensures EmptyGroups(CreatePointNodes(ns, d, pts, |pts|)) == EmptyGroups(ns)
  {
    hide HasGroupPrefix, CreatePointNodes, PointIds;
    var after := CreatePointNodes(ns, d, pts, |pts|);
    CreatePointsKeepsRows(ns, d, pts, |pts|);
    forall g | HasGroupPrefix(g) ensures HasChild(after, g) <==> HasChild(ns, g) {
      if c :| c in ns && ns[c].parent == Some(g) { assert after[c].parent == Some(g); }
      if c :| c in after && after[c].parent == Some(g) { assert c in ns; }
    }
    assert forall k :: IsGroup(after, k) <==> IsGroup(ns, k);
  }

  lemma EquipFillsGroup(ns: Nodes, group: string, row: Node, d: string, equip: Node)
    requires EmptyGroups(ns) == {} && d !in ns && d != group && equip.parent == Some(group) && equip.nodeType == Equip
    ensures EmptyGroups((if group in ns then ns else ns[group := row])[d := equip]) == {}
  {
    hide HasGroupPrefix;
    var after := (if group in ns then ns else ns[group := row])[d := equip];
    forall g | IsGroup(after, g) ensures HasChild(after, g) {
      if g == group {
        assert after[d].parent == Some(group);
      } else {
        assert IsGroup(ns, g) && g !in EmptyGroups(ns);
        var c :| c in ns && ns[c].parent == Some(g);
        assert after[c].parent == Some(g);
      }
    }
  }

  lemma NewGroupIsEmpty(ns: Nodes, group: string, row: Node)
    requires GoodNodes(ns) && HasGroupPrefix(group) && group !in ns && row.nodeType == Space && row.parent == None
    ensures group in EmptyGroups(ns[group := row])
  {
    hide HasGroupPrefix;
  }

  // ----- un-accepting and regrouping -----

  lemma GoodHasNoHollowGroup(ns: Nodes)
    requires GoodNodes(ns)
    ensures NoHollowGroup(ns)
  {
  }

  // Sweeping a store of flat groups leaves no empty group, and removes only groups.
  lemma SweepOfGood(ns: Nodes, order: seq<string>)
    requires GoodNodes(ns) && ListsSpaces(ns, order)
    ensures var after := Sweep(ns, order);
            && GoodNodes(after) && EmptyGroups(after) == {} && after.Keys <= ns.Keys
            && forall k <- ns | !HasGroupPrefix(k) :: k in after
  {
    GoodHasNoHollowGroup(ns);
    SettledSweep(ns, order);
    SweepKeepsValid(ns, order);
    var gone := SweepRemoves(ns, order, |order|);
  }

  lemma UnacceptKeepsNodes(p: Policy, w: World, d: string)
    requires p.Valid() && GoodNodes(w.nodes) && IsAccepted(w, d)
    ensures var ns := UnacceptDevice(p, w, d).0.nodes; GoodNodes(ns) && EmptyGroups(ns) == {} && ns.Keys <= w.nodes.Keys - {d}
  {
    hide GoodNodes, EmptyGroups, Sweep, HasGroupPrefix, ListsSpaces, PointIds, DeletePointNodes, DeletePointEntities;
    var pts := w.PointsOf(d);
    var deleted := DeletePointNodes(w.nodes, d, pts, |pts|);
    DeletePointsKeepsGood(w.nodes, d, pts, |pts|);
    DeleteKeepsGood(deleted, d);
    DeletedNodeKeys(w.nodes, d, pts, |pts|);
    var ns := DeleteNode(deleted, d);
    SweepOfGood(ns, p.spaces(ns));
  }

  lemma UnacceptKeepsEntityStore(p: Policy, w: World, d: string)
    requires EntitiesValid(w.entities) && IsAccepted(w, d)
    ensures EntitiesValid(UnacceptDevice(p, w, d).0.entities)
  {
    hide EntitiesValid, Sweep, DeletePointNodes, DeletePointEntities, DeleteNode, DeleteEntity;
    var pts := w.PointsOf(d);
    DeletePointsKeepsEntities(w.entities, d, pts, |pts|);
    DeleteKeepsEntities(DeletePointEntities(w.entities, d, pts, |pts|), d);
  }

  lemma OthersStay(p: Policy, w: World, d: string, e: string)
    requires IsAccepted(w, d) && e != d && GoodId(e)
    ensures var w' := UnacceptDevice(p, w, d).0; (e in w'.nodes <==> e in w.nodes) && (e in w'.entities <==> e in w.entities)
  {
    hide UnacceptDevice, HasGroupPrefix;
    SlashIn(d, w.PointsOf(d));
    UnacceptRemovesExactly(p, w, d, e);
  }

  lemma UnacceptKeepsSound(p: Policy, w: World, d: string)
    requires p.Valid() && Sound(w)
    ensures Sound(UnacceptDevice(p, w, d).0)
  {
    if IsAccepted(w, d) {
      hide Sound, UnacceptDevice, GoodNodes, EntitiesValid, GoodId, EmptyGroups;
      var w' := UnacceptDevice(p, w, d).0;
      SoundParts(w);
      UnacceptKeepsNodes(p, w, d);
      UnacceptKeepsEntityStore(p, w, d);
      UnacceptedState(p, w, d);
      forall e | IsAccepted(w', e) ensures e in w'.nodes && e in w'.entities {
        assert IsAccepted(w, e) && e != d && GoodId(e);
        OthersStay(p, w, d, e);
      }
      SoundAgain(w, w');
    } else {
      assert UnacceptDevice(p, w, d).0 == w;
    }
  }

  lemma MovesKeepGood(w: World, moved: Nodes)
    requires GoodNodes(w.nodes) && NodesValid(moved) && Moved(w, w.nodes, moved)
    requires forall d | Processed(w, d) :: !HasGroupPrefix(d)
    ensures GoodNodes(moved)
  {
    hide HasGroupPrefix, Processed;
  }

  // What a regrouping does to the node store.
  lemma RegroupedNodes(p: Policy, w: World)
    requires p.Valid() && GoodNodes(w.nodes) && forall d | Processed(w, d) :: !HasGroupPrefix(d)
    ensures var w' := Regroup(p, w).0;
            && w' == w.(nodes := w'.nodes)
            && GoodNodes(w'.nodes) && EmptyGroups(w'.nodes) == {}
            && forall k | !HasGroupPrefix(k) :: k in w'.nodes <==> k in w.nodes
  {
    hide Regroup, Moves, Sweep, GoodNodes, EmptyGroups, HasGroupPrefix, Processed, Grouped, ListsSpaces;
    assert NodesValid(w.nodes) by { GoodAreValid(w.nodes); }
    MovesAre(p, w);
    var moved := Moves(p, w);
    MovesKeepGood(w, moved);
    SweepOfGood(moved, p.spaces(moved));
    assert forall k | !HasGroupPrefix(k) :: k in moved <==> k in w.nodes by { MovedIds(w, moved); }
  }

  lemma GoodAreValid(ns: Nodes)
    requires GoodNodes(ns)
    ensures NodesValid(ns)
  {
  }

  lemma MovedIds(w: World, moved: Nodes)
    requires Moved(w, w.nodes, moved)
    ensures forall k | !HasGroupPrefix(k) :: k in moved <==> k in w.nodes
  {
    hide HasGroupPrefix, Processed;
  }

  lemma RegroupKeepsSound(p: Policy, w: World)
    requires p.Valid() && Sound(w)
    ensures Sound(Regroup(p, w).0)
  {
    hide Regroup, GoodNodes, EntitiesValid, DistinctPointIds, EmptyGroups, HasGroupPrefix, HasPoints;
    RegroupedNodes(p, w);
    var w' := Regroup(p, w).0;
    assert forall d :: IsAccepted(w', d) == IsAccepted(w, d);
  }

  // ----- whole runs -----

  lemma Step(p: Policy, cs: seq<Command>, n: nat)
    requires p.Valid() && 0 < n <= |cs|
    ensures After(p, cs, n) == Obeyed(p, After(p, cs, n - 1), cs[n - 1])
  {
    hide Obeyed;
  }

  lemma CommandKeepsSound(p: Policy, w: World, c: Command)
    requires p.Valid() && Sound(w) && (c.Find? ==> GoodId(c.d))
    ensures Sound(Obeyed(p, w, c))
  {
    hide Sound, AcceptDevice, UnacceptDevice, Found, Repointed, Marked, Cleared, Hydrate, Regroup, GoodId;
    match c
    case Find(d, dis, protocol, pts) => FindKeepsSound(w, d, dis, protocol, pts);
    case Repoint(d, pts) => RepointKeepsSound(w, d, pts);
    case Accept(d, now) => AcceptKeepsSound(p, w, d, now);
    case Unaccept(d) => UnacceptKeepsSound(p, w, d);
    case Ignore(d) => MarkKeepsSound(w, d, Ignored);
    case Unignore(d) => MarkKeepsSound(w, d, Discovered);
    case ClearPending => ClearKeepsSound(w);
    case Regrouping => RegroupKeepsSound(p, w);
    case Hydrating => HydrateKeepsSound(p, w);
  }

  lemma EmptyIsSound()
    ensures Sound(EMPTY)
  {
  }

  // After every run of commands from empty stores: parents and references exist, every Space node is a
  // group without a parent, the points of a device have distinct ids, and every accepted device has its
  // equip node and entity.
  lemma {:induction false} RunIsSound(p: Policy, cs: seq<Command>, n: nat)
    requires p.Valid() && GoodCommands(cs) && n <= |cs|
    ensures Sound(After(p, cs, n))
  {
    if n == 0 {
      EmptyIsSound();
    } else {
      hide Sound, Obeyed, GoodId;
      RunIsSound(p, cs, n - 1);
      assert cs[n - 1] in cs;
      CommandKeepsSound(p, After(p, cs, n - 1), cs[n - 1]);
    }
  }

  // In every run, whatever was scanned again or ignored, one regrouping puts every accepted device
  // that has points below the group of its kinds and leaves no empty group; a second one returns zero
  // and changes nothing.
  lemma RegroupingSettlesInEveryRun(p: Policy, cs: seq<Command>, n: nat)
    requires p.Valid() && GoodCommands(cs) && n <= |cs|
    ensures var w := After(p, cs, n);
            var once := Regroup(p, w).0;
            && (forall d | Processed(w, d) :: Grouped(w, once.nodes, d))
            && EmptyGroups(once.nodes) == {}
            && Regroup(p, once) == (once, 0)
  {
    hide After, Regroup, Sound, Grouped, HasGroupPrefix, EmptyGroups, GoodCommands, NodesValid;
    var w := After(p, cs, n);
    RunIsSound(p, cs, n);
    SoundParts(w);
    RegroupGroups(p, w);
    RegroupedNodes(p, w);
    RegroupConverges(p, w);
  }

  // ----- when regrouping has work -----

  lemma {:induction false} CountedNothing(p: Policy, w: World, ns: Nodes, ds: seq<string>, n: nat)
    requires n <= |ds| && (forall d <- ds :: d in w.devices) && NodesValid(ns)
    requires MoveFirst(p, w, ns, ds, n).1 == 0
    ensures MoveFirst(p, w, ns, ds, n).0 == ns
    ensures forall i | 0 <= i < n && HasPoints(w, ds[i]) :: Grouped(w, ns, ds[i])
  {
    if n > 0 {
      hide Fingerprint, GroupNodeId, WithGroup, SetParent, HasPoints;
      CountedNothing(p, w, ns, ds, n - 1);
    }
  }

  // Regrouping returns zero exactly when every accepted device that has points hangs below the group of
  // its kinds, and then changes nothing exactly when no group is empty.
  lemma RegroupIdlesExactly(p: Policy, w: World)
    requires p.Valid() && Sound(w)
    ensures var (once, count) := Regroup(p, w);
            && (count == 0 <==> forall d | Processed(w, d) :: Grouped(w, w.nodes, d))
            && (count == 0 ==> (once == w <==> EmptyGroups(w.nodes) == {}))
  {
    hide GoodNodes, EntitiesValid, DistinctPointIds, GoodId, EmptyGroups, MoveFirst, Sweep, HasPoints, Grouped;
    var ds := p.accepted(w.devices);
    SoundParts(w);
    var count := MoveFirst(p, w, w.nodes, ds, |ds|).1;
    if forall d | Processed(w, d) :: Grouped(w, w.nodes, d) {
      forall i | 0 <= i < |ds| && HasPoints(w, ds[i]) ensures Grouped(w, w.nodes, ds[i]) {
        assert ds[i] in ds && Processed(w, ds[i]);
      }
      MoveFirstIdles(p, w, w.nodes, ds, |ds|);
    }
    if count == 0 {
      CountedNothing(p, w, w.nodes, ds, |ds|);
      forall d | Processed(w, d) ensures Grouped(w, w.nodes, d) {
        assert d in ds;
      }
      SweepIdlesExactly(w.nodes, p.spaces(w.nodes));
    }
  }

  // ----- runs that ignore no accepted device -----

  // No device is ignored, or taken back from being ignored, while it is accepted.
  ghost predicate Careful(p: Policy, cs: seq<Command>, n: nat)
    requires p.Valid() && n <= |cs|
  {
    forall i | 0 <= i < n && (cs[i].Ignore? || cs[i].Unignore?) :: !IsAccepted(After(p, cs, i), cs[i].d)
  }

  // No group is empty, and of all ids a device may have those of accepted devices are equip nodes.
  ghost predicate Tidy(w: World) {
    EmptyGroups(w.nodes) == {} && forall d | GoodId(d) && d in w.nodes :: IsAccepted(w, d)
  }

  lemma AcceptKeepsTidy(p: Policy, w: World, d: string, now: int)
    requires Sound(w) && Tidy(w)
    ensures Tidy(AcceptDevice(p, w, d, now).0)
  {
    if d in w.devices && w.devices[d].state != Accepted {
      SoundParts(w);
      assert d !in w.nodes && EmptyGroups(w.nodes) == {};
      hide Sound, AcceptDevice, EmptyGroups, HasGroupPrefix, PointIds, GoodNodes, Fingerprint, GroupNodeId;
      AcceptLeavesNoEmptyGroupExactly(p, w, d, now);
      AcceptKeepsNodes(p, w, d, now);
      AcceptedState(p, w, d, now);
      GroupIdHasPrefix(Fingerprint(w.PointsOf(d)));
      SlashIn(d, w.PointsOf(d));
    } else {
      assert AcceptDevice(p, w, d, now).0 == w;
    }
  }

  lemma UnacceptKeepsTidy(p: Policy, w: World, d: string)
    requires p.Valid() && Sound(w) && Tidy(w)
    ensures Tidy(UnacceptDevice(p, w, d).0)
  {
    if IsAccepted(w, d) {
      hide UnacceptDevice, EmptyGroups, GoodId, GoodNodes, EntitiesValid, DistinctPointIds;
      UnacceptKeepsNodes(p, w, d);
      UnacceptedState(p, w, d);
    } else {
      assert UnacceptDevice(p, w, d).0 == w;
    }
  }

  lemma RegroupKeepsTidy(p: Policy, w: World)
    requires p.Valid() && Sound(w) && Tidy(w)
    ensures Tidy(Regroup(p, w).0)
  {
    hide Regroup, EmptyGroups, GoodNodes, HasGroupPrefix, EntitiesValid, DistinctPointIds, HasPoints;
    RegroupedNodes(p, w);
  }

  lemma SameNodesKeepTidy(w: World, w': World)
    requires Tidy(w) && w'.nodes == w.nodes && forall d | IsAccepted(w, d) :: IsAccepted(w', d)
    ensures Tidy(w')
  {
  }

  lemma MarkKeepsTidy(w: World, d: string, state: DeviceState)
    requires Tidy(w) && !IsAccepted(w, d)
    ensures Tidy(Marked(w, d, state).0)
  {
    hide EmptyGroups, GoodId;
    SameNodesKeepTidy(w, Marked(w, d, state).0);
  }

  lemma CommandKeepsTidy(p: Policy, w: World, c: Command)
    requires p.Valid() && Sound(w) && Tidy(w) && (c.Ignore? || c.Unignore? ==> !IsAccepted(w, c.d))
    ensures Tidy(Obeyed(p, w, c))
  {
    hide Sound, Tidy, AcceptDevice, UnacceptDevice, Regroup, HydrateFirst;
    match c
    case Accept(d, now) => AcceptKeepsTidy(p, w, d, now);
    case Unaccept(d) => UnacceptKeepsTidy(p, w, d);
    case Ignore(d) => MarkKeepsTidy(w, d, Ignored);
    case Unignore(d) => MarkKeepsTidy(w, d, Discovered);
    case Regrouping => RegroupKeepsTidy(p, w);
    case _ => SameNodesKeepTidy(w, Obeyed(p, w, c));
  }

  lemma CarefulStep(p: Policy, cs: seq<Command>, n: nat)
    requires p.Valid() && 0 < n <= |cs| && Careful(p, cs, n)
    ensures Careful(p, cs, n - 1)
    ensures cs[n - 1].Ignore? || cs[n - 1].Unignore? ==> !IsAccepted(After(p, cs, n - 1), cs[n - 1].d)
  {
    hide After, IsAccepted;
  }

  lemma EmptyIsTidy()
    ensures Tidy(EMPTY)
  {
  }

  lemma {:induction false} CarefulRunIsTidy(p: Policy, cs: seq<Command>, n: nat)
    requires p.Valid() && GoodCommands(cs) && n <= |cs| && Careful(p, cs, n)
    ensures Tidy(After(p, cs, n))
  {
    if n == 0 {
      EmptyIsTidy();
    } else {
      hide Sound, Tidy, Obeyed, IsAccepted, GoodId, GoodCommands, Careful;
      CarefulStep(p, cs, n);
      CarefulRunIsTidy(p, cs, n - 1);
      RunIsSound(p, cs, n - 1);
      CommandKeepsTidy(p, After(p, cs, n - 1), cs[n - 1]);
    }
  }

  // A device that is ignored while it is accepted keeps its equip node.
  lemma MarkingAcceptedIsUntidy(w: World, d: string, state: DeviceState)
    requires Sound(w) && IsAccepted(w, d) && state != Accepted
    ensures !Tidy(Marked(w, d, state).0)
  {
    SoundParts(w);
  }

  // No group is empty and only accepted devices have equip nodes, all through a run, exactly when no
  // device is ignored, or taken back, while it is accepted.
  lemma TidyExactlyWhenCareful(p: Policy, cs: seq<Command>, n: nat)
    requires p.Valid() && GoodCommands(cs) && n <= |cs|
    ensures (forall k | 0 <= k <= n :: Tidy(After(p, cs, k))) <==> Careful(p, cs, n)
  {
    hide Tidy, GoodCommands, Sound, After, IsAccepted;
    if Careful(p, cs, n) {
      forall k | 0 <= k <= n ensures Tidy(After(p, cs, k)) {
        CarefulRunIsTidy(p, cs, k);
      }
    } else {
      var i :| 0 <= i < n && (cs[i].Ignore? || cs[i].Unignore?) && IsAccepted(After(p, cs, i), cs[i].d);
      RunIsSound(p, cs, i);
      MarkingAcceptedIsUntidy(After(p, cs, i), cs[i].d, if cs[i].Ignore? then Ignored else Discovered);
      var k := i + 1;
      Step(p, cs, k);
      assert !Tidy(After(p, cs, k));
    }
  }

  // ----- accepting and un-accepting in a run -----

  lemma CarefulHasNoEmptyGroup(p: Policy, cs: seq<Command>, n: nat)
    requires p.Valid() && GoodCommands(cs) && n <= |cs| && Careful(p, cs, n)
    ensures EmptyGroups(After(p, cs, n).nodes) == {}
  {
    hide After, Careful, EmptyGroups, GoodCommands;
    CarefulRunIsTidy(p, cs, n);
  }

  // Both commands together: the stores are restored exactly when no row or value of the device or one
  // of its present points was there before, and no group was empty.
  lemma AcceptUndoneExactly(p: Policy, w: World, d: string, now: int)
    requires p.Valid() && Sound(w) && d in w.devices && w.devices[d].state != Accepted
    ensures var back := UnacceptDevice(p, AcceptDevice(p, w, d, now).0, d).0;
            && back.devices == w.devices[d := w.devices[d].(state := Discovered, acceptedAt := Some(now))]
            && back.points == w.points
            && back.events == w.events + [DeviceAccepted(d, w.devices[d].protocol, |w.PointsOf(d)|)]
            && (back == w.(devices := back.devices, events := back.events) <==>
                  Unknown(w, d) && EmptyGroups(w.nodes) == {})
  {
    hide AcceptDevice, UnacceptDevice, Unknown, ValidWorld, Sound, EmptyGroups, HasGroupPrefix, GoodNodes, GoodId;
    var accepted := AcceptDevice(p, w, d, now).0;
    var back := UnacceptDevice(p, accepted, d).0;
    AcceptedState(p, w, d, now);
    UnacceptedState(p, accepted, d);
    if Unknown(w, d) {
      SoundIsValid(w);
      SoundParts(w);
      UnacceptUndoesAccept(p, w, d, now);
    } else {
      AcceptKeepsSound(p, w, d, now);
      NothingCurrentLeft(p, accepted, d);
      SameStores(w, back, d);
    }
  }

  // In every run, un-accepting a device right after accepting it restores the node, entity and live
  // point stores exactly when none of them knew the device or one of its present points and no group
  // was empty, which is so unless an accepted device was ignored. The rest is as before, but for the
  // state, the time of acceptance and the event.
  lemma AcceptUndoneInEveryRun(p: Policy, cs: seq<Command>, n: nat, d: string, now: int)
    requires p.Valid() && GoodCommands(cs) && n <= |cs|
    requires var w := After(p, cs, n); d in w.devices && w.devices[d].state != Accepted
    ensures var w := After(p, cs, n);
            var back := UnacceptDevice(p, AcceptDevice(p, w, d, now).0, d).0;
            && back.devices == w.devices[d := w.devices[d].(state := Discovered, acceptedAt := Some(now))]
            && back.points == w.points
            && back.events == w.events + [DeviceAccepted(d, w.devices[d].protocol, |w.PointsOf(d)|)]
            && (back == w.(devices := back.devices, events := back.events) <==>
                  Unknown(w, d) && EmptyGroups(w.nodes) == {})
            && (Careful(p, cs, n) ==> EmptyGroups(w.nodes) == {})
  {
    hide AcceptDevice, UnacceptDevice, After, Unknown, Sound, EmptyGroups, GoodCommands, Careful;
    RunIsSound(p, cs, n);
    AcceptUndoneExactly(p, After(p, cs, n), d, now);
    if Careful(p, cs, n) {
      CarefulHasNoEmptyGroup(p, cs, n);
    }
  }

  lemma SameStores(w: World, w': World, d: string)
    requires w'.points == w.points
    ensures w' == w.(devices := w'.devices, events := w'.events) ==> (Unknown(w, d) <==> Unknown(w', d))
  {
    hide PointIds;
  }

  lemma NothingCurrentLeft(p: Policy, w: World, d: string)
    requires Sound(w) && IsAccepted(w, d)
    ensures Unknown(UnacceptDevice(p, w, d).0, d)
  {
    hide UnacceptDevice, HasGroupPrefix, PointIds, GoodNodes, EntitiesValid, DistinctPointIds;
    var w', pts := UnacceptDevice(p, w, d).0, w.PointsOf(d);
    UnacceptedState(p, w, d);
    UnacceptedLive(p, w, d);
    assert GoodId(d) && w'.PointsOf(d) == pts;
    PointIdsAreNoGroups(d, pts);
    forall id | IsCurrent(w, d, id) ensures id !in w'.nodes && id !in w'.entities {
      UnacceptRemovesExactly(p, w, d, id);
    }
    assert IsCurrent(w, d, d);
  }

  // ----- runs that need the conditions -----

  // A device with one point, and the same device after its point turned from analog to binary.
  const ANALOG: seq<DiscoveredPoint> := [DiscoveredPoint("p", "", Analog, false, "")]
  const BINARY: seq<DiscoveredPoint> := [DiscoveredPoint("p", "", Binary, false, "")]

  // Found, accepted, scanned again, ignored, and accepted again.
  const RETRIED: seq<Command> :=
    [Find("d", "", "", ANALOG), Accept("d", 0), Find("d", "", "", BINARY), Ignore("d"), Accept("d", 0)]

  lemma RetriedFirst(p: Policy)
    requires p.Valid()
    ensures GoodCommands(RETRIED) && GoodId("d")
    ensures var w := After(p, RETRIED, 1);
            && ValidWorld(w) && IsPending(w, "d") && Unknown(w, "d") && w.PointsOf("d") == ANALOG && w.nodes == map[]
  {
    assert GoodId("d");
    var point := ANALOG[0];
    assert After(p, RETRIED, 0) == EMPTY;
    assert KeepFirst([], ANALOG, 0) == [] && UpsertFirst([], ANALOG, 0) == [];
    assert UpsertPoint([], point) == [point];
    assert UpsertFirst([], ANALOG, 1) == ANALOG;
  }

  lemma RetriedSecond(p: Policy)
    requires p.Valid()
    ensures var w, group := After(p, RETRIED, 2), GroupNodeId(Fingerprint(ANALOG));
            && IsAccepted(w, "d") && w.PointsOf("d") == ANALOG
            && w.nodes.Keys == {"d", group, PointId("d", "p")}
            && w.nodes["d"].parent == Some(group)
  {
    hide After, AcceptDevice, Fingerprint, GroupNodeId, PointId, Unknown, ValidWorld;
    var before := After(p, RETRIED, 1);
    RetriedFirst(p);
    AcceptBuildsHierarchy(p, before, "d", 0);
    AcceptedState(p, before, "d", 0);
    OnlyPoint("d", ANALOG);
    assert After(p, RETRIED, 2) == AcceptDevice(p, before, "d", 0).0 by { Step(p, RETRIED, 2); }
  }

  lemma OnlyPoint(d: string, pts: seq<DiscoveredPoint>)
    requires |pts| == 1
    ensures PointIds(d, pts, |pts|) == {PointId(d, pts[0].id)}
  {
    assert PointIds(d, pts, 0) == {};
  }

  lemma RetriedThird(p: Policy)
    requires p.Valid()
    ensures var w, group := After(p, RETRIED, 3), GroupNodeId(Fingerprint(ANALOG));
            && IsAccepted(w, "d") && HasPoints(w, "d") && w.nodes == After(p, RETRIED, 2).nodes
            && w.GroupOf("d") == GroupNodeId(Fingerprint(BINARY)) != group
  {
    hide After, Fingerprint, GroupNodeId, Upserted;
    var before := After(p, RETRIED, 2);
    RetriedSecond(p);
    Step(p, RETRIED, 3);
    ScanDecidesGroup(before, "d", "", "", BINARY);
    AnalogAndBinaryDiffer(ANALOG[0], BINARY[0]);
    assert ANALOG == [ANALOG[0]] && BINARY == [BINARY[0]];
    UpsertedRows(ANALOG, BINARY);
  }

  lemma RetriedIsCareful(p: Policy)
    requires p.Valid()
    ensures Careful(p, RETRIED, 3)
  {
    hide After, IsAccepted;
  }

  // Scanning an accepted device again can give regrouping work, in a run that ignores no device.
  lemma RescanNeedsRegrouping(p: Policy)
    requires p.Valid()
    ensures Careful(p, RETRIED, 3) && Regroup(p, After(p, RETRIED, 3)).1 > 0
  {
    hide After, Careful, Sound, Regroup, Fingerprint, GroupNodeId, GoodCommands, EmptyGroups;
    var w := After(p, RETRIED, 3);
    RetriedFirst(p);
    RetriedSecond(p);
    RetriedThird(p);
    RetriedIsCareful(p);
    RunIsSound(p, RETRIED, 3);
    RegroupIdlesExactly(p, w);
    assert Processed(w, "d") && !Grouped(w, w.nodes, "d");
  }

  // Ignoring an accepted device leaves its equip node behind; when the device is accepted again with
  // other kinds, the new group stays empty.
  lemma IgnoringMayLeaveEmptyGroup(p: Policy)
    requires p.Valid()
    ensures EmptyGroups(After(p, RETRIED, 4).nodes) == {} && EmptyGroups(After(p, RETRIED, 5).nodes) != {}
  {
    hide After, Careful, Sound, AcceptDevice, Fingerprint, GroupNodeId, HasGroupPrefix, PointId, GoodCommands, EmptyGroups;
    var w, before := After(p, RETRIED, 4), After(p, RETRIED, 3);
    RetriedFirst(p);
    RetriedSecond(p);
    RetriedThird(p);
    RetriedIsCareful(p);
    Step(p, RETRIED, 4);
    Step(p, RETRIED, 5);
    CarefulRunIsTidy(p, RETRIED, 3);
    RunIsSound(p, RETRIED, 4);
    SoundParts(w);
    assert w.nodes == before.nodes && w.GroupOf("d") == before.GroupOf("d");
    GroupIdHasPrefix(Fingerprint(BINARY));
    PointIdIsNoGroup("d", "p");
    AcceptLeavesNoEmptyGroupExactly(p, w, "d", 0);
  }
}
