/** Accepting two devices in either order. */
module AcceptOrder {
  import opened Options
  import opened LivePoints
  import opened Grouping
  import opened NodeStores
  import opened DiscoveryService
  import opened DiscoveryLifecycle

  // ----- rows that do not meet -----

  function Grown<V>(rows: map<string, V>, id: string, row: V): map<string, V> {
    if id in rows then rows else rows[id := row]
  }

  lemma GrownAside<V>(rows: map<string, V>, others: map<string, V>, id: string, row: V)
    requires id !in others
    ensures Grown(rows + others, id, row) == Grown(rows, id, row) + others
  {
  }

  lemma AddedAside<V>(rows: map<string, V>, a: map<string, V>, b: map<string, V>)
    requires a.Keys !! b.Keys
    ensures rows + a + b == rows + b + a
  {
  }

  // Two groups that are created when missing: the first to come decides on a shared one.
  lemma GrownTwice<V>(rows: map<string, V>, a: string, x: V, b: string, y: V)
    ensures Grown(Grown(rows, a, x), b, y) == Grown(Grown(rows, b, y), a, x) <==> a != b || a in rows || x == y
  {
    if a == b && a !in rows {
      assert Grown(Grown(rows, a, x), b, y)[a] == x;
      assert Grown(Grown(rows, b, y), a, x)[a] == y;
    } else if a != b {
      assert Grown(Grown(rows, a, x), b, y) == Grown(Grown(rows, b, y), a, x);
    }
  }

  lemma SameRest<V>(x: map<string, V>, y: map<string, V>, rest: map<string, V>)
    requires rest.Keys !! x.Keys + y.Keys
    ensures x + rest == y + rest <==> x == y
  {
    if x + rest == y + rest {
      assert x == (x + rest) - rest.Keys;
      assert y == (y + rest) - rest.Keys;
    }
  }

  lemma AddedTogether<V>(rows: map<string, V>, a: map<string, V>, b: map<string, V>)
    ensures rows + a + b == rows + (a + b)
  {
  }

  lemma OrderOfRows<V>(rows: map<string, V>, a: string, x: V, xs: map<string, V>, b: string, y: V, ys: map<string, V>)
    requires xs.Keys !! ys.Keys && (xs + ys).Keys !! rows.Keys + {a, b}
    ensures Grown(Grown(rows, a, x) + xs, b, y) + ys == Grown(Grown(rows, b, y) + ys, a, x) + xs
            <==> a != b || a in rows || x == y
  {
    var first, second := Grown(Grown(rows, a, x), b, y), Grown(Grown(rows, b, y), a, x);
    assert (first.Keys + second.Keys) !! (xs + ys).Keys;
    GrownTwice(rows, a, x, b, y);
    hide Grown;
    GrownAside(Grown(rows, a, x), xs, b, y);
    GrownAside(Grown(rows, b, y), ys, a, x);
    AddedAside(second, xs, ys);
    AddedTogether(first, xs, ys);
    AddedTogether(second, xs, ys);
    SameRest(first, second, xs + ys);
  }

  // ----- the rows of one device -----

  function DeviceNodes(w: World, d: string): Nodes
    requires d in w.devices
  {
    map[d := EquipNode(w.devices[d].dis, w.GroupOf(d))] + PointNodes(d, w.PointsOf(d), |w.PointsOf(d)|)
  }

  function DeviceEntities(p: Policy, w: World, d: string): Entities
    requires d in w.devices
  {
    map[d := EquipEntity(p, w.devices[d].dis)] + PointEntities(p, d, w.devices[d].dis, w.PointsOf(d), |w.PointsOf(d)|)
  }

  function GroupRow(p: Policy, w: World, d: string): Node
    requires d in w.devices
  {
    GroupNode(p, w.devices[d].dis, w.PointsOf(d))
  }

  ghost predicate Ready(w: World, d: string) {
    && d in w.devices && w.devices[d].state != Accepted
    && DistinctPointIds(w.PointsOf(d)) && Unknown(w, d)
    && '/' !in d && !HasGroupPrefix(d)
  }

  lemma RowThenRest<V>(rows: map<string, V>, id: string, row: V, rest: map<string, V>)
    ensures rows[id := row] + rest == rows + (map[id := row] + rest)
  {
  }

  lemma AcceptedTables(p: Policy, w: World, d: string, now: int)
    requires Ready(w, d)
    ensures var w' := AcceptDevice(p, w, d, now).0;
            && w'.nodes == Grown(w.nodes, w.GroupOf(d), GroupRow(p, w, d)) + DeviceNodes(w, d)
            && w'.entities == w.entities + DeviceEntities(p, w, d)
            && w'.live == RegisterPoints(w.live, d, w.PointsOf(d), |w.PointsOf(d)|)
  {
    hide DistinctPointIds, Unknown, HasGroupPrefix, EquippedNodes, WithGroup, PointNodes, PointEntities, EquipNode, EquipEntity, GroupNode,
      Fingerprint, GroupNodeId, RegisterPoints, PointIds, AcceptDevice;
    var pts, dis, group := w.PointsOf(d), w.devices[d].dis, w.GroupOf(d);
    assert d !in w.nodes by { UnknownNode(w, d); }
    AcceptedRowsOf(p, w, d, now);
    EquippedNodesAre(p, w, d);
    AcceptedLive(p, w, d, now);
    RowThenRest(Grown(w.nodes, group, GroupRow(p, w, d)), d, EquipNode(dis, group), PointNodes(d, pts, |pts|));
    RowThenRest(w.entities, d, EquipEntity(p, dis), PointEntities(p, d, dis, pts, |pts|));
  }

  lemma DeviceIds(p: Policy, w: World, d: string)
    requires d in w.devices
    ensures DeviceNodes(w, d).Keys == DeviceEntities(p, w, d).Keys == {d} + PointIds(d, w.PointsOf(d), |w.PointsOf(d)|)
  {
    hide PointIds, PointNodes, PointEntities, Fingerprint, GroupNodeId;
  }

  lemma UnknownNode(w: World, d: string)
    requires Unknown(w, d)
    ensures d !in w.nodes
  {
  }

  // ----- live values of different devices -----

  // What a device registers depends on the values of that device alone.
  lemma {:induction false} RegisteredLocally(
      a: map<PointKey, Entry>, b: map<PointKey, Entry>, d: string, pts: seq<DiscoveredPoint>, n: nat)
    requires n <= |pts| && forall key: PointKey | key.device == d :: Lookup(a, key) == Lookup(b, key)
    ensures forall key: PointKey | key.device == d ::
              Lookup(RegisterPoints(a, d, pts, n), key) == Lookup(RegisterPoints(b, d, pts, n), key)
  {
    if n > 0 {
      hide DefaultValue;
      RegisteredLocally(a, b, d, pts, n - 1);
      forall key: PointKey | key.device == d
        ensures Lookup(RegisterPoints(a, d, pts, n), key) == Lookup(RegisterPoints(b, d, pts, n), key)
      {
        assert Lookup(RegisterPoints(a, d, pts, n - 1), key) == Lookup(RegisterPoints(b, d, pts, n - 1), key);
        var last := PointKey(d, pts[n - 1].id);
        assert Lookup(RegisterPoints(a, d, pts, n - 1), last) == Lookup(RegisterPoints(b, d, pts, n - 1), last);
      }
    }
  }

  lemma {:induction false} RegisteredAside(live: map<PointKey, Entry>, d: string, pts: seq<DiscoveredPoint>, n: nat, key: PointKey)
    requires n <= |pts| && key.device != d
    ensures Lookup(RegisterPoints(live, d, pts, n), key) == Lookup(live, key)
  {
    if n > 0 {
      RegisteredAside(live, d, pts, n - 1, key);
    }
  }

  lemma RegisterOrder(live: map<PointKey, Entry>, d: string, pts: seq<DiscoveredPoint>, e: string, others: seq<DiscoveredPoint>)
    requires d != e
    ensures RegisterPoints(RegisterPoints(live, d, pts, |pts|), e, others, |others|)
         == RegisterPoints(RegisterPoints(live, e, others, |others|), d, pts, |pts|)
  {
    hide RegisterPoints, Lookup;
    var first, second := RegisterPoints(live, d, pts, |pts|), RegisterPoints(live, e, others, |others|);
    forall key: PointKey ensures key.device != d ==> Lookup(first, key) == Lookup(live, key)
                         ensures key.device != e ==> Lookup(second, key) == Lookup(live, key)
    {
      if key.device != d { RegisteredAside(live, d, pts, |pts|, key); }
      if key.device != e { RegisteredAside(live, e, others, |others|, key); }
    }
    RegisteredLocally(live, second, d, pts, |pts|);
    RegisteredLocally(live, first, e, others, |others|);
    var de, ed := RegisterPoints(first, e, others, |others|), RegisterPoints(second, d, pts, |pts|);
    forall key: PointKey ensures Lookup(de, key) == Lookup(ed, key) {
      if key.device != e { RegisteredAside(first, e, others, |others|, key); }
      if key.device != d { RegisteredAside(second, d, pts, |pts|, key); }
    }
    SameLookups(de, ed);
  }

  // ----- both devices -----

  lemma StaysReady(p: Policy, w: World, d: string, e: string, now: int)
    requires Ready(w, d) && Ready(w, e) && d != e
    ensures var w' := AcceptDevice(p, w, d, now).0;
            && Ready(w', e) && w'.devices[e] == w.devices[e] && w'.PointsOf(e) == w.PointsOf(e)
            && DeviceNodes(w', e) == DeviceNodes(w, e) && DeviceEntities(p, w', e) == DeviceEntities(p, w, e)
            && GroupRow(p, w', e) == GroupRow(p, w, e) && w'.GroupOf(e) == w.GroupOf(e)
  {
    hide AcceptDevice, DistinctPointIds, Unknown, HasGroupPrefix, PointNodes, PointEntities, Fingerprint, GroupNodeId;
    AcceptKeepsOthersUnknown(p, w, d, e, now);
    AcceptedState(p, w, d, now);
  }

  lemma RowsApart(p: Policy, w: World, d: string, e: string)
    requires Ready(w, d) && Ready(w, e) && d != e
    ensures DeviceNodes(w, d).Keys !! DeviceNodes(w, e).Keys
    ensures DeviceEntities(p, w, d).Keys !! DeviceEntities(p, w, e).Keys
    ensures DeviceNodes(w, d).Keys !! w.nodes.Keys + {w.GroupOf(d), w.GroupOf(e)}
  {
    hide DistinctPointIds, HasGroupPrefix, PointIds, DeviceNodes, DeviceEntities, Fingerprint, GroupNodeId;
    var pts, others := w.PointsOf(d), w.PointsOf(e);
    DeviceIds(p, w, d);
    DeviceIds(p, w, e);
    PointIdsDisjoint(d, pts, e, others);
    PointIdsDisjoint(e, others, d, pts);
    PointIdsAreNoGroups(d, pts);
    GroupIdHasPrefix(Fingerprint(pts));
    GroupIdHasPrefix(Fingerprint(others));
  }

  // The stores after both.
  lemma AcceptedBoth(p: Policy, w: World, d: string, e: string, now: int, later: int)
    requires Ready(w, d) && Ready(w, e) && d != e
    ensures var de := AcceptDevice(p, AcceptDevice(p, w, d, now).0, e, later).0;
            && de.nodes == Grown(Grown(w.nodes, w.GroupOf(d), GroupRow(p, w, d)) + DeviceNodes(w, d),
                                 w.GroupOf(e), GroupRow(p, w, e)) + DeviceNodes(w, e)
            && de.entities == w.entities + DeviceEntities(p, w, d) + DeviceEntities(p, w, e)
            && de.live == RegisterPoints(RegisterPoints(w.live, d, w.PointsOf(d), |w.PointsOf(d)|),
                                         e, w.PointsOf(e), |w.PointsOf(e)|)
  {
    hide AcceptDevice, Ready, Grown, DeviceNodes, DeviceEntities, GroupRow, RegisterPoints, Fingerprint, GroupNodeId;
    var first := AcceptDevice(p, w, d, now).0;
    ReadyDevices(w, d, e);
    AcceptedTables(p, w, d, now);
    StaysReady(p, w, d, e, now);
    ReadyDevices(first, e, e);
    AcceptedTables(p, first, e, later);
  }

  lemma AcceptedBothStates(p: Policy, w: World, d: string, e: string, now: int, later: int)
    requires Ready(w, d) && Ready(w, e) && d != e
    ensures var de := AcceptDevice(p, AcceptDevice(p, w, d, now).0, e, later).0;
            && de.points == w.points
            && de.devices == w.devices[d := w.devices[d].(state := Accepted, acceptedAt := Some(now))]
                                      [e := w.devices[e].(state := Accepted, acceptedAt := Some(later))]
            && de.events == w.events + [DeviceAccepted(d, w.devices[d].protocol, |w.PointsOf(d)|),
                                        DeviceAccepted(e, w.devices[e].protocol, |w.PointsOf(e)|)]
  {
    hide AcceptDevice, DistinctPointIds, Unknown, HasGroupPrefix;
    var first := AcceptDevice(p, w, d, now).0;
    AcceptedState(p, w, d, now);
    AcceptedState(p, first, e, later);
    assert first.PointsOf(e) == w.PointsOf(e);
  }

  // Two devices that no store knows can be accepted in either order: devices, points, entities and live
  // values come out the same, and the events differ in order. The node stores come out the same exactly
  // when the devices do not compete for naming a new group.
  lemma AcceptOrderMattersExactly(p: Policy, w: World, d: string, e: string, now: int, later: int)
    requires Ready(w, d) && Ready(w, e) && d != e
    ensures var de := AcceptDevice(p, AcceptDevice(p, w, d, now).0, e, later).0;
            var ed := AcceptDevice(p, AcceptDevice(p, w, e, later).0, d, now).0;
            && de == ed.(nodes := de.nodes, events := de.events)
            && (exists x, y :: de.events == w.events + [x, y] && ed.events == w.events + [y, x])
            && (de.nodes == ed.nodes <==>
                  w.GroupOf(d) != w.GroupOf(e) || w.GroupOf(d) in w.nodes || GroupRow(p, w, d) == GroupRow(p, w, e))
  {
    hide AcceptDevice, Ready, Grown, DeviceNodes, DeviceEntities, GroupRow, RegisterPoints, Fingerprint, GroupNodeId;
    ReadyDevices(w, d, e);
    AcceptedBoth(p, w, d, e, now, later);
    AcceptedBoth(p, w, e, d, later, now);
    AcceptedBothStates(p, w, d, e, now, later);
    AcceptedBothStates(p, w, e, d, later, now);
    RowsApart(p, w, d, e);
    RowsApart(p, w, e, d);
    RegisterOrder(w.live, d, w.PointsOf(d), e, w.PointsOf(e));
    AddedAside(w.entities, DeviceEntities(p, w, d), DeviceEntities(p, w, e));
    OrderOfRows(w.nodes, w.GroupOf(d), GroupRow(p, w, d), DeviceNodes(w, d), w.GroupOf(e), GroupRow(p, w, e), DeviceNodes(w, e));
  }

  lemma ReadyDevices(w: World, d: string, e: string)
    requires Ready(w, d) && Ready(w, e)
    ensures d in w.devices && e in w.devices && w.devices[d].state != Accepted && w.devices[e].state != Accepted
  {
  }
}
