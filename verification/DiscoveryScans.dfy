/** Finding devices again: the point rows that a scan leaves, and what that does to a device that is
    accepted already. */
module DiscoveryScans {
  import opened Options
  import opened Grouping
  import opened NodeStores
  import opened DiscoveryService
  import opened DiscoveryLifecycle
  import opened Regrouping

  // ----- the point rows after a scan -----

  lemma {:induction false} KeptFrom(rows: seq<DiscoveredPoint>, pts: seq<DiscoveredPoint>, n: nat, r: DiscoveredPoint)
    requires n <= |rows|
    ensures r in KeepFirst(rows, pts, n) <==> HasRow(pts, r.id) && exists i :: 0 <= i < n && rows[i] == r
  {
    if n > 0 {
      hide HasRow;
      KeptFrom(rows, pts, n - 1, r);
      var before, last := KeepFirst(rows, pts, n - 1), rows[n - 1];
      assert r in before + [last] <==> r in before || r == last;
    }
  }

  lemma DistinctAppend(rows: seq<DiscoveredPoint>, pt: DiscoveredPoint)
    requires DistinctPointIds(rows) && !HasRow(rows, pt.id)
    ensures DistinctPointIds(rows + [pt])
  {
    forall i | 0 <= i < |rows| ensures rows[i].id != pt.id {
      assert rows[i] in rows;
    }
  }

  lemma {:induction false} KeptAreDistinct(rows: seq<DiscoveredPoint>, pts: seq<DiscoveredPoint>, n: nat)
    requires n <= |rows| && DistinctPointIds(rows)
    ensures DistinctPointIds(KeepFirst(rows, pts, n))
  {
    if n > 0 {
      hide HasRow;
      var before, last := KeepFirst(rows, pts, n - 1), rows[n - 1];
      KeptAreDistinct(rows, pts, n - 1);
      if HasRow(pts, last.id) {
        forall r <- before ensures r.id != last.id {
          KeptFrom(rows, pts, n - 1, r);
        }
        assert !HasRow(before, last.id) by { NoRow(before, last.id); }
        DistinctAppend(before, last);
      }
    }
  }

  lemma NoRow(rows: seq<DiscoveredPoint>, id: string)
    requires forall r <- rows :: r.id != id
    ensures !HasRow(rows, id)
  {
  }

  // Some row is the point, but for the display name.
  ghost predicate HoldsUpToName(rows: seq<DiscoveredPoint>, pt: DiscoveredPoint) {
    exists r :: r in rows && r == pt.(dis := r.dis)
  }

  // One upsert keeps the ids apart and the other rows as they are, and the point has a row then.
  lemma UpsertPointIs(rows: seq<DiscoveredPoint>, pt: DiscoveredPoint)
    requires DistinctPointIds(rows)
    ensures var after := UpsertPoint(rows, pt);
            && DistinctPointIds(after)
            && (forall r: DiscoveredPoint | r.id != pt.id :: r in after <==> r in rows)
            && HoldsUpToName(after, pt)
  {
    var after := UpsertPoint(rows, pt);
    if HasRow(rows, pt.id) {
      var j :| 0 <= j < |rows| && rows[j].id == pt.id;
      assert after[j] in after;
      forall r: DiscoveredPoint | r.id != pt.id ensures r in after <==> r in rows {
        if i :| 0 <= i < |rows| && rows[i] == r { assert after[i] == r; }
        if i :| 0 <= i < |after| && after[i] == r { assert rows[i] == r; }
      }
    } else {
      DistinctAppend(rows, pt);
      assert after[|rows|] == pt;
    }
  }

  lemma {:induction false} UpsertKnows(rows: seq<DiscoveredPoint>, pts: seq<DiscoveredPoint>, n: nat, r: DiscoveredPoint)
    requires n <= |pts| && DistinctPointIds(rows)
    ensures DistinctPointIds(UpsertFirst(rows, pts, n))
    ensures r in UpsertFirst(rows, pts, n) ==> r in rows || exists i :: 0 <= i < n && pts[i].id == r.id
    ensures r in rows && (forall i | 0 <= i < n :: pts[i].id != r.id) ==> r in UpsertFirst(rows, pts, n)
  {
    if n > 0 {
      hide UpsertPoint, DistinctPointIds;
      UpsertKnows(rows, pts, n - 1, r);
      UpsertPointIs(UpsertFirst(rows, pts, n - 1), pts[n - 1]);
    }
  }

  // A point that no later one replaces has its row, up to the display name.
  lemma {:induction false} UpsertHolds(rows: seq<DiscoveredPoint>, pts: seq<DiscoveredPoint>, n: nat, i: nat) returns (r: DiscoveredPoint)
    requires i < n <= |pts| && DistinctPointIds(rows) && forall j | i < j < n :: pts[j].id != pts[i].id
    ensures r in UpsertFirst(rows, pts, n) && r == pts[i].(dis := r.dis)
  {
    hide UpsertPoint, DistinctPointIds;
    var before := UpsertFirst(rows, pts, n - 1);
    UpsertKnows(rows, pts, n - 1, pts[i]);
    UpsertPointIs(before, pts[n - 1]);
    if i == n - 1 {
      r :| r in UpsertFirst(rows, pts, n) && r == pts[i].(dis := r.dis);
    } else {
      r := UpsertHolds(rows, pts, n - 1, i);
    }
  }

  lemma UpsertedIds(rows: seq<DiscoveredPoint>, pts: seq<DiscoveredPoint>)
    requires DistinctPointIds(rows) && pts != []
    ensures DistinctPointIds(Upserted(rows, pts)) && forall r <- Upserted(rows, pts) :: HasRow(pts, r.id)
  {
    hide UpsertFirst, KeepFirst, DistinctPointIds;
    var kept, after := KeepFirst(rows, pts, |rows|), Upserted(rows, pts);
    KeptAreDistinct(rows, pts, |rows|);
    UpsertKnows(kept, pts, |pts|, pts[0]);
    forall r <- after ensures HasRow(pts, r.id) {
      KeptFrom(rows, pts, |rows|, r);
      UpsertKnows(kept, pts, |pts|, r);
      if i :| 0 <= i < |pts| && pts[i].id == r.id { assert pts[i] in pts; }
    }
  }

  lemma UpsertedHolds(rows: seq<DiscoveredPoint>, pts: seq<DiscoveredPoint>, i: nat) returns (r: DiscoveredPoint)
    requires DistinctPointIds(rows) && i < |pts| && forall j | i < j < |pts| :: pts[j].id != pts[i].id
    ensures r in Upserted(rows, pts) && r == pts[i].(dis := r.dis)
  {
    hide UpsertFirst, KeepFirst, DistinctPointIds;
    KeptAreDistinct(rows, pts, |rows|);
    r := UpsertHolds(KeepFirst(rows, pts, |rows|), pts, |pts|, i);
  }

  // After a scan that read points, the rows are exactly those of the scanned points, each once, with
  // the kind, access and binding that was scanned last.
  lemma UpsertedRows(rows: seq<DiscoveredPoint>, pts: seq<DiscoveredPoint>)
    requires DistinctPointIds(rows) && pts != []
    ensures var after := Upserted(rows, pts);
            && DistinctPointIds(after)
            && (forall r <- after :: HasRow(pts, r.id))
            && forall i | 0 <= i < |pts| && (forall j | i < j < |pts| :: pts[j].id != pts[i].id) :: HoldsUpToName(after, pts[i])
  {
    hide Upserted, DistinctPointIds, HasRow;
    UpsertedIds(rows, pts);
    var after := Upserted(rows, pts);
    forall i | 0 <= i < |pts| && (forall j | i < j < |pts| :: pts[j].id != pts[i].id)
      ensures HoldsUpToName(after, pts[i])
    {
      var r := UpsertedHolds(rows, pts, i);
    }
  }

  lemma UpsertedAreDistinct(rows: seq<DiscoveredPoint>, pts: seq<DiscoveredPoint>)
    requires DistinctPointIds(rows)
    ensures DistinctPointIds(Upserted(rows, pts))
  {
    hide UpsertFirst, KeepFirst, DistinctPointIds;
    if pts != [] {
      UpsertedRows(rows, pts);
    }
  }

  lemma {:induction false} UpsertKeepsName(rows: seq<DiscoveredPoint>, pts: seq<DiscoveredPoint>, n: nat, row: DiscoveredPoint)
    returns (r: DiscoveredPoint)
    requires n <= |pts| && row in rows
    ensures r in UpsertFirst(rows, pts, n) && r.id == row.id && r.dis == row.dis
  {
    r := row;
    if n > 0 {
      var before, pt := UpsertFirst(rows, pts, n - 1), pts[n - 1];
      r := UpsertKeepsName(rows, pts, n - 1, row);
      var j :| 0 <= j < |before| && before[j] == r;
      var after := UpsertPoint(before, pt);
      assert HasRow(before, pt.id) ==> after[j] in after;
      if r.id == pt.id {
        r := after[j];
      } else {
        assert after[j] == r;
      }
    }
  }

  // A point that was known keeps its display name, which may have been edited.
  lemma ScanKeepsName(rows: seq<DiscoveredPoint>, pts: seq<DiscoveredPoint>, row: DiscoveredPoint)
    requires row in rows && (pts == [] || HasRow(pts, row.id))
    ensures exists r :: r in Upserted(rows, pts) && r.id == row.id && r.dis == row.dis
  {
    hide UpsertFirst, KeepFirst, HasRow;
    if pts != [] {
      KeptFrom(rows, pts, |rows|, row);
      var r := UpsertKeepsName(KeepFirst(rows, pts, |rows|), pts, |pts|, row);
    }
  }

  // ----- the group after a scan -----

  lemma KindsWithout(b: seq<DiscoveredPoint>, j: nat)
    requires j < |b|
    ensures multiset(KindsOf(b)) == multiset(KindsOf(b[..j] + b[j + 1..])) + multiset{b[j].kind}
  {
    var rest := b[..j] + b[j + 1..];
    assert KindsOf(b) == KindsOf(rest)[..j] + [b[j].kind] + KindsOf(rest)[j..];
    assert KindsOf(rest) == KindsOf(rest)[..j] + KindsOf(rest)[j..];
  }

  // Each point of the first list has one of its id and kind in the second, which has no other ids.
  ghost predicate Matches(a: seq<DiscoveredPoint>, b: seq<DiscoveredPoint>) {
    && (forall x <- a :: exists y :: y in b && y.id == x.id && y.kind == x.kind)
    && (forall y <- b :: HasRow(a, y.id))
  }

  lemma MatchesWithout(a: seq<DiscoveredPoint>, b: seq<DiscoveredPoint>, n: nat, j: nat)
    requires DistinctPointIds(a) && DistinctPointIds(b) && Matches(a, b)
    requires |a| == n + 1 && j < |b| && b[j].id == a[n].id
    ensures Matches(a[..n], b[..j] + b[j + 1..])
  {
    var x, front, rest := a[n], a[..n], b[..j] + b[j + 1..];
    forall x' <- front ensures exists y :: y in rest && y.id == x'.id && y.kind == x'.kind {
      assert x' in a;
      var y :| y in b && y.id == x'.id && y.kind == x'.kind;
      assert y in rest;
    }
    forall y <- rest ensures HasRow(front, y.id) {
      assert y in b && y.id != x.id;
      var x' :| x' in a && x'.id == y.id;
      assert x' in front;
    }
  }

  lemma DistinctWithout(b: seq<DiscoveredPoint>, j: nat)
    requires DistinctPointIds(b) && j < |b|
    ensures DistinctPointIds(b[..j] + b[j + 1..])
  {
  }

  // Lists without repeated ids that give the same ids the same kinds have the same bag of kinds.
  lemma {:induction false} SameKinds(a: seq<DiscoveredPoint>, b: seq<DiscoveredPoint>)
    requires DistinctPointIds(a) && DistinctPointIds(b) && Matches(a, b)
    ensures multiset(KindsOf(a)) == multiset(KindsOf(b))
  {
    if a == [] {
      NothingMatchesNothingElse(b);
    } else {
      var n := |a| - 1;
      assert a[n] in a;
      var j :| 0 <= j < |b| && b[j].id == a[n].id && b[j].kind == a[n].kind;
      var front, rest := a[..n] + a[n + 1..], b[..j] + b[j + 1..];
      DistinctWithout(a, n);
      DistinctWithout(b, j);
      MatchesWithout(a, b, n, j);
      assert a[..n] == front;
      hide KindsOf, DistinctPointIds, Matches;
      SameKinds(front, rest);
      KindsWithout(a, n);
      KindsWithout(b, j);
    }
  }

  lemma NothingMatchesNothingElse(b: seq<DiscoveredPoint>)
    ensures Matches([], b) ==> b == []
  {
    if b != [] {
      assert b[0] in b && !HasRow([], b[0].id);
    }
  }

  // After a scan that read points, the group of a device is that of the scanned kinds, whatever rows
  // it had before.
  lemma ScanDecidesGroup(w: World, d: string, dis: string, protocol: string, pts: seq<DiscoveredPoint>)
    requires pts != [] && DistinctPointIds(pts) && DistinctPointIds(w.PointsOf(d))
    ensures Found(w, d, dis, protocol, pts).GroupOf(d) == GroupNodeId(Fingerprint(pts))
  {
    hide Upserted, DistinctPointIds, Fingerprint, GroupNodeId;
    var rows := Upserted(w.PointsOf(d), pts);
    UpsertedRows(w.PointsOf(d), pts);
    forall x <- pts ensures exists y :: y in rows && y.id == x.id && y.kind == x.kind {
      var i :| 0 <= i < |pts| && pts[i] == x;
      assert forall j | i < j < |pts| :: pts[j].id != pts[i].id by { Distinctness(pts, i); }
    }
    SameKinds(pts, rows);
    FingerprintOfKinds(pts, rows);
  }

  lemma Distinctness(pts: seq<DiscoveredPoint>, i: nat)
    requires DistinctPointIds(pts) && i < |pts|
    ensures forall j | i < j < |pts| :: pts[j].id != pts[i].id
  {
  }

  // A scan of a grouped device leaves it in its group exactly when the scanned kinds still have that
  // group. The state of the device does not matter.
  lemma ScanKeepsGroupedExactly(w: World, d: string, dis: string, protocol: string, pts: seq<DiscoveredPoint>)
    requires pts != [] && DistinctPointIds(pts) && DistinctPointIds(w.PointsOf(d))
    requires NodesValid(w.nodes) && Grouped(w, w.nodes, d)
    ensures var found := Found(w, d, dis, protocol, pts);
            Grouped(found, found.nodes, d) <==> GroupNodeId(Fingerprint(pts)) == w.GroupOf(d)
  {
    hide Upserted, DistinctPointIds, Fingerprint, GroupNodeId;
    ScanDecidesGroup(w, d, dis, protocol, pts);
    assert Found(w, d, dis, protocol, pts).nodes == w.nodes;
  }

  // ----- what un-accepting leaves behind -----

  // The id is the device's, or that of one of its points.
  predicate BelongsTo(id: string, d: string) {
    id == d || PointId(d, "") <= id
  }

  // Does either store have the row?
  predicate HasId(w: World, id: string) {
    id in w.nodes || id in w.entities
  }

  // The id is the device's, or that of a point the device has now.
  predicate IsCurrent(w: World, d: string, id: string) {
    id == d || id in PointIds(d, w.PointsOf(d), |w.PointsOf(d)|)
  }

  lemma BelongsToNoGroup(id: string, d: string)
    requires BelongsTo(id, d) && !HasGroupPrefix(d)
    ensures !HasGroupPrefix(id)
  {
    if id != d {
      PointIdIsNoGroup(d, id[|d| + 1..]);
      assert id == PointId(d, id[|d| + 1..]);
    }
  }

  lemma CurrentBelongs(w: World, d: string, id: string)
    requires IsCurrent(w, d, id)
    ensures BelongsTo(id, d)
  {
    var pts := w.PointsOf(d);
    if id != d {
      var i := PointIdFrom(d, pts, |pts|, id);
    }
  }

  lemma {:induction false} DeletedNodeKeys(ns: Nodes, d: string, pts: seq<DiscoveredPoint>, n: nat)
    requires n <= |pts|
    ensures DeletePointNodes(ns, d, pts, n).Keys == ns.Keys - PointIds(d, pts, n)
  {
    if n > 0 {
      hide PointId;
      DeletedNodeKeys(ns, d, pts, n - 1);
    }
  }

  lemma {:induction false} DeletedEntityKeys(es: Entities, d: string, pts: seq<DiscoveredPoint>, n: nat)
    requires n <= |pts|
    ensures DeletePointEntities(es, d, pts, n).Keys == es.Keys - PointIds(d, pts, n)
  {
    if n > 0 {
      hide PointId, Unmention;
      DeletedEntityKeys(es, d, pts, n - 1);
    }
  }

  lemma SweepKeepsOthers(ns: Nodes, order: seq<string>, id: string)
    requires !HasGroupPrefix(id)
    ensures id in Sweep(ns, order) <==> id in ns
  {
    var gone := SweepRemoves(ns, order, |order|);
  }

  // Un-accepting removes the rows of the device and of the points it has now, and, groups aside, no
  // other row.
  lemma UnacceptRemovesExactly(p: Policy, w: World, d: string, id: string)
    requires IsAccepted(w, d) && !HasGroupPrefix(id)
    ensures var w' := UnacceptDevice(p, w, d).0;
            && (id in w'.nodes <==> id in w.nodes && !IsCurrent(w, d, id))
            && (id in w'.entities <==> id in w.entities && !IsCurrent(w, d, id))
  {
    hide HasGroupPrefix, PointIds, DeletePointNodes, DeletePointEntities, Sweep;
    var pts := w.PointsOf(d);
    DeletedNodeKeys(w.nodes, d, pts, |pts|);
    DeletedEntityKeys(w.entities, d, pts, |pts|);
    var ns := DeleteNode(DeletePointNodes(w.nodes, d, pts, |pts|), d);
    SweepKeepsOthers(ns, p.spaces(ns), id);
  }

  // Un-accepting leaves no row that belongs to the device exactly when every such row was that of the
  // device or of a point it has now. Live values are always cleared.
  lemma UnacceptLeavesNothingExactly(p: Policy, w: World, d: string)
    requires IsAccepted(w, d) && !HasGroupPrefix(d)
    ensures var w' := UnacceptDevice(p, w, d).0;
            && ((forall id | BelongsTo(id, d) :: !HasId(w', id)) <==>
                forall id | BelongsTo(id, d) && HasId(w, id) :: IsCurrent(w, d, id))
            && forall k <- w'.live :: k.device != d
  {
    hide UnacceptDevice, BelongsTo, IsCurrent, HasGroupPrefix;
    var w' := UnacceptDevice(p, w, d).0;
    forall id | BelongsTo(id, d) ensures HasId(w', id) <==> HasId(w, id) && !IsCurrent(w, d, id) {
      BelongsToNoGroup(id, d);
      UnacceptRemovesExactly(p, w, d, id);
    }
    assert w'.live == RemoveDevice(w.live, d) by { UnacceptedLive(p, w, d); }
  }

  lemma UnacceptedLive(p: Policy, w: World, d: string)
    requires IsAccepted(w, d)
    ensures UnacceptDevice(p, w, d).0.live == RemoveDevice(w.live, d)
  {
  }

  // The reference or parent with what it names, unless that is deleted.
  ghost function Kept(target: Option<string>, gone: set<string>): Option<string> {
    if target.Some? && target.value in gone then None else target
  }

  lemma DeleteNodeIs(ns: Nodes, gone: string, id: string)
    requires id in ns && id != gone
    ensures Lookup(DeleteNode(ns, gone), id) == Some(ns[id].(parent := Kept(ns[id].parent, {gone} * ns.Keys)))
  {
  }

  lemma {:induction false} DeletedNodeRows(ns: Nodes, d: string, pts: seq<DiscoveredPoint>, n: nat, id: string)
    requires n <= |pts| && id in ns && id !in PointIds(d, pts, n)
    ensures Lookup(DeletePointNodes(ns, d, pts, n), id)
         == Some(ns[id].(parent := Kept(ns[id].parent, PointIds(d, pts, n) * ns.Keys)))
  {
    if n > 0 {
      hide PointId, DeleteNode;
      DeletedNodeRows(ns, d, pts, n - 1, id);
      DeletedNodeKeys(ns, d, pts, n - 1);
      DeleteNodeIs(DeletePointNodes(ns, d, pts, n - 1), PointId(d, pts[n - 1].id), id);
    }
  }

  // The references to what stays.
  ghost function KeptRefs(refs: map<string, string>, gone: set<string>): map<string, string> {
    map tag | tag in refs && refs[tag] !in gone :: refs[tag]
  }

  lemma KeptRefsTwice(refs: map<string, string>, a: set<string>, b: set<string>)
    ensures KeptRefs(KeptRefs(refs, a), b) == KeptRefs(refs, a + b)
    ensures KeptRefs(refs, {}) == refs
  {
  }

  lemma DeleteEntityIs(es: Entities, gone: string, id: string)
    requires id in es && id != gone
    ensures var e, ids := es[id], {gone} * es.Keys;
            Lookup(DeleteEntity(es, gone), id) == Some(e.(parent := Kept(e.parent, ids), refs := KeptRefs(e.refs, ids)))
  {
    var e, ids := es[id], {gone} * es.Keys;
    if gone in es {
      assert ids == {gone};
      assert (map tag | tag in e.refs && e.refs[tag] != gone :: e.refs[tag]) == KeptRefs(e.refs, {gone});
    } else {
      assert ids == {};
      KeptRefsTwice(e.refs, {}, {});
    }
  }

  lemma {:induction false} DeletedEntityRows(es: Entities, d: string, pts: seq<DiscoveredPoint>, n: nat, id: string)
    requires n <= |pts| && id in es && id !in PointIds(d, pts, n)
    ensures var gone, e := PointIds(d, pts, n) * es.Keys, es[id];
            Lookup(DeletePointEntities(es, d, pts, n), id)
              == Some(e.(parent := Kept(e.parent, gone), refs := KeptRefs(e.refs, gone)))
  {
    var e := es[id];
    if n == 0 {
      KeptRefsTwice(e.refs, {}, {});
      assert PointIds(d, pts, 0) * es.Keys == {};
    } else {
      hide PointId, DeleteEntity, KeptRefs;
      var before, last := DeletePointEntities(es, d, pts, n - 1), PointId(d, pts[n - 1].id);
      var gone, more := PointIds(d, pts, n - 1) * es.Keys, {last} * before.Keys;
      DeletedEntityRows(es, d, pts, n - 1, id);
      DeletedEntityKeys(es, d, pts, n - 1);
      DeleteEntityIs(before, last, id);
      assert gone + more == PointIds(d, pts, n) * es.Keys;
      KeptRefsTwice(e.refs, gone, more);
    }
  }

  // The ids of a device and of the points it has now.
  ghost function CurrentIds(w: World, d: string): set<string> {
    {d} + PointIds(d, w.PointsOf(d), |w.PointsOf(d)|)
  }

  // A node that un-accepting leaves is as it was, but that it loses a parent that is deleted.
  lemma UnacceptKeepsOtherNodes(p: Policy, w: World, d: string, id: string)
    requires IsAccepted(w, d) && id in UnacceptDevice(p, w, d).0.nodes
    ensures id in w.nodes
    ensures var before, after := w.nodes[id], UnacceptDevice(p, w, d).0.nodes[id];
            after == Node(before.nodeType, before.dis, Kept(before.parent, CurrentIds(w, d) * w.nodes.Keys),
                          before.properties, before.writable, before.binding)
  {
    hide PointIds, DeletePointNodes, DeletePointEntities, DeleteNode, Sweep, HasGroupPrefix;
    var pts := w.PointsOf(d);
    var deleted := DeletePointNodes(w.nodes, d, pts, |pts|);
    DeletedNodeKeys(w.nodes, d, pts, |pts|);
    SweepKeepsRows(DeleteNode(deleted, d), p.spaces(DeleteNode(deleted, d)), id);
    DeleteNodeKeys(deleted, d);
    DeletedNodeRows(w.nodes, d, pts, |pts|, id);
    DeleteNodeIs(deleted, d, id);
    DeviceIsNoPoint(d, pts);
  }

  lemma DeleteNodeKeys(ns: Nodes, id: string)
    ensures DeleteNode(ns, id).Keys == ns.Keys - {id}
  {
  }

  lemma SweepKeepsRows(ns: Nodes, order: seq<string>, id: string)
    ensures id in Sweep(ns, order) ==> id in ns && Sweep(ns, order)[id] == ns[id]
  {
    var gone := SweepRemoves(ns, order, |order|);
  }

  lemma UnacceptedEntities(p: Policy, w: World, d: string)
    requires IsAccepted(w, d)
    ensures UnacceptDevice(p, w, d).0.entities
         == DeleteEntity(DeletePointEntities(w.entities, d, w.PointsOf(d), |w.PointsOf(d)|), d)
  {
    hide DeletePointEntities, DeleteEntity, DeletePointNodes, Sweep;
  }

  lemma DeleteEntityKeys(es: Entities, id: string)
    ensures DeleteEntity(es, id).Keys == es.Keys - {id}
  {
  }

  // An entity that un-accepting leaves loses a deleted parent and the references to what is deleted, and
  // nothing else.
  lemma UnacceptKeepsOtherEntities(p: Policy, w: World, d: string, id: string)
    requires IsAccepted(w, d) && id in UnacceptDevice(p, w, d).0.entities
    ensures id in w.entities
    ensures var before, after := w.entities[id], UnacceptDevice(p, w, d).0.entities[id];
            var gone := CurrentIds(w, d) * w.entities.Keys;
            after == Entity(before.entityType, before.dis, Kept(before.parent, gone), before.tags,
                            map tag | tag in before.refs && before.refs[tag] !in gone :: before.refs[tag])
  {
    hide PointIds, DeletePointEntities, DeleteEntity, UnacceptDevice;
    var pts := w.PointsOf(d);
    var ids, deleted := PointIds(d, pts, |pts|), DeletePointEntities(w.entities, d, pts, |pts|);
    UnacceptedEntities(p, w, d);
    DeleteEntityKeys(deleted, d);
    DeletedEntityKeys(w.entities, d, pts, |pts|);
    DeletedEntityRows(w.entities, d, pts, |pts|, id);
    DeleteEntityIs(deleted, d, id);
    DeviceIsNoPoint(d, pts);
    KeptRefsTwice(w.entities[id].refs, ids * w.entities.Keys, {d} * deleted.Keys);
    assert ids * w.entities.Keys + {d} * deleted.Keys == CurrentIds(w, d) * w.entities.Keys;
  }

  // ----- what accepting does to rows that are there -----

  lemma {:induction false} CreatePointsKeepsRows(ns: Nodes, d: string, pts: seq<DiscoveredPoint>, n: nat)
    requires n <= |pts|
    ensures var after := CreatePointNodes(ns, d, pts, n);
            && (forall k <- ns :: k in after && after[k] == ns[k])
            && (forall k <- after | k !in ns ::
                  k in PointIds(d, pts, n) && after[k].nodeType == Point && after[k].parent == Some(d))
  {
    if n > 0 {
      hide PointId;
      CreatePointsKeepsRows(ns, d, pts, n - 1);
    }
  }

  lemma {:induction false} CreatePointsKeepsEntityRows(
      p: Policy, es: Entities, d: string, dis: string, pts: seq<DiscoveredPoint>, n: nat, id: string)
    requires n <= |pts| && d in es && id in es
    ensures d in CreatePointEntities(p, es, d, dis, pts, n)
    ensures Lookup(CreatePointEntities(p, es, d, dis, pts, n), id)
         == Some(if id in PointIds(d, pts, n) then es[id].(refs := es[id].refs["equipRef" := d]) else es[id])
  {
    if n > 0 {
      hide PointId, NewPointEntity;
      CreatePointsKeepsEntityRows(p, es, d, dis, pts, n - 1, id);
      assert es[id].refs["equipRef" := d]["equipRef" := d] == es[id].refs["equipRef" := d];
    }
  }

  // Whatever the stores hold, accepting a device keeps every row that is there. The entity of a point
  // that was there already only gets its reference to the device.
  lemma AcceptKeepsOldRows(p: Policy, w: World, d: string, now: int, id: string)
    requires d in w.devices && w.devices[d].state != Accepted && !HasGroupPrefix(d)
    ensures var w' := AcceptDevice(p, w, d, now).0;
            && (id in w.nodes ==> Lookup(w'.nodes, id) == Some(w.nodes[id]))
            && (id in w.entities ==>
                  var e := w.entities[id];
                  Lookup(w'.entities, id)
                    == Some(if id in PointIds(d, w.PointsOf(d), |w.PointsOf(d)|)
                            then Entity(e.entityType, e.dis, e.parent, e.tags, e.refs["equipRef" := d])
                            else e))
  {
    hide AcceptDevice, PointIds;
    AcceptKeepsOldNodes(p, w, d, now, id);
    if id in w.entities {
      AcceptKeepsOldEntities(p, w, d, now, id);
    }
  }

  lemma AcceptKeepsOldNodes(p: Policy, w: World, d: string, now: int, id: string)
    requires d in w.devices && w.devices[d].state != Accepted && !HasGroupPrefix(d)
    ensures id in w.nodes ==> Lookup(AcceptDevice(p, w, d, now).0.nodes, id) == Some(w.nodes[id])
  {
    EquippedNodesAre(p, w, d);
    var pts := w.PointsOf(d);
    CreatePointsKeepsRows(EquippedNodes(p, w, d), d, pts, |pts|);
    hide Fingerprint, GroupNodeId, HasGroupPrefix, EquippedNodes, CreatePointNodes, CreatePointEntities, PointIds, RegisterPoints;
  }

  lemma AcceptKeepsOldEntities(p: Policy, w: World, d: string, now: int, id: string)
    requires d in w.devices && w.devices[d].state != Accepted && id in w.entities
    ensures Lookup(AcceptDevice(p, w, d, now).0.entities, id)
         == Some(if id in PointIds(d, w.PointsOf(d), |w.PointsOf(d)|)
                 then w.entities[id].(refs := w.entities[id].refs["equipRef" := d])
                 else w.entities[id])
  {
    hide EquippedNodes, CreatePointNodes, CreatePointEntities, PointIds, RegisterPoints;
    var pts, dis := w.PointsOf(d), w.devices[d].dis;
    var equipped := CreateEntity(w.entities, d, EquipEntity(p, dis));
    assert d in equipped && id in equipped && equipped[id] == w.entities[id];
    CreatePointsKeepsEntityRows(p, equipped, d, dis, pts, |pts|, id);
  }

  // ----- what scans and marks leave alone -----

  // A scan decides nothing: a device that is new waits for a decision, and one that is known keeps its
  // state, its protocol and its time of acceptance. Other devices and the other stores are as before.
  lemma ScanDecidesNothing(w: World, d: string, dis: string, protocol: string, pts: seq<DiscoveredPoint>, e: string)
    ensures var w' := Found(w, d, dis, protocol, pts);
            && w'.nodes == w.nodes && w'.entities == w.entities && w'.live == w.live && w'.events == w.events
            && d in w'.devices
            && (d !in w.devices ==> w'.devices[d] == Device(Discovered, dis, protocol, None))
            && (d in w.devices ==>
                  w'.devices[d] == Device(w.devices[d].state, dis, w.devices[d].protocol, w.devices[d].acceptedAt))
            && (e != d ==> Lookup(w'.devices, e) == Lookup(w.devices, e) && w'.PointsOf(e) == w.PointsOf(e))
            && (pts == [] ==> w'.points == w.points)
  {
    hide Upserted;
  }

  // Ignoring a device, and taking that back, leave everything but its state, accepted or not.
  lemma MarkChangesOnlyState(w: World, d: string, state: DeviceState, e: string)
    ensures var (w', r) := Marked(w, d, state);
            && (r == Ok <==> d in w.devices) && (r != Ok ==> r == NotFound && w' == w)
            && w' == w.(devices := w'.devices)
            && (d in w.devices ==>
                  Lookup(w'.devices, d) == Some(Device(state, w.devices[d].dis, w.devices[d].protocol, w.devices[d].acceptedAt)))
            && (e != d ==> Lookup(w'.devices, e) == Lookup(w.devices, e))
  {
  }

  // Clearing forgets exactly the devices that wait for a decision, with their points.
  lemma ClearForgetsExactly(w: World, d: string)
    ensures var w', waits := Cleared(w), d in w.devices && w.devices[d].state == Discovered;
            && w' == w.(devices := w'.devices, points := w'.points)
            && Lookup(w'.devices, d) == (if waits then None else Lookup(w.devices, d))
            && Lookup(w'.points, d) == (if waits then None else Lookup(w.points, d))
  {
  }

  lemma CurrentPointHasRow(w: World, d: string, point: string)
    requires IsCurrent(w, d, PointId(d, point))
    ensures HasRow(w.PointsOf(d), point)
  {
    var pts := w.PointsOf(d);
    assert |PointId(d, point)| > |d|;
    var i := PointIdFrom(d, pts, |pts|, PointId(d, point));
    PointIdInjective(d, pts[i].id, point);
    assert pts[i] in pts;
  }

  // Accept a device that no store knows, scan it again without one of its points, un-accept it: the
  // rows of that point stay behind in both stores.
  lemma DroppedPointStaysBehind(
      p: Policy, w: World, d: string, now: int, dis: string, protocol: string, pts: seq<DiscoveredPoint>, i: nat)
    requires ValidWorld(w) && d in w.devices && w.devices[d].state != Accepted && Unknown(w, d) && !HasGroupPrefix(d)
    requires i < |w.PointsOf(d)| && pts != [] && !HasRow(pts, w.PointsOf(d)[i].id)
    ensures var scanned := Found(AcceptDevice(p, w, d, now).0, d, dis, protocol, pts);
            var left, id := UnacceptDevice(p, scanned, d).0, PointId(d, w.PointsOf(d)[i].id);
            id in left.nodes && id in left.entities && !IsAccepted(left, d)
  {
    hide ValidWorld, Unknown, HasGroupPrefix, PointIds, PointId, Upserted, HasRow, PointNode, PointEntity, CreatePointNodes,
      CreatePointEntities, EquippedNodes, RegisterPoints, UnacceptDevice;
    var accepted, pt := AcceptDevice(p, w, d, now).0, w.PointsOf(d)[i];
    var scanned := Found(accepted, d, dis, protocol, pts);
    PointsAfterAccept(p, w, d, now, i);
    assert accepted.PointsOf(d) == w.PointsOf(d);
    assert DistinctPointIds(w.PointsOf(d)) by { PointsAreDistinct(w, d); }
    UpsertedRows(w.PointsOf(d), pts);
    assert !HasRow(scanned.PointsOf(d), pt.id) by { NoRowWithId(scanned.PointsOf(d), pts, pt.id); }
    if IsCurrent(scanned, d, PointId(d, pt.id)) {
      CurrentPointHasRow(scanned, d, pt.id);
    }
    PointIdIsNoGroup(d, pt.id);
    UnacceptRemovesExactly(p, scanned, d, PointId(d, pt.id));
    UnacceptedState(p, scanned, d);
  }

  lemma NoRowWithId(rows: seq<DiscoveredPoint>, pts: seq<DiscoveredPoint>, id: string)
    requires (forall r <- rows :: HasRow(pts, r.id)) && !HasRow(pts, id)
    ensures !HasRow(rows, id)
  {
  }

  lemma UnacceptedState(p: Policy, w: World, d: string)
    requires IsAccepted(w, d)
    ensures UnacceptDevice(p, w, d).0.devices == w.devices[d := w.devices[d].(state := Discovered)]
    ensures UnacceptDevice(p, w, d).0.points == w.points && UnacceptDevice(p, w, d).0.events == w.events
  {
  }
}
