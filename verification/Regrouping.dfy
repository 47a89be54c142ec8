/** Regrouping accepted devices below the groups of their point kinds, and cleaning up the groups
    that are left without children. */
module Regrouping {
  import opened Options
  import opened Grouping
  import opened NodeStores
  import opened DiscoveryService
  import opened DiscoveryLifecycle

  // ----- moving -----

  // The devices a regrouping processes.
  predicate Processed(w: World, d: string) {
    d in w.devices && w.devices[d].state == Accepted && HasPoints(w, d)
  }

  predicate Grouped(w: World, ns: Nodes, d: string) {
    d in ns && ns[d].parent == Some(w.GroupOf(d)) && w.GroupOf(d) in ns
  }

  // What moving devices may do to the node rows: new groups without a parent, and new parents for
  // processed devices.
  ghost predicate Moved(w: World, before: Nodes, ns: Nodes) {
    && (forall k <- before :: k in ns && ns[k].nodeType == before[k].nodeType && (!Processed(w, k) ==> ns[k] == before[k]))
    && (forall k <- ns | k !in before :: HasGroupPrefix(k) && ns[k].parent == None)
  }

  // A step that moves leaves the group there, and the device below it; nothing else is new.
  lemma MoveOneIs(p: Policy, w: World, ns: Nodes, d: string)
    requires d in w.devices && HasPoints(w, d) && !HasGroupPrefix(d)
    ensures var group := w.GroupOf(d);
            var grouped := if group in ns then ns else ns[group := GroupNode(p, w.devices[d].dis, w.PointsOf(d))];
            && group != d && HasGroupPrefix(group)
            && (Grouped(w, ns, d) ==> MoveOne(p, w, ns, d).0 == ns)
            && (d !in ns ==> MoveOne(p, w, ns, d).0 == grouped)
            && (d in ns && ns[d].parent != Some(group) ==>
                  MoveOne(p, w, ns, d).0 == grouped[d := ns[d].(parent := Some(group))])
  {
    hide Fingerprint, HasGroupPrefix, GroupNodeId;
    GroupIdHasPrefix(Fingerprint(w.PointsOf(d)));
  }

  lemma GroupRowIsValid(w: World, before: Nodes, ns: Nodes, group: string, row: Node)
    requires NodesValid(ns) && Moved(w, before, ns) && HasGroupPrefix(group) && group !in ns && row.parent == None
    ensures NodesValid(ns[group := row]) && Moved(w, before, ns[group := row])
    ensures forall e | Grouped(w, ns, e) :: Grouped(w, ns[group := row], e)
  {
    hide HasGroupPrefix, Processed, Fingerprint, GroupNodeId;
  }

  lemma ParentRowIsValid(w: World, before: Nodes, ns: Nodes, d: string)
    requires NodesValid(ns) && Moved(w, before, ns) && Processed(w, d) && !HasGroupPrefix(d) && d in ns && w.GroupOf(d) in ns
    ensures var after := ns[d := ns[d].(parent := Some(w.GroupOf(d)))];
            && NodesValid(after) && Moved(w, before, after) && Grouped(w, after, d)
            && forall e | Grouped(w, ns, e) :: Grouped(w, after, e)
  {
    hide HasGroupPrefix, Processed, Fingerprint, GroupNodeId;
  }

  lemma MovedStep(p: Policy, w: World, before: Nodes, ns: Nodes, d: string)
    requires d in w.devices && w.devices[d].state == Accepted && (Processed(w, d) ==> !HasGroupPrefix(d))
    requires NodesValid(ns) && Moved(w, before, ns)
    ensures var after := MoveOne(p, w, ns, d).0;
            && NodesValid(after) && Moved(w, before, after)
            && (d in ns && HasPoints(w, d) ==> Grouped(w, after, d))
            && (forall e | Grouped(w, ns, e) :: Grouped(w, after, e))
  {
    if HasPoints(w, d) {
      hide MoveOne, HasGroupPrefix, HasPoints, Fingerprint, GroupNodeId, NodesValid, Moved;
      MoveOneIs(p, w, ns, d);
      var group, row := w.GroupOf(d), GroupNode(p, w.devices[d].dis, w.PointsOf(d));
      var grouped := if group in ns then ns else ns[group := row];
      if d in ns && ns[d].parent == Some(group) {
        ParentExists(ns, d);
      } else {
        if group !in ns {
          GroupRowIsValid(w, before, ns, group, row);
        }
        if d in ns {
          ParentRowIsValid(w, before, grouped, d);
        }
      }
    }
  }

  lemma ParentExists(ns: Nodes, d: string)
    requires NodesValid(ns) && d in ns && ns[d].parent.Some?
    ensures ns[d].parent.value in ns
  {
  }

  lemma {:induction false} MoveFirstIsValid(p: Policy, w: World, ns: Nodes, ds: seq<string>, n: nat)
    requires n <= |ds| && (forall d <- ds :: d in w.devices && w.devices[d].state == Accepted)
    requires forall d | Processed(w, d) :: !HasGroupPrefix(d)
    requires NodesValid(ns)
    ensures NodesValid(MoveFirst(p, w, ns, ds, n).0) && Moved(w, ns, MoveFirst(p, w, ns, ds, n).0)
  {
    if n > 0 {
      hide MoveOne, Processed, HasGroupPrefix, NodesValid;
      MoveFirstIsValid(p, w, ns, ds, n - 1);
      assert ds[n - 1] in ds;
      MovedStep(p, w, ns, MoveFirst(p, w, ns, ds, n - 1).0, ds[n - 1]);
    }
  }

  lemma {:induction false} MoveFirstGroups(p: Policy, w: World, ns: Nodes, ds: seq<string>, n: nat, i: nat)
    requires n <= |ds| && (forall d <- ds :: d in w.devices && w.devices[d].state == Accepted)
    requires forall d | Processed(w, d) :: !HasGroupPrefix(d)
    requires NodesValid(ns) && i < n && ds[i] in ns && HasPoints(w, ds[i])
    ensures Grouped(w, MoveFirst(p, w, ns, ds, n).0, ds[i])
  {
    hide MoveOne, Grouped, Processed, HasGroupPrefix, HasPoints, NodesValid;
    var before := MoveFirst(p, w, ns, ds, n - 1).0;
    MoveFirstIsValid(p, w, ns, ds, n - 1);
    assert ds[n - 1] in ds;
    MovedStep(p, w, ns, before, ds[n - 1]);
    if i < n - 1 {
      MoveFirstGroups(p, w, ns, ds, n - 1, i);
    }
  }

  // The moves, before empty groups are cleaned up.
  function Moves(p: Policy, w: World): Nodes
    requires forall d <- p.accepted(w.devices) :: d in w.devices
  {
    var ds := p.accepted(w.devices);
    MoveFirst(p, w, w.nodes, ds, |ds|).0
  }

  lemma MovesAre(p: Policy, w: World)
    requires p.Valid() && NodesValid(w.nodes)
    requires forall d | Processed(w, d) :: !HasGroupPrefix(d)
    ensures var moved := Moves(p, w);
            && NodesValid(moved) && Moved(w, w.nodes, moved)
            && (forall d | Processed(w, d) && d in w.nodes :: Grouped(w, moved, d))
            && Regroup(p, w).0 == w.(nodes := Sweep(moved, p.spaces(moved)))
  {
    hide MoveFirst, Sweep, Grouped, HasPoints, HasGroupPrefix, NodesValid;
    var ds := p.accepted(w.devices);
    MoveFirstIsValid(p, w, w.nodes, ds, |ds|);
    forall d | Processed(w, d) && d in w.nodes ensures Grouped(w, Moves(p, w), d) {
      assert d in ds;
      var i :| 0 <= i < |ds| && ds[i] == d;
      MoveFirstGroups(p, w, w.nodes, ds, |ds|, i);
    }
  }

  // ----- the rows and the count, in full -----

  // Accepted, and with points.
  ghost predicate HasKinds(w: World, d: string) {
    d in w.devices && w.devices[d].state == Accepted && w.PointsOf(d) != []
  }

  // The rows after moving some devices: a processed device may have a new parent, which is its group, and
  // a new row is the group of a processed device, named after it, with its point set.
  ghost predicate RowsMoved(p: Policy, w: World, ns: Nodes) {
    && (forall k <- w.nodes ::
          && k in ns
          && (ns[k] == w.nodes[k] || (HasKinds(w, k) && ns[k] == w.nodes[k].(parent := Some(w.GroupOf(k))))))
    && (forall k <- ns | k !in w.nodes :: IsNewGroup(p, w, k, ns[k]))
  }

  ghost predicate IsNewGroup(p: Policy, w: World, k: string, row: Node) {
    exists d ::
      && HasKinds(w, d) && k == w.GroupOf(d)
      && row == Node(Space, p.groupName(w.devices[d].dis), None, map["pointSet" := p.pointSet(w.PointsOf(d))], false, None)
  }

  lemma GroupRowMoved(p: Policy, w: World, ns: Nodes, d: string)
    requires RowsMoved(p, w, ns) && HasKinds(w, d) && w.GroupOf(d) !in ns
    ensures RowsMoved(p, w, ns[w.GroupOf(d) := GroupNode(p, w.devices[d].dis, w.PointsOf(d))])
  {
    NewGroupIs(p, w, d);
    hide Fingerprint, GroupNodeId, IsNewGroup, GroupNode;
  }

  lemma ParentRowMoved(p: Policy, w: World, ns: Nodes, d: string)
    requires RowsMoved(p, w, ns) && HasKinds(w, d) && d in ns && d in w.nodes
    ensures RowsMoved(p, w, ns[d := ns[d].(parent := Some(w.GroupOf(d)))])
  {
    hide Fingerprint, GroupNodeId, IsNewGroup;
  }

  lemma PlacedStays(p: Policy, w: World, ns: Nodes, d: string)
    requires d in w.devices && d in ns && ns[d].parent == Some(w.GroupOf(d))
    ensures MoveOne(p, w, ns, d).0 == ns
  {
    hide Fingerprint, GroupNodeId;
  }

  lemma PointlessStays(p: Policy, w: World, ns: Nodes, d: string)
    requires d in w.devices && !HasPoints(w, d)
    ensures MoveOne(p, w, ns, d).0 == ns
  {
    hide Fingerprint, GroupNodeId;
  }

  lemma PointsAreKinds(w: World, d: string)
    requires d in w.devices && w.devices[d].state == Accepted
    ensures HasPoints(w, d) <==> HasKinds(w, d)
  {
  }

  lemma RowsMovedStep(p: Policy, w: World, ns: Nodes, d: string)
    requires d in w.devices && w.devices[d].state == Accepted && !HasGroupPrefix(d)
    requires RowsMoved(p, w, ns)
    ensures RowsMoved(p, w, MoveOne(p, w, ns, d).0)
  {
    hide MoveOne, HasGroupPrefix, HasPoints, HasKinds, Fingerprint, GroupNodeId, RowsMoved, Grouped, GroupNode;
    if d in ns && ns[d].parent == Some(w.GroupOf(d)) {
      PlacedStays(p, w, ns, d);
    } else if !HasPoints(w, d) {
      PointlessStays(p, w, ns, d);
    } else {
      MoveOneIs(p, w, ns, d);
      PointsAreKinds(w, d);
      var group, row := w.GroupOf(d), GroupNode(p, w.devices[d].dis, w.PointsOf(d));
      if group !in ns {
        GroupRowMoved(p, w, ns, d);
      }
      if d in ns {
        DeviceIsNoNewGroup(p, w, ns, d);
        ParentRowMoved(p, w, if group in ns then ns else ns[group := row], d);
      }
    }
  }

  lemma NewGroupIs(p: Policy, w: World, d: string)
    requires HasKinds(w, d)
    ensures IsNewGroup(p, w, w.GroupOf(d), GroupNode(p, w.devices[d].dis, w.PointsOf(d)))
  {
    hide Fingerprint, GroupNodeId;
  }

  lemma NewGroupIsPrefixed(p: Policy, w: World, k: string, row: Node)
    ensures IsNewGroup(p, w, k, row) ==> HasGroupPrefix(k)
  {
    hide Fingerprint;
    if d :| HasKinds(w, d) && k == w.GroupOf(d) {
      GroupIdHasPrefix(Fingerprint(w.PointsOf(d)));
    }
  }

  lemma DeviceIsNoNewGroup(p: Policy, w: World, ns: Nodes, d: string)
    requires RowsMoved(p, w, ns) && d in ns && !HasGroupPrefix(d)
    ensures d in w.nodes
  {
    hide IsNewGroup;
    NewGroupIsPrefixed(p, w, d, ns[d]);
  }

  lemma NothingMoved(p: Policy, w: World)
    ensures RowsMoved(p, w, w.nodes)
  {
  }

  lemma {:induction false} MovesKeepRows(p: Policy, w: World, ds: seq<string>, n: nat)
    requires n <= |ds| && (forall d <- ds :: d in w.devices && w.devices[d].state == Accepted && !HasGroupPrefix(d))
    requires forall d | Processed(w, d) :: !HasGroupPrefix(d)
    requires NodesValid(w.nodes)
    ensures RowsMoved(p, w, MoveFirst(p, w, w.nodes, ds, n).0)
  {
    hide MoveOne, RowsMoved, HasGroupPrefix, NodesValid, Processed, Fingerprint, GroupNodeId;
    if n == 0 {
      NothingMoved(p, w);
    } else {
      MovesKeepRows(p, w, ds, n - 1);
      MoveFirstIsValid(p, w, w.nodes, ds, n - 1);
      assert ds[n - 1] in ds;
      RowsMovedStep(p, w, MoveFirst(p, w, w.nodes, ds, n - 1).0, ds[n - 1]);
    }
  }

  // A device that is accepted and has points goes below the group of its kinds; no other row that stays
  // changes, and a row that is new is the group of such a device.
  lemma RegroupMovesExactly(p: Policy, w: World, k: string)
    requires p.Valid() && NodesValid(w.nodes)
    requires forall d <- w.devices :: !HasGroupPrefix(d)
    requires k in Regroup(p, w).0.nodes
    ensures var row := Regroup(p, w).0.nodes[k];
            && (k !in w.nodes ==> IsNewGroup(p, w, k, row))
            && (k in w.nodes ==>
                  var before := w.nodes[k];
                  row == Node(before.nodeType, before.dis,
                              if HasKinds(w, k) then Some(GroupNodeId(Fingerprint(w.PointsOf(k)))) else before.parent,
                              before.properties, before.writable, before.binding))
  {
    hide MoveFirst, Sweep, HasGroupPrefix, NodesValid, Fingerprint, GroupNodeId, IsNewGroup;
    var ds := p.accepted(w.devices);
    forall d <- ds ensures d in w.devices && w.devices[d].state == Accepted && !HasGroupPrefix(d) {
    }
    MovesKeepRows(p, w, ds, |ds|);
    MovesAre(p, w);
    var moved := Moves(p, w);
    SweptRow(moved, p.spaces(moved), k);
    if k in w.nodes && HasKinds(w, k) {
      assert Processed(w, k) && Grouped(w, moved, k);
    }
  }

  lemma SweptRow(ns: Nodes, order: seq<string>, k: string)
    ensures k in Sweep(ns, order) ==> k in ns && Sweep(ns, order)[k] == ns[k]
  {
    var gone := SweepRemoves(ns, order, |order|);
  }

  // The devices that are not where their kinds belong.
  ghost function Misplaced(w: World): set<string> {
    set d | d in w.devices && HasKinds(w, d) && !(d in w.nodes && w.nodes[d].parent == Some(w.GroupOf(d)))
  }

  ghost function MisplacedFirst(w: World, ds: seq<string>, n: nat): set<string>
    requires n <= |ds|
  {
    if n == 0 then {} else MisplacedFirst(w, ds, n - 1) + if ds[n - 1] in Misplaced(w) then {ds[n - 1]} else {}
  }

  lemma {:induction false} MisplacedFirstIs(w: World, ds: seq<string>, n: nat, d: string)
    requires n <= |ds|
    ensures d in MisplacedFirst(w, ds, n) <==> d in Misplaced(w) && exists i :: 0 <= i < n && ds[i] == d
  {
    if n > 0 {
      hide Misplaced;
      MisplacedFirstIs(w, ds, n - 1, d);
    }
  }

  lemma MoveLeavesOthers(p: Policy, w: World, ns: Nodes, d: string, e: string)
    requires d in w.devices && !HasGroupPrefix(d) && !HasGroupPrefix(e) && e != d && NodesValid(ns)
    ensures Lookup(MoveOne(p, w, ns, d).0, e) == Lookup(ns, e)
  {
    if HasPoints(w, d) {
      MoveOneIs(p, w, ns, d);
      hide MoveOne, HasGroupPrefix, Fingerprint, GroupNodeId, NodesValid;
      if d in ns && ns[d].parent == Some(w.GroupOf(d)) {
        ParentExists(ns, d);
      }
    }
  }

  lemma {:induction false} MovesLeaveOthers(p: Policy, w: World, ds: seq<string>, n: nat, e: string)
    requires n <= |ds| && (forall d <- ds :: d in w.devices && w.devices[d].state == Accepted && !HasGroupPrefix(d))
    requires forall d | Processed(w, d) :: !HasGroupPrefix(d)
    requires NodesValid(w.nodes) && !HasGroupPrefix(e) && forall i | 0 <= i < n :: ds[i] != e
    ensures Lookup(MoveFirst(p, w, w.nodes, ds, n).0, e) == Lookup(w.nodes, e)
  {
    if n > 0 {
      hide MoveOne, HasGroupPrefix, NodesValid, Processed;
      MovesLeaveOthers(p, w, ds, n - 1, e);
      MoveFirstIsValid(p, w, w.nodes, ds, n - 1);
      assert ds[n - 1] in ds;
      MoveLeavesOthers(p, w, MoveFirst(p, w, w.nodes, ds, n - 1).0, ds[n - 1], e);
    }
  }

  lemma MoveCounts(p: Policy, w: World, ns: Nodes, d: string)
    requires d in w.devices && w.devices[d].state == Accepted && Lookup(ns, d) == Lookup(w.nodes, d)
    ensures MoveOne(p, w, ns, d).1 == if d in Misplaced(w) then 1 else 0
  {
    hide Fingerprint, GroupNodeId, WithGroup, SetParent;
    assert HasKinds(w, d) <==> HasPoints(w, d);
  }

  lemma MisplacedStep(w: World, ds: seq<string>, n: nat)
    requires 0 < n <= |ds| && forall i, j | 0 <= i < j < |ds| :: ds[i] != ds[j]
    ensures |MisplacedFirst(w, ds, n)| == |MisplacedFirst(w, ds, n - 1)| + if ds[n - 1] in Misplaced(w) then 1 else 0
  {
    MisplacedFirstIs(w, ds, n - 1, ds[n - 1]);
  }

  lemma {:induction false} MovesCount(p: Policy, w: World, ds: seq<string>, n: nat)
    requires n <= |ds| && (forall d <- ds :: d in w.devices && w.devices[d].state == Accepted && !HasGroupPrefix(d))
    requires forall i, j | 0 <= i < j < |ds| :: ds[i] != ds[j]
    requires forall d | Processed(w, d) :: !HasGroupPrefix(d)
    requires NodesValid(w.nodes)
    ensures MoveFirst(p, w, w.nodes, ds, n).1 == |MisplacedFirst(w, ds, n)|
  {
    if n > 0 {
      hide HasGroupPrefix, NodesValid, Processed, Fingerprint, GroupNodeId, MoveOne, Misplaced, MisplacedFirst;
      var d := ds[n - 1];
      assert d in ds;
      MovesCount(p, w, ds, n - 1);
      MovesLeaveOthers(p, w, ds, n - 1, d);
      MoveCounts(p, w, MoveFirst(p, w, w.nodes, ds, n - 1).0, d);
      MisplacedStep(w, ds, n);
    }
  }

  // If the store lists each accepted device once, the result counts the devices that were not where
  // their kinds belong.
  lemma RegroupCountsMisplaced(p: Policy, w: World)
    requires p.Valid() && NodesValid(w.nodes)
    requires forall d <- w.devices :: !HasGroupPrefix(d)
    requires var ds := p.accepted(w.devices); forall i, j | 0 <= i < j < |ds| :: ds[i] != ds[j]
    ensures Regroup(p, w).1 == |Misplaced(w)|
  {
    hide MoveFirst, Sweep, HasGroupPrefix, NodesValid, MisplacedFirst;
    var ds := p.accepted(w.devices);
    forall d <- ds ensures d in w.devices && w.devices[d].state == Accepted && !HasGroupPrefix(d) {
    }
    MovesCount(p, w, ds, |ds|);
    forall d ensures d in MisplacedFirst(w, ds, |ds|) <==> d in Misplaced(w) {
      MisplacedFirstIs(w, ds, |ds|, d);
      assert d in Misplaced(w) ==> d in ds;
    }
    assert MisplacedFirst(w, ds, |ds|) == Misplaced(w);
  }

  // ----- after the clean-up -----

  lemma SweepKeepsValid(ns: Nodes, order: seq<string>)
    requires NodesValid(ns)
    ensures NodesValid(Sweep(ns, order))
  {
    var gone := SweepRemoves(ns, order, |order|);
  }

  // A grouped device keeps its group through the cleaning up of empty groups, in any order.
  lemma SweepKeepsGrouped(w: World, ns: Nodes, order: seq<string>, d: string)
    requires Grouped(w, ns, d) && !HasGroupPrefix(d)
    ensures Grouped(w, Sweep(ns, order), d)
  {
    hide HasGroupPrefix, Fingerprint, GroupNodeId;
    var gone := SweepRemoves(ns, order, |order|);
  }

  lemma SweepAddsNothing(ns: Nodes, order: seq<string>, id: string)
    requires id !in ns
    ensures id !in Sweep(ns, order)
  {
    var gone := SweepRemoves(ns, order, |order|);
  }

  // After one regrouping every processed device that has an equip node hangs below the existing
  // group of its kinds, and no equip node appears from nothing.
  lemma RegroupGroups(p: Policy, w: World)
    requires p.Valid() && NodesValid(w.nodes)
    requires forall d | Processed(w, d) :: !HasGroupPrefix(d)
    ensures var ns := Regroup(p, w).0.nodes;
            && NodesValid(ns)
            && (forall d | Processed(w, d) && d in w.nodes :: Grouped(w, ns, d))
            && (forall d | Processed(w, d) && d !in w.nodes :: d !in ns)
  {
    hide Moves, Sweep, Grouped, HasPoints, HasGroupPrefix, NodesValid;
    MovesAre(p, w);
    var moved := Moves(p, w);
    var order := p.spaces(moved);
    SweepKeepsValid(moved, order);
    forall d | Processed(w, d) && d in w.nodes ensures Grouped(w, Sweep(moved, order), d) {
      SweepKeepsGrouped(w, moved, order, d);
    }
    forall d | Processed(w, d) && d !in w.nodes ensures d !in Sweep(moved, order) {
      SweepAddsNothing(moved, order, d);
    }
  }

  // ----- a second regrouping -----

  lemma {:induction false} MoveFirstIdles(p: Policy, w: World, ns: Nodes, ds: seq<string>, n: nat)
    requires n <= |ds| && (forall d <- ds :: d in w.devices)
    requires forall i | 0 <= i < n && HasPoints(w, ds[i]) :: Grouped(w, ns, ds[i])
    ensures MoveFirst(p, w, ns, ds, n) == (ns, 0)
  {
    if n > 0 {
      MoveFirstIdles(p, w, ns, ds, n - 1);
    }
  }

  lemma {:induction false} MoveFirstCountsMissing(p: Policy, w: World, ns: Nodes, ds: seq<string>, n: nat, i: nat)
    requires n <= |ds| && (forall d <- ds :: d in w.devices && w.devices[d].state == Accepted)
    requires forall d | Processed(w, d) :: !HasGroupPrefix(d)
    requires NodesValid(ns) && i < n && HasPoints(w, ds[i]) && ds[i] !in ns
    ensures MoveFirst(p, w, ns, ds, n).1 > 0
  {
    hide HasPoints, HasGroupPrefix, NodesValid, Fingerprint, GroupNodeId;
    if i < n - 1 {
      MoveFirstCountsMissing(p, w, ns, ds, n - 1, i);
    } else {
      MoveFirstIsValid(p, w, ns, ds, i);
      assert ds[i] in ds;
      assert Processed(w, ds[i]);
    }
  }

  // A second regrouping reports nothing exactly when every processed device has an equip node, and
  // then it changes nothing exactly when the first one left no empty group.
  lemma RegroupConverges(p: Policy, w: World)
    requires p.Valid() && NodesValid(w.nodes)
    requires forall d | Processed(w, d) :: !HasGroupPrefix(d)
    ensures var (once, _) := Regroup(p, w);
            var (twice, count) := Regroup(p, once);
            && (count == 0 <==> forall d | Processed(w, d) :: d in w.nodes)
            && (count == 0 ==> (twice == once <==> EmptyGroups(once.nodes) == {}))
  {
    hide MoveFirst, Sweep, Grouped, HasPoints, HasGroupPrefix, NoHollowGroup, NodesValid, EmptyGroups;
    var once, ds := Regroup(p, w).0, p.accepted(w.devices);
    RegroupGroups(p, w);
    assert forall d :: Processed(once, d) == Processed(w, d) && HasPoints(once, d) == HasPoints(w, d) by { SamePoints(w, once); }
    if forall d | Processed(w, d) :: d in w.nodes {
      forall i | 0 <= i < |ds| && HasPoints(once, ds[i]) ensures Grouped(once, once.nodes, ds[i]) {
        assert ds[i] in ds && Processed(w, ds[i]);
        SameGroup(w, once, once.nodes, ds[i]);
      }
      MoveFirstIdles(p, once, once.nodes, ds, |ds|);
      SweepIdlesExactly(once.nodes, p.spaces(once.nodes));
    } else {
      var d :| Processed(w, d) && d !in w.nodes;
      assert d in ds;
      var i :| 0 <= i < |ds| && ds[i] == d;
      MoveFirstCountsMissing(p, once, once.nodes, ds, |ds|, i);
    }
  }

  lemma SweepIdlesExactly(ns: Nodes, order: seq<string>)
    requires ListsSpaces(ns, order)
    ensures Sweep(ns, order) == ns <==> EmptyGroups(ns) == {}
  {
    hide Sweep, HasGroupPrefix;
    if EmptyGroups(ns) == {} {
      NoEmptyNoHollow(ns);
      SettledSweep(ns, order);
      assert ns - {} == ns;
    } else {
      var e :| e in EmptyGroups(ns);
      SweepDropsEmpty(ns, order, e);
    }
  }

  lemma SamePoints(w: World, once: World)
    requires once == w.(nodes := once.nodes)
    ensures forall d :: Processed(once, d) == Processed(w, d) && HasPoints(once, d) == HasPoints(w, d)
  {
  }

  lemma SameGroup(w: World, once: World, ns: Nodes, d: string)
    requires once == w.(nodes := once.nodes) && Grouped(w, ns, d)
    ensures Grouped(once, ns, d)
  {
  }

  lemma NoEmptyNoHollow(ns: Nodes)
    requires EmptyGroups(ns) == {}
    ensures NoHollowGroup(ns)
  {
    hide HasGroupPrefix;
  }

  // ----- when a regrouping leaves an empty group -----

  // The nodes that will hang below a node once the devices are moved.
  ghost predicate WillHang(w: World, k: string, g: string) {
    k in w.nodes && if Processed(w, k) then w.GroupOf(k) == g else w.nodes[k].parent == Some(g)
  }

  ghost predicate WillBeEmpty(w: World, g: string) {
    IsGroup(w.nodes, g) && forall k :: !WillHang(w, k, g)
  }

  // The group will have children, but nothing will hang below any of them.
  ghost predicate WillBeHollow(w: World, g: string) {
    && IsGroup(w.nodes, g)
    && (exists k :: WillHang(w, k, g))
    && forall k | WillHang(w, k, g) :: WillBeEmpty(w, k)
  }

  // The moves bring every node where it will hang.
  ghost predicate MovesDone(w: World, moved: Nodes) {
    Moved(w, w.nodes, moved) && forall d | Processed(w, d) && d in w.nodes :: Grouped(w, moved, d)
  }

  lemma ChildrenAfterMoves(w: World, moved: Nodes, g: string)
    requires MovesDone(w, moved)
    ensures forall k :: (k in moved && moved[k].parent == Some(g)) <==> WillHang(w, k, g)
    ensures HasChild(moved, g) <==> exists k :: WillHang(w, k, g)
  {
    hide HasGroupPrefix, Processed, Fingerprint, GroupNodeId;
    forall k ensures (k in moved && moved[k].parent == Some(g)) <==> WillHang(w, k, g) {
      assert Processed(w, k) && k in w.nodes ==> Grouped(w, moved, k);
    }
  }

  lemma EmptyAfterMoves(w: World, moved: Nodes, g: string)
    requires MovesDone(w, moved) && g in w.nodes
    ensures g in EmptyGroups(moved) <==> WillBeEmpty(w, g)
  {
    hide HasGroupPrefix, Processed, Grouped, HasChild, WillHang;
    ChildrenAfterMoves(w, moved, g);
  }

  lemma HollowAfterMoves(w: World, moved: Nodes, g: string)
    requires MovesDone(w, moved) && NodesValid(w.nodes) && forall d | Processed(w, d) :: !HasGroupPrefix(d)
    ensures g in moved && HoldsOnlyEmptyGroups(moved, g) <==> WillBeHollow(w, g)
  {
    hide Processed, Grouped, HasGroupPrefix, NodesValid, Moved;
    if g in w.nodes {
      SameKind(w, moved, g);
    }
    ChildrenAfterMoves(w, moved, g);
    hide HasChild, IsGroup, MovesDone;
    if g in w.nodes {
      forall k | WillHang(w, k, g) ensures k in EmptyGroups(moved) <==> WillBeEmpty(w, k) {
        assert MovesDone(w, moved);
        EmptyAfterMoves(w, moved, k);
      }
      hide EmptyGroups, WillHang, WillBeEmpty;
      assert HoldsOnlyEmptyGroups(moved, g) ==> WillBeHollow(w, g);
      assert WillBeHollow(w, g) ==> HoldsOnlyEmptyGroups(moved, g);
    } else {
      assert !WillBeHollow(w, g) by { GroupsExist(w.nodes, g); }
      if g in moved && HasChild(moved, g) {
        var k :| WillHang(w, k, g);
        NewGroupHoldsDevices(w, moved, k, g);
      }
    }
  }

  lemma SameKind(w: World, moved: Nodes, g: string)
    requires MovesDone(w, moved) && g in w.nodes
    ensures g in moved && (IsGroup(moved, g) <==> IsGroup(w.nodes, g))
  {
  }

  lemma GroupsExist(ns: Nodes, g: string)
    ensures IsGroup(ns, g) ==> g in ns
  {
  }

  // What hangs below a group that the moves created is a device, not an empty group.
  lemma NewGroupHoldsDevices(w: World, moved: Nodes, k: string, g: string)
    requires MovesDone(w, moved) && WillHang(w, k, g) && g !in w.nodes && NodesValid(w.nodes)
    requires forall d | Processed(w, d) :: !HasGroupPrefix(d)
    ensures k !in EmptyGroups(moved)
  {
    hide HasGroupPrefix;
  }

  // Policies that differ in the order in which the Space nodes are listed.
  ghost predicate SameButOrder(p: Policy, q: Policy) {
    q == p.(spaces := q.spaces)
  }

  lemma {:induction false} MovesIgnoreOrder(p: Policy, q: Policy, w: World, ds: seq<string>, n: nat)
    requires SameButOrder(p, q) && n <= |ds| && forall d <- ds :: d in w.devices
    ensures MoveFirst(p, w, w.nodes, ds, n) == MoveFirst(q, w, w.nodes, ds, n)
    decreases n
  {
    if n > 0 {
      hide MoveOne, SameButOrder;
      MovesIgnoreOrder(p, q, w, ds, n - 1);
      assert forall i | 0 <= i < |ds| :: ds[i] in w.devices;
      MoveIgnoresOrder(p, q, w, MoveFirst(p, w, w.nodes, ds, n - 1).0, ds[n - 1]);
    }
  }

  lemma MoveIgnoresOrder(p: Policy, q: Policy, w: World, ns: Nodes, d: string)
    requires SameButOrder(p, q) && d in w.devices
    ensures MoveOne(p, w, ns, d) == MoveOne(q, w, ns, d)
  {
    hide Fingerprint, GroupNodeId, HasPoints, CreateNode, SetProperty, SetParent;
  }

  // The policy that lists the Space nodes of one table in a given order.
  function Reordered(p: Policy, ns: Nodes, order: seq<string>): Policy {
    p.(spaces := (all: Nodes) => if all == ns then order else p.spaces(all))
  }

  // Whatever the listing order, regrouping leaves no empty group exactly when no group will be hollow.
  lemma RegroupLeavesNoEmptyGroupExactly(p: Policy, w: World)
    requires p.Valid() && NodesValid(w.nodes)
    requires forall d | Processed(w, d) :: !HasGroupPrefix(d)
    ensures (forall q: Policy | q.Valid() && SameButOrder(p, q) :: EmptyGroups(Regroup(q, w).0.nodes) == {})
            <==> forall g :: !WillBeHollow(w, g)
  {
    hide Processed, HasGroupPrefix, EmptyGroups, Sweep, WillBeHollow, HoldsOnlyEmptyGroups, Moved, Grouped, MoveFirst, NodesValid;
    MovesAre(p, w);
    var moved, ds := Moves(p, w), p.accepted(w.devices);
    forall g ensures g in moved && HoldsOnlyEmptyGroups(moved, g) <==> WillBeHollow(w, g) {
      HollowAfterMoves(w, moved, g);
    }
    SweepLeavesNoEmptyGroupExactly(moved);
    forall q: Policy | q.Valid() && SameButOrder(p, q)
      ensures Regroup(q, w).0.nodes == Sweep(moved, q.spaces(moved)) && ListsSpaces(moved, q.spaces(moved))
    {
      MovesIgnoreOrder(p, q, w, ds, |ds|);
    }
    if forall q: Policy | q.Valid() && SameButOrder(p, q) :: EmptyGroups(Regroup(q, w).0.nodes) == {} {
      forall order | ListsSpaces(moved, order) ensures EmptyGroups(Sweep(moved, order)) == {} {
        var q := Reordered(p, moved, order);
        assert q.Valid() && SameButOrder(p, q) && q.spaces(moved) == order;
      }
    }
  }

  // Whatever the listing order, a second regrouping has nothing to do exactly when every processed
  // device has an equip node and no group will be hollow.
  lemma RegroupSettlesExactly(p: Policy, w: World)
    requires p.Valid() && NodesValid(w.nodes)
    requires forall d | Processed(w, d) :: !HasGroupPrefix(d)
    ensures (forall q: Policy | q.Valid() && SameButOrder(p, q) :: Regroup(q, Regroup(q, w).0) == (Regroup(q, w).0, 0))
            <==> (forall d | Processed(w, d) :: d in w.nodes) && forall g :: !WillBeHollow(w, g)
  {
    hide Regroup, Processed, HasGroupPrefix, NodesValid, WillBeHollow, EmptyGroups;
    RegroupLeavesNoEmptyGroupExactly(p, w);
    forall q: Policy | q.Valid() && SameButOrder(p, q)
      ensures Regroup(q, Regroup(q, w).0) == (Regroup(q, w).0, 0) <==>
              (forall d | Processed(w, d) :: d in w.nodes) && EmptyGroups(Regroup(q, w).0.nodes) == {}
    {
      RegroupConverges(q, w);
    }
    assert SameButOrder(p, p);
  }

  lemma {:induction false} HexLength(n: nat, digits: nat)
    ensures |Hex(n, digits)| == digits
  {
    if digits > 0 {
      HexLength(n / 16, digits - 1);
    }
  }

  // A device in the inner one of two nested groups, which is not the group of its kinds.
  function NestedGroups(): World {
    var outer := Node(Space, "", None, map[], false, None);
    World(
      map["d" := Device(Accepted, "", "", None)],
      map["d" := [DiscoveredPoint("p", "", Analog, false, "")]],
      map["group-a" := outer, "group-b" := outer.(parent := Some("group-a")),
          "d" := Node(Equip, "", Some("group-b"), map[], false, None)],
      map[], map[], [])
  }

  lemma NestedGroupsAre()
    ensures var w := NestedGroups();
            && NodesValid(w.nodes) && EmptyGroups(w.nodes) == {} && (forall d | Processed(w, d) :: !HasGroupPrefix(d))
  {
    hide Fingerprint;
    var ns := NestedGroups().nodes;
    assert ns["group-b"].parent == Some("group-a") && ns["d"].parent == Some("group-b");
    assert HasChild(ns, "group-a") && HasChild(ns, "group-b");
  }

  lemma OuterGroupWillBeHollow()
    ensures WillBeHollow(NestedGroups(), "group-a")
  {
    hide Fingerprint;
    var w := NestedGroups();
    assert |w.GroupOf("d")| == 22 by { HexLength(Fingerprint(w.PointsOf("d")), 16); }
    assert WillHang(w, "group-b", "group-a");
    assert forall k :: !WillHang(w, k, "group-b");
  }

  // No group is empty before; the device moves out, and when the outer group is listed first it stays
  // behind without children.
  lemma RegroupMayLeaveEmptyGroup(p: Policy) returns (q: Policy)
    requires p.Valid()
    ensures q.Valid() && SameButOrder(p, q)
    ensures var w := NestedGroups();
            && NodesValid(w.nodes) && EmptyGroups(w.nodes) == {} && (forall d | Processed(w, d) :: !HasGroupPrefix(d))
            && EmptyGroups(Regroup(q, w).0.nodes) != {}
  {
    hide Regroup, NestedGroups, WillBeHollow, Processed, NodesValid, EmptyGroups, HasGroupPrefix, SameButOrder;
    var w := NestedGroups();
    NestedGroupsAre();
    OuterGroupWillBeHollow();
    RegroupLeavesNoEmptyGroupExactly(p, w);
    q :| q.Valid() && SameButOrder(p, q) && EmptyGroups(Regroup(q, w).0.nodes) != {};
  }
}
