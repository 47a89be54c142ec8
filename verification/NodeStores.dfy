/** The node and entity stores as tables: keys are unique, a parent or reference must exist, and
    deleting a row clears the parents and removes the references that named it. */
module NodeStores {
  import opened Options
  import opened Grouping

  datatype NodeType = Site | Space | Equip | Point

  datatype Node = Node(
    nodeType: NodeType, dis: string, parent: Option<string>, properties: map<string, string>,
    writable: bool, binding: Option<string>)

  type Nodes = map<string, Node>

  datatype Entity = Entity(
    entityType: string, dis: string, parent: Option<string>, tags: map<string, Option<string>>, refs: map<string, string>)

  type Entities = map<string, Entity>

  // ----- nodes -----

  // Parents exist.
  ghost predicate NodesValid(ns: Nodes) {
    forall k <- ns :: ns[k].parent.Some? ==> ns[k].parent.value in ns
  }

  function CreateNode(ns: Nodes, id: string, n: Node): Nodes {
    if id in ns || (n.parent.Some? && n.parent.value !in ns) then ns else ns[id := n]
  }

  function DeleteNode(ns: Nodes, id: string): Nodes {
    if id !in ns then ns
    else map k | k in ns && k != id :: if ns[k].parent == Some(id) then ns[k].(parent := None) else ns[k]
  }

  function SetProperty(ns: Nodes, id: string, key: string, value: string): Nodes {
    if id !in ns then ns else ns[id := ns[id].(properties := ns[id].properties[key := value])]
  }

  function SetParent(ns: Nodes, id: string, parent: string): Nodes {
    if id !in ns || parent !in ns then ns else ns[id := ns[id].(parent := Some(parent))]
  }

  predicate HasChild(ns: Nodes, id: string) {
    exists c <- ns :: ns[c].parent == Some(id)
  }

  predicate IsGroup(ns: Nodes, id: string) {
    id in ns && ns[id].nodeType == Space && HasGroupPrefix(id)
  }

  function EmptyGroups(ns: Nodes): set<string> {
    set k | k in ns && IsGroup(ns, k) && !HasChild(ns, k)
  }

  lemma DeleteChildless(ns: Nodes, id: string)
    requires !HasChild(ns, id)
    ensures DeleteNode(ns, id) == ns - {id}
  {
  }

  lemma FewerNodesFewerChildren(ns: Nodes, gone: set<string>, id: string)
    requires !HasChild(ns, id)
    ensures !HasChild(ns - gone, id)
  {
  }

  // ----- cleaning up empty groups -----

  // The store lists the Space nodes in some order.
  ghost predicate ListsSpaces(ns: Nodes, order: seq<string>) {
    forall k :: k in order <==> k in ns && ns[k].nodeType == Space
  }

  // Visits the listed nodes; one whose id has the group prefix is deleted if it has no child then.
  function SweepFirst(ns: Nodes, order: seq<string>, n: nat): Nodes
    requires n <= |order|
  {
    if n == 0 then ns
    else
      var before := SweepFirst(ns, order, n - 1);
      if HasGroupPrefix(order[n - 1]) && !HasChild(before, order[n - 1]) then DeleteNode(before, order[n - 1]) else before
  }

  function Sweep(ns: Nodes, order: seq<string>): Nodes {
    SweepFirst(ns, order, |order|)
  }

  // A group that is not empty, but only because of empty groups below it.
  ghost predicate HoldsOnlyEmptyGroups(ns: Nodes, g: string) {
    IsGroup(ns, g) && HasChild(ns, g) && forall c <- ns | ns[c].parent == Some(g) :: c in EmptyGroups(ns)
  }

  ghost predicate NoHollowGroup(ns: Nodes) {
    forall g <- ns :: !HoldsOnlyEmptyGroups(ns, g)
  }

  function ListedGroups(order: seq<string>, n: nat): (gs: set<string>)
    requires n <= |order|
    ensures forall g :: g in gs <==> g in order[..n] && HasGroupPrefix(g)
  {
    if n == 0 then {}
    else
      assert order[..n] == order[..n - 1] + [order[n - 1]];
      ListedGroups(order, n - 1) + if HasGroupPrefix(order[n - 1]) then {order[n - 1]} else {}
  }

  // Sweeping only ever removes childless nodes, so it leaves the other rows as they are.
  lemma {:induction false} SweepRemoves(ns: Nodes, order: seq<string>, n: nat) returns (gone: set<string>)
    requires n <= |order|
    ensures SweepFirst(ns, order, n) == ns - gone
    ensures gone <= ListedGroups(order, n)
    ensures EmptyGroups(ns) * ListedGroups(order, n) <= gone
    ensures forall c <- ns :: ns[c].parent.Some? && ns[c].parent.value in gone ==> c in gone
  {
    gone := {};
    if n > 0 {
      gone := SweepRemoves(ns, order, n - 1);
      var g := order[n - 1];
      var before := SweepFirst(ns, order, n - 1);
      if !HasChild(ns, g) {
        FewerNodesFewerChildren(ns, gone, g);
      }
      if HasGroupPrefix(g) && !HasChild(before, g) {
        DeleteChildless(before, g);
        forall c <- ns | ns[c].parent == Some(g) ensures c in gone {
          assert c in gone || c in before;
        }
        gone := gone + {g};
      }
    }
  }

  // When no group is hollow, a sweep in any order removes exactly the empty groups.
  lemma {:induction false} SweepOfSettled(ns: Nodes, order: seq<string>, n: nat)
    requires ListsSpaces(ns, order) && NoHollowGroup(ns) && n <= |order|
    ensures SweepFirst(ns, order, n) == ns - EmptyGroups(ns) * ListedGroups(order, n)
  {
    if n > 0 {
      SweepOfSettled(ns, order, n - 1);
      var g := order[n - 1];
      var gone := EmptyGroups(ns) * ListedGroups(order, n - 1);
      var before := ns - gone;
      assert g in order;
      if HasGroupPrefix(g) {
        assert IsGroup(ns, g);
        if HasChild(ns, g) {
          assert !HoldsOnlyEmptyGroups(ns, g);
          var c :| c in ns && ns[c].parent == Some(g) && c !in EmptyGroups(ns);
          assert c in before && before[c].parent == Some(g);
        } else {
          FewerNodesFewerChildren(ns, gone, g);
          DeleteChildless(before, g);
        }
      }
    }
  }

  lemma AllGroupsListed(ns: Nodes, order: seq<string>)
    requires ListsSpaces(ns, order)
    ensures EmptyGroups(ns) * ListedGroups(order, |order|) == EmptyGroups(ns)
  {
  }

  lemma SettledSweep(ns: Nodes, order: seq<string>)
    requires ListsSpaces(ns, order) && NoHollowGroup(ns)
    ensures Sweep(ns, order) == ns - EmptyGroups(ns)
    ensures EmptyGroups(Sweep(ns, order)) == {}
  {
    SweepOfSettled(ns, order, |order|);
    AllGroupsListed(ns, order);
    var gone := EmptyGroups(ns);
    forall g | g in ns - gone && IsGroup(ns - gone, g) ensures HasChild(ns - gone, g) {
      assert IsGroup(ns, g) && HasChild(ns, g) && !HoldsOnlyEmptyGroups(ns, g);
      var c :| c in ns && ns[c].parent == Some(g) && c !in gone;
      assert (ns - gone)[c].parent == Some(g);
    }
  }

  // An order that visits the hollow group before its children.
  lemma HollowGroupSurvives(ns: Nodes, order: seq<string>, g: string)
    requires ListsSpaces(ns, order) && HoldsOnlyEmptyGroups(ns, g) && NodesValid(ns)
    requires order != [] && order[0] == g && g !in order[1..]
    ensures g in EmptyGroups(Sweep(ns, order))
  {
    var gone := SweepRemoves(ns, order, |order|);
    AllGroupsListed(ns, order);
    GroupVisitedOnce(ns, order, g, |order|);
    var after := Sweep(ns, order);
    forall c <- after ensures after[c].parent != Some(g) {
      assert ns[c].parent == Some(g) ==> c in EmptyGroups(ns);
    }
  }

  // Two nested groups without devices: the outer one is seen while the inner one is still there.
  lemma NestedGroupsSurvive()
    ensures var outer := Node(Space, "", None, map[], false, None);
            var ns := map["group-a" := outer, "group-b" := outer.(parent := Some("group-a"))];
            NodesValid(ns) && ListsSpaces(ns, ["group-a", "group-b"])
            && "group-a" in EmptyGroups(Sweep(ns, ["group-a", "group-b"]))
  {
    var outer := Node(Space, "", None, map[], false, None);
    var inner := outer.(parent := Some("group-a"));
    var ns := map["group-a" := outer, "group-b" := inner];
    assert ns["group-b"].parent == Some("group-a");
    assert HasChild(ns, "group-a") && !HasChild(ns, "group-b");
    HollowGroupSurvives(ns, ["group-a", "group-b"], "group-a");
  }

  lemma {:induction false} GroupVisitedOnce(ns: Nodes, order: seq<string>, g: string, n: nat)
    requires HasChild(ns, g) && g in ns && order != [] && order[0] == g && g !in order[1..] && n <= |order|
    ensures g in SweepFirst(ns, order, n)
  {
    if n > 1 {
      GroupVisitedOnce(ns, order, g, n - 1);
      assert order[n - 1] == order[1..][n - 2];
    }
  }

  // An order that lists a given Space node first, and every Space node once.
  lemma OrderStartingWith(ns: Nodes, g: string) returns (order: seq<string>)
    requires g in ns && ns[g].nodeType == Space
    ensures ListsSpaces(ns, order) && order != [] && order[0] == g && g !in order[1..]
  {
    var rest := set k | k in ns && ns[k].nodeType == Space && k != g;
    var tail := [];
    while rest != {}
      invariant forall k :: k in ns && ns[k].nodeType == Space && k != g <==> k in rest || k in tail
      decreases rest
    {
      var k :| k in rest;
      rest, tail := rest - {k}, tail + [k];
    }
    order := [g] + tail;
  }

  // Sweeping leaves no empty group, whatever the listing order, exactly when no group is hollow.
  lemma SweepLeavesNoEmptyGroupExactly(ns: Nodes)
    requires NodesValid(ns)
    ensures (forall order | ListsSpaces(ns, order) :: EmptyGroups(Sweep(ns, order)) == {}) <==> NoHollowGroup(ns)
  {
    if NoHollowGroup(ns) {
      forall order | ListsSpaces(ns, order) ensures EmptyGroups(Sweep(ns, order)) == {} {
        SettledSweep(ns, order);
      }
    } else {
      var g :| g in ns && HoldsOnlyEmptyGroups(ns, g);
      var order := OrderStartingWith(ns, g);
      HollowGroupSurvives(ns, order, g);
    }
  }

  // ----- entities -----

  ghost predicate Mentions(e: Entity, id: string) {
    e.parent == Some(id) || exists tag <- e.refs :: e.refs[tag] == id
  }

  // Does some entity name `id` as its parent or as the target of a reference?
  ghost predicate Mentioned(es: Entities, id: string) {
    exists k <- es :: Mentions(es[k], id)
  }

  ghost predicate EntitiesValid(es: Entities) {
    forall k <- es ::
      && (es[k].parent.Some? ==> es[k].parent.value in es)
      && (forall tag <- es[k].refs :: es[k].refs[tag] in es)
  }

  function CreateEntity(es: Entities, id: string, e: Entity): Entities {
    if id in es || (e.parent.Some? && e.parent.value !in es) then es else es[id := e]
  }

  function SetRef(es: Entities, source: string, tag: string, target: string): Entities {
    if source !in es || target !in es then es
    else es[source := es[source].(refs := es[source].refs[tag := target])]
  }

  function Unmention(e: Entity, id: string): Entity {
    e.(parent := if e.parent == Some(id) then None else e.parent,
       refs := map tag | tag in e.refs && e.refs[tag] != id :: e.refs[tag])
  }

  function DeleteEntity(es: Entities, id: string): Entities {
    if id !in es then es else map k | k in es && k != id :: Unmention(es[k], id)
  }

  lemma DeleteUnmentioned(es: Entities, id: string)
    requires !Mentioned(es, id)
    ensures DeleteEntity(es, id) == es - {id}
  {
    if id in es {
      forall k | k in es && k != id ensures Unmention(es[k], id) == es[k] {
        assert !Mentions(es[k], id);
        assert (map tag | tag in es[k].refs && es[k].refs[tag] != id :: es[k].refs[tag]) == es[k].refs;
      }
    }
  }

  lemma FewerEntitiesFewerMentions(es: Entities, gone: set<string>, id: string)
    requires !Mentioned(es, id)
    ensures !Mentioned(es - gone, id)
  {
    hide Mentions;
  }
}
