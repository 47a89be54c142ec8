/** Dropping the nodes of removed kinds from a saved layout, before it is read back. */
module LayoutPruning {

  datatype Json =
    | Null
    | Bool(b: bool)
    | Number(digits: string)
    | Str(s: string)
    | Arr(items: seq<Json>)
    | Obj(fields: map<string, Json>)

  // The kind is the bare name of a removed variant, or an object tagged with one.
  predicate Legacy(node: Json) {
    && node.Obj?
    && "kind" in node.fields
    && match node.fields["kind"] {
      case Str(s) => s == "Folder" || s == "Page"
      case Obj(o) => "Device" in o
      case _ => false
    }
  }

  predicate HasChildren(node: Json) {
    node.Obj? && "children" in node.fields && node.fields["children"].Arr?
  }

  function Children(node: Json): seq<Json>
    requires HasChildren(node)
  {
    node.fields["children"].items
  }

  function WithChildren(node: Json, children: seq<Json>): Json
    requires HasChildren(node)
  {
    node.(fields := node.fields["children" := Arr(children)])
  }

  // The first `n` nodes of a level, without those of removed kinds.
  function Retained(nodes: seq<Json>, n: nat): seq<Json>
    requires n <= |nodes|
  {
    if n == 0 then []
    else
      var kept := Retained(nodes, n - 1);
      if Legacy(nodes[n - 1]) then kept else kept + [nodes[n - 1]]
  }

  function PruneFirst(nodes: seq<Json>, n: nat): seq<Json>
    requires n <= |nodes|
    decreases nodes, n
  {
    if n == 0 then []
    else
      var kept := PruneFirst(nodes, n - 1);
      if Legacy(nodes[n - 1]) then kept else kept + [PruneNode(nodes[n - 1])]
  }

  function PruneNode(node: Json): Json
    decreases node
  {
    if HasChildren(node) then WithChildren(node, Prune(Children(node))) else node
  }

  function Prune(nodes: seq<Json>): seq<Json>
    decreases nodes, |nodes| + 1
  {
    PruneFirst(nodes, |nodes|)
  }

  // A level is filtered first; the nodes that remain are then pruned below.
  lemma {:induction false} PruneInTwoSteps(nodes: seq<Json>, n: nat)
    requires n <= |nodes|
    ensures |Retained(nodes, n)| == |PruneFirst(nodes, n)|
    ensures forall i | 0 <= i < |Retained(nodes, n)| ::
              Retained(nodes, n)[i] in nodes && PruneFirst(nodes, n)[i] == PruneNode(Retained(nodes, n)[i])
  {
    if n > 0 {
      hide Legacy, PruneNode;
      PruneInTwoSteps(nodes, n - 1);
    }
  }

  method PruneLegacyNodes(nodes: seq<Json>) returns (r: seq<Json>)
    ensures r == Prune(nodes)
    decreases nodes, 1
  {
    hide PruneFirst, PruneNode, Legacy;
    r := [];
    for i := 0 to |nodes|
      invariant r == Retained(nodes, i)
    {
      if !Legacy(nodes[i]) {
        r := r + [nodes[i]];
      }
    }
    PruneInTwoSteps(nodes, |nodes|);
    r := PruneBelow(r, nodes);
  }

  // The nodes that remain of a level are pruned one by one, in place.
  method PruneBelow(kept: seq<Json>, ghost nodes: seq<Json>) returns (r: seq<Json>)
    requires forall i | 0 <= i < |kept| :: kept[i] in nodes
    ensures |r| == |kept| && forall i | 0 <= i < |kept| :: r[i] == PruneNode(kept[i])
    decreases nodes, 0
  {
    hide PruneFirst, Legacy;
    r := kept;
    for i := 0 to |r|
      invariant |r| == |kept|
      invariant forall j | 0 <= j < i :: r[j] == PruneNode(kept[j])
      invariant forall j | i <= j < |r| :: r[j] == kept[j]
    {
      if HasChildren(r[i]) {
        var children := PruneLegacyNodes(Children(r[i]));
        r := r[i := WithChildren(r[i], children)];
      }
    }
  }

  // ----- what pruning leaves -----

  // No node of a removed kind among the first `n` or below them.
  ghost predicate CleanFirst(nodes: seq<Json>, n: nat)
    requires n <= |nodes|
    decreases nodes, n
  {
    n > 0 ==> CleanFirst(nodes, n - 1) && CleanNode(nodes[n - 1])
  }

  ghost predicate CleanNode(node: Json)
    decreases node
  {
    !Legacy(node) && (HasChildren(node) ==> Clean(Children(node)))
  }

  // No node of a removed kind, at any depth.
  ghost predicate Clean(nodes: seq<Json>)
    decreases nodes, |nodes| + 1
  {
    CleanFirst(nodes, |nodes|)
  }

  lemma {:induction false} CleanPrefix(nodes: seq<Json>, more: seq<Json>, n: nat)
    requires n <= |nodes|
    ensures CleanFirst(nodes + more, n) == CleanFirst(nodes, n)
  {
    if n > 0 {
      hide CleanNode;
      CleanPrefix(nodes, more, n - 1);
    }
  }

  lemma CleanGrows(nodes: seq<Json>, node: Json)
    ensures Clean(nodes + [node]) == (Clean(nodes) && CleanNode(node))
  {
    hide CleanNode;
    CleanPrefix(nodes, [node], |nodes|);
  }

  lemma {:induction false} PruneFirstIsClean(nodes: seq<Json>, n: nat)
    requires n <= |nodes|
    ensures Clean(PruneFirst(nodes, n))
    decreases nodes, n
  {
    if n > 0 {
      hide Clean;
      PruneFirstIsClean(nodes, n - 1);
      if !Legacy(nodes[n - 1]) {
        PrunedNodeIsClean(nodes[n - 1]);
        CleanGrows(PruneFirst(nodes, n - 1), PruneNode(nodes[n - 1]));
      }
    }
  }

  lemma {:induction false} PrunedNodeIsClean(node: Json)
    requires !Legacy(node)
    ensures CleanNode(PruneNode(node))
    decreases node
  {
    if HasChildren(node) {
      hide PruneFirst, Clean;
      PruneIsClean(Children(node));
    }
  }

  lemma PruneIsClean(nodes: seq<Json>)
    ensures Clean(Prune(nodes))
    decreases nodes, |nodes| + 1
  {
    PruneFirstIsClean(nodes, |nodes|);
  }

  lemma {:induction false} PruneShrinks(nodes: seq<Json>, n: nat)
    requires n <= |nodes|
    ensures |PruneFirst(nodes, n)| <= n
  {
    if n > 0 {
      PruneShrinks(nodes, n - 1);
    }
  }

  lemma {:induction false} PruneFixesFirst(nodes: seq<Json>, n: nat)
    requires n <= |nodes|
    ensures PruneFirst(nodes, n) == nodes[..n] <==> CleanFirst(nodes, n)
    decreases nodes, n
  {
    if n > 0 {
      hide Legacy, HasChildren, PruneNode, CleanNode;
      var node := nodes[n - 1];
      PruneFixesFirst(nodes, n - 1);
      PruneShrinks(nodes, n - 1);
      PruneFixesNode(node);
      assert nodes[..n] == nodes[..n - 1] + [node];
      LastOfBoth(PruneFirst(nodes, n - 1), PruneNode(node), nodes[..n - 1], node);
    }
  }

  lemma LastOfBoth<T>(a: seq<T>, x: T, b: seq<T>, y: T)
    ensures a + [x] == b + [y] <==> a == b && x == y
  {
    if a + [x] == b + [y] {
      assert (a + [x])[|a|] == x && (b + [y])[|b|] == y;
      assert a == (a + [x])[..|a|] == (b + [y])[..|b|] == b;
    }
  }

  lemma {:induction false} PruneFixesNode(node: Json)
    ensures !Legacy(node) && PruneNode(node) == node <==> CleanNode(node)
    decreases node
  {
    if HasChildren(node) {
      hide PruneFirst, CleanFirst, Legacy;
      PruneFixesExactlyTheClean(Children(node));
      assert WithChildren(node, Children(node)) == node;
    }
  }

  // Pruning changes a layout exactly when there is something to drop.
  lemma PruneFixesExactlyTheClean(nodes: seq<Json>)
    ensures Prune(nodes) == nodes <==> Clean(nodes)
    decreases nodes, |nodes| + 1
  {
    PruneFixesFirst(nodes, |nodes|);
    assert nodes[..|nodes|] == nodes;
  }

  lemma PruneIsIdempotent(nodes: seq<Json>)
    ensures Prune(Prune(nodes)) == Prune(nodes)
  {
    PruneIsClean(nodes);
    PruneFixesExactlyTheClean(Prune(nodes));
  }

  // ----- what pruning keeps -----

  // A node without what is below it.
  function Bare(node: Json): Json {
    if HasChildren(node) then WithChildren(node, []) else node
  }

  // For each of the first `n` nodes and every node below them, in document order, the nodes on the way
  // down to it.
  ghost function ChainsFirst(nodes: seq<Json>, n: nat, above: seq<Json>): seq<seq<Json>>
    requires n <= |nodes|
    decreases nodes, n
  {
    if n == 0 then [] else ChainsFirst(nodes, n - 1, above) + ChainsOf(nodes[n - 1], above)
  }

  ghost function ChainsOf(node: Json, above: seq<Json>): seq<seq<Json>>
    decreases node
  {
    var chain := above + [Bare(node)];
    [chain] + if HasChildren(node) then Chains(Children(node), chain) else []
  }

  ghost function Chains(nodes: seq<Json>, above: seq<Json>): seq<seq<Json>>
    decreases nodes, |nodes| + 1
  {
    ChainsFirst(nodes, |nodes|, above)
  }

  lemma {:induction false} ChainsPrefix(nodes: seq<Json>, more: seq<Json>, n: nat, above: seq<Json>)
    requires n <= |nodes|
    ensures ChainsFirst(nodes + more, n, above) == ChainsFirst(nodes, n, above)
  {
    if n > 0 {
      hide ChainsOf;
      ChainsPrefix(nodes, more, n - 1, above);
    }
  }

  lemma ChainsGrow(nodes: seq<Json>, node: Json, above: seq<Json>)
    ensures Chains(nodes + [node], above) == Chains(nodes, above) + ChainsOf(node, above)
  {
    hide ChainsOf;
    ChainsPrefix(nodes, [node], |nodes|, above);
  }

  ghost predicate HasLegacy(chain: seq<Json>) {
    exists node <- chain :: Legacy(node)
  }

  ghost function WithoutLegacyFirst(chains: seq<seq<Json>>, n: nat): seq<seq<Json>>
    requires n <= |chains|
  {
    if n == 0 then []
    else
      var kept := WithoutLegacyFirst(chains, n - 1);
      if HasLegacy(chains[n - 1]) then kept else kept + [chains[n - 1]]
  }

  ghost function WithoutLegacy(chains: seq<seq<Json>>): seq<seq<Json>> {
    WithoutLegacyFirst(chains, |chains|)
  }

  lemma {:induction false} WithoutLegacyPrefix(a: seq<seq<Json>>, b: seq<seq<Json>>, n: nat)
    requires n <= |a|
    ensures WithoutLegacyFirst(a + b, n) == WithoutLegacyFirst(a, n)
  {
    if n > 0 {
      hide HasLegacy;
      WithoutLegacyPrefix(a, b, n - 1);
    }
  }

  lemma {:induction false} WithoutLegacyOfConcat(a: seq<seq<Json>>, b: seq<seq<Json>>, n: nat)
    requires n <= |b|
    ensures WithoutLegacyFirst(a + b, |a| + n) == WithoutLegacy(a) + WithoutLegacyFirst(b, n)
  {
    hide HasLegacy;
    if n == 0 {
      WithoutLegacyPrefix(a, b, |a|);
    } else {
      WithoutLegacyOfConcat(a, b, n - 1);
    }
  }

  lemma WithoutLegacyJoins(a: seq<seq<Json>>, b: seq<seq<Json>>)
    ensures WithoutLegacy(a + b) == WithoutLegacy(a) + WithoutLegacy(b)
  {
    hide WithoutLegacyFirst;
    WithoutLegacyOfConcat(a, b, |b|);
  }

  lemma WithoutLegacyOne(chain: seq<Json>)
    ensures WithoutLegacy([chain]) == if HasLegacy(chain) then [] else [chain]
  {
    hide HasLegacy;
    assert WithoutLegacyFirst([chain], 0) == [];
  }

  lemma LegacyAbove(above: seq<Json>, node: Json)
    ensures HasLegacy(above + [Bare(node)]) <==> HasLegacy(above) || Legacy(node)
  {
    var last := Bare(node);
    assert Legacy(last) <==> Legacy(node);
    assert forall n <- above :: n in above + [last];
    assert last in above + [last];
  }

  lemma {:induction false} NothingBelowLegacy(nodes: seq<Json>, n: nat, above: seq<Json>)
    requires HasLegacy(above) && n <= |nodes|
    ensures WithoutLegacy(ChainsFirst(nodes, n, above)) == []
    decreases nodes, n
  {
    if n > 0 {
      hide WithoutLegacy, ChainsOf, HasLegacy;
      NothingBelowLegacy(nodes, n - 1, above);
      NothingOfLegacy(nodes[n - 1], above);
      WithoutLegacyJoins(ChainsFirst(nodes, n - 1, above), ChainsOf(nodes[n - 1], above));
    }
  }

  lemma {:induction false} NothingOfLegacy(node: Json, above: seq<Json>)
    requires HasLegacy(above) || Legacy(node)
    ensures WithoutLegacy(ChainsOf(node, above)) == []
    decreases node
  {
    hide WithoutLegacy, ChainsFirst, HasLegacy, Legacy, Bare;
    var chain := above + [Bare(node)];
    LegacyAbove(above, node);
    WithoutLegacyOne(chain);
    if HasChildren(node) {
      NothingBelowLegacy(Children(node), |Children(node)|, chain);
      WithoutLegacyJoins([chain], Chains(Children(node), chain));
    } else {
      assert [chain] + [] == [chain];
    }
  }

  lemma {:induction false} PruneKeepsFirst(nodes: seq<Json>, n: nat, above: seq<Json>)
    requires !HasLegacy(above) && n <= |nodes|
    ensures Chains(PruneFirst(nodes, n), above) == WithoutLegacy(ChainsFirst(nodes, n, above))
    decreases nodes, n
  {
    if n > 0 {
      hide WithoutLegacy, ChainsOf, HasLegacy, Legacy, PruneNode, Chains;
      var node := nodes[n - 1];
      PruneKeepsFirst(nodes, n - 1, above);
      WithoutLegacyJoins(ChainsFirst(nodes, n - 1, above), ChainsOf(node, above));
      if Legacy(node) {
        NothingOfLegacy(node, above);
      } else {
        PrunedNodeKeeps(node, above);
        ChainsGrow(PruneFirst(nodes, n - 1), PruneNode(node), above);
      }
    }
  }

  lemma {:induction false} PrunedNodeKeeps(node: Json, above: seq<Json>)
    requires !HasLegacy(above) && !Legacy(node)
    ensures ChainsOf(PruneNode(node), above) == WithoutLegacy(ChainsOf(node, above))
    decreases node
  {
    BareOfPruned(node);
    hide WithoutLegacy, ChainsFirst, HasLegacy, Legacy, Bare, PruneFirst;
    var chain := above + [Bare(node)];
    LegacyAbove(above, node);
    WithoutLegacyOne(chain);
    if HasChildren(node) {
      PruneKeepsTheRest(Children(node), chain);
      WithoutLegacyJoins([chain], Chains(Children(node), chain));
    } else {
      assert [chain] + [] == [chain];
    }
  }

  lemma BareOfPruned(node: Json)
    ensures Bare(PruneNode(node)) == Bare(node)
    ensures HasChildren(PruneNode(node)) == HasChildren(node)
    ensures HasChildren(node) ==> Children(PruneNode(node)) == Prune(Children(node))
  {
    hide PruneFirst;
    if HasChildren(node) {
      assert WithChildren(PruneNode(node), []).fields == WithChildren(node, []).fields;
    }
  }

  // A node survives exactly when neither it nor any node above it is of a removed kind; the survivors
  // keep their order, their fields and their place.
  lemma PruneKeepsTheRest(nodes: seq<Json>, above: seq<Json>)
    requires !HasLegacy(above)
    ensures Chains(Prune(nodes), above) == WithoutLegacy(Chains(nodes, above))
    decreases nodes, |nodes| + 1
  {
    hide WithoutLegacy, ChainsOf, HasLegacy, PruneFirst;
    PruneKeepsFirst(nodes, |nodes|, above);
  }

  // Of one node without children nothing is left exactly when its kind is the name of a folder or a page,
  // or is tagged as a device. A node of any other kind, or of none, stays as it is.
  lemma RemovedKinds(fields: map<string, Json>)
    requires "children" !in fields
    ensures var removed :=
              && "kind" in fields
              && (fields["kind"] in {Str("Folder"), Str("Page")} || (fields["kind"].Obj? && "Device" in fields["kind"].fields));
            Prune([Obj(fields)]) == if removed then [] else [Obj(fields)]
  {
    var node := Obj(fields);
    assert PruneNode(node) == node;
    assert PruneFirst([node], 1) == PruneFirst([node], 0) + if Legacy(node) then [] else [node];
  }
}
