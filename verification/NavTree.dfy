/** Edits of the navigation tree: inserting, changing and removing nodes by id. */
module NavTree {
  import opened Options

  datatype NavNodeKind =
    | Site(nodeId: string)
    | Building(nodeId: string)
    | Floor(nodeId: string)
    | FloorArea(nodeId: string)
    | Room(nodeId: string)

  datatype NavNode = NavNode(id: string, caption: string, kind: NavNodeKind, children: seq<NavNode>)

  datatype Edited = Edited(nodes: seq<NavNode>, found: bool)

  // How often an id occurs, at any depth.
  ghost function Count(nodes: seq<NavNode>, id: string): nat
    decreases nodes
  {
    if nodes == [] then 0
    else (if nodes[0].id == id then 1 else 0) + Count(nodes[0].children, id) + Count(nodes[1..], id)
  }

  function WithChild(n: NavNode, child: NavNode): NavNode {
    n.(children := n.children + [child])
  }

  function WithLabel(n: NavNode, caption: string, kind: NavNodeKind): NavNode {
    n.(caption := caption, kind := kind)
  }

  // ----- the edits: the first node in document order that has the id is changed -----

  function EditFirst(nodes: seq<NavNode>, id: string, f: NavNode -> NavNode): Edited
    decreases nodes
  {
    if nodes == [] then Edited([], false)
    else if nodes[0].id == id then Edited([f(nodes[0])] + nodes[1..], true)
    else
      var inner := EditFirst(nodes[0].children, id, f);
      if inner.found then Edited([nodes[0].(children := inner.nodes)] + nodes[1..], true)
      else
        var rest := EditFirst(nodes[1..], id, f);
        Edited([nodes[0]] + rest.nodes, rest.found)
  }

  function PositionOf(nodes: seq<NavNode>, id: string): (i: nat)
    ensures i <= |nodes|
    ensures forall j | 0 <= j < i :: nodes[j].id != id
    ensures i < |nodes| ==> nodes[i].id == id
  {
    if nodes == [] || nodes[0].id == id then 0 else 1 + PositionOf(nodes[1..], id)
  }

  // A level is searched as a whole before the levels below it.
  function Remove(nodes: seq<NavNode>, id: string): Edited
    decreases nodes, 1
  {
    var i := PositionOf(nodes, id);
    if i < |nodes| then Edited(nodes[..i] + nodes[i + 1..], true) else RemoveBelow(nodes, id)
  }

  function RemoveBelow(nodes: seq<NavNode>, id: string): Edited
    decreases nodes, 0
  {
    if nodes == [] then Edited([], false)
    else
      var inner := Remove(nodes[0].children, id);
      if inner.found then Edited([nodes[0].(children := inner.nodes)] + nodes[1..], true)
      else
        var rest := RemoveBelow(nodes[1..], id);
        Edited([nodes[0]] + rest.nodes, rest.found)
  }

  // Neither the node nor anything below it has the id.
  ghost predicate Misses(n: NavNode, id: string, f: NavNode -> NavNode) {
    n.id != id && !EditFirst(n.children, id, f).found
  }

  // What the edit comes to, once the scan of a level has reached position i.
  lemma {:induction false} EditAt(nodes: seq<NavNode>, i: nat, id: string, f: NavNode -> NavNode)
    requires i <= |nodes| && forall j | 0 <= j < i :: Misses(nodes[j], id, f)
    ensures i == |nodes| ==> EditFirst(nodes, id, f) == Edited(nodes, false)
    ensures i < |nodes| && nodes[i].id == id ==> EditFirst(nodes, id, f) == Edited(nodes[i := f(nodes[i])], true)
    ensures i < |nodes| && nodes[i].id != id ==>
              var inner := EditFirst(nodes[i].children, id, f);
              inner.found ==> EditFirst(nodes, id, f) == Edited(nodes[i := nodes[i].(children := inner.nodes)], true)
  {
    if i > 0 {
      assert Misses(nodes[0], id, f);
      EditAt(nodes[1..], i - 1, id, f);
    }
  }

  lemma {:induction false} RemoveAt(nodes: seq<NavNode>, i: nat, id: string)
    requires i <= |nodes| && forall j | 0 <= j < i :: !Remove(nodes[j].children, id).found
    ensures i == |nodes| ==> RemoveBelow(nodes, id) == Edited(nodes, false)
    ensures i < |nodes| ==>
              var inner := Remove(nodes[i].children, id);
              inner.found ==> RemoveBelow(nodes, id) == Edited(nodes[i := nodes[i].(children := inner.nodes)], true)
  {
    if i > 0 {
      assert !Remove(nodes[0].children, id).found;
      RemoveAt(nodes[1..], i - 1, id);
    }
  }

  method InsertNavChild(nodes: seq<NavNode>, parentId: string, child: NavNode)
    returns (r: seq<NavNode>, found: bool)
    ensures Edited(r, found) == EditFirst(nodes, parentId, n => WithChild(n, child))
    decreases nodes
  {
    ghost var f := n => WithChild(n, child);
    for i := 0 to |nodes|
      invariant forall j | 0 <= j < i :: Misses(nodes[j], parentId, f)
    {
      EditAt(nodes, i, parentId, f);
      var node := nodes[i];
      if node.id == parentId {
        return nodes[i := WithChild(node, child)], true;
      }
      var children, inside := InsertNavChild(node.children, parentId, child);
      if inside {
        return nodes[i := node.(children := children)], true;
      }
    }
    EditAt(nodes, |nodes|, parentId, f);
    r, found := nodes, false;
  }

  method UpdateNavNode(nodes: seq<NavNode>, targetId: string, caption: string, kind: NavNodeKind)
    returns (r: seq<NavNode>, found: bool)
    ensures Edited(r, found) == EditFirst(nodes, targetId, n => WithLabel(n, caption, kind))
    decreases nodes
  {
    ghost var f := n => WithLabel(n, caption, kind);
    for i := 0 to |nodes|
      invariant forall j | 0 <= j < i :: Misses(nodes[j], targetId, f)
    {
      EditAt(nodes, i, targetId, f);
      var node := nodes[i];
      if node.id == targetId {
        return nodes[i := WithLabel(node, caption, kind)], true;
      }
      var children, inside := UpdateNavNode(node.children, targetId, caption, kind);
      if inside {
        return nodes[i := node.(children := children)], true;
      }
    }
    EditAt(nodes, |nodes|, targetId, f);
    r, found := nodes, false;
  }

  method RemoveNavNode(nodes: seq<NavNode>, targetId: string) returns (r: seq<NavNode>, found: bool)
    ensures Edited(r, found) == Remove(nodes, targetId)
    decreases nodes
  {
    for i := 0 to |nodes|
      invariant forall j | 0 <= j < i :: nodes[j].id != targetId
    {
      if nodes[i].id == targetId {
        return nodes[..i] + nodes[i + 1..], true;
      }
    }
    for i := 0 to |nodes|
      invariant forall j | 0 <= j < i :: !Remove(nodes[j].children, targetId).found
    {
      RemoveAt(nodes, i, targetId);
      var children, inside := RemoveNavNode(nodes[i].children, targetId);
      if inside {
        return nodes[i := nodes[i].(children := children)], true;
      }
    }
    RemoveAt(nodes, |nodes|, targetId);
    r, found := nodes, false;
  }

  // ----- when an edit succeeds, and what it adds and takes away -----

  lemma FirstAndRest(nodes: seq<NavNode>)
    requires nodes != []
    ensures [nodes[0]] + nodes[1..] == nodes
  {
  }

  lemma {:induction false} EditFindsExactly(nodes: seq<NavNode>, id: string, f: NavNode -> NavNode)
    ensures EditFirst(nodes, id, f).found <==> Count(nodes, id) > 0
    ensures !EditFirst(nodes, id, f).found ==> EditFirst(nodes, id, f).nodes == nodes
    decreases nodes
  {
    if nodes != [] {
      EditFindsExactly(nodes[0].children, id, f);
      EditFindsExactly(nodes[1..], id, f);
      FirstAndRest(nodes);
    }
  }

  lemma {:induction false} CountOfConcat(a: seq<NavNode>, b: seq<NavNode>, id: string)
    ensures Count(a + b, id) == Count(a, id) + Count(b, id)
  {
    if a == [] {
      assert a + b == b;
    } else {
      CountOfConcat(a[1..], b, id);
      assert (a + b)[0] == a[0] && (a + b)[1..] == a[1..] + b;
    }
  }

  // Inserting adds the ids of the child's whole subtree and no other.
  lemma {:induction false} InsertAddsIds(nodes: seq<NavNode>, parentId: string, child: NavNode, id: string)
    requires Count(nodes, parentId) > 0
    ensures Count(EditFirst(nodes, parentId, n => WithChild(n, child)).nodes, id)
         == Count(nodes, id) + Count([child], id)
    decreases nodes
  {
    var f := n => WithChild(n, child);
    var first, rest := nodes[0], nodes[1..];
    EditFindsExactly(first.children, parentId, f);
    if first.id == parentId {
      CountOfConcat(first.children, [child], id);
      CountOfFirst(WithChild(first, child), rest, id);
    } else if Count(first.children, parentId) > 0 {
      InsertAddsIds(first.children, parentId, child, id);
      CountOfFirst(first.(children := EditFirst(first.children, parentId, f).nodes), rest, id);
    } else {
      InsertAddsIds(rest, parentId, child, id);
      CountOfFirst(first, EditFirst(rest, parentId, f).nodes, id);
    }
  }

  lemma {:induction false} UpdateKeepsIds(
      nodes: seq<NavNode>, target: string, caption: string, kind: NavNodeKind, id: string)
    ensures Count(EditFirst(nodes, target, n => WithLabel(n, caption, kind)).nodes, id) == Count(nodes, id)
    decreases nodes
  {
    var f := n => WithLabel(n, caption, kind);
    if nodes != [] {
      var first, rest := nodes[0], nodes[1..];
      UpdateKeepsIds(first.children, target, caption, kind, id);
      UpdateKeepsIds(rest, target, caption, kind, id);
      CountOfFirst(f(first), rest, id);
      CountOfFirst(first.(children := EditFirst(first.children, target, f).nodes), rest, id);
      CountOfFirst(first, EditFirst(rest, target, f).nodes, id);
    }
  }

  lemma CountOfFirst(first: NavNode, rest: seq<NavNode>, id: string)
    ensures Count([first] + rest, id)
         == (if first.id == id then 1 else 0) + Count(first.children, id) + Count(rest, id)
  {
  }

  lemma {:induction false} TopLevelCounts(nodes: seq<NavNode>, i: nat)
    requires i < |nodes|
    ensures Count(nodes, nodes[i].id) > 0
  {
    if i > 0 {
      TopLevelCounts(nodes[1..], i - 1);
    }
  }

  lemma {:induction false} RemoveFindsExactly(nodes: seq<NavNode>, id: string)
    ensures Remove(nodes, id).found <==> Count(nodes, id) > 0
    ensures !Remove(nodes, id).found ==> Remove(nodes, id).nodes == nodes
    decreases nodes, 1
  {
    var i := PositionOf(nodes, id);
    if i < |nodes| {
      TopLevelCounts(nodes, i);
    } else {
      RemoveBelowFindsExactly(nodes, id);
    }
  }

  lemma {:induction false} RemoveBelowFindsExactly(nodes: seq<NavNode>, id: string)
    requires forall n <- nodes :: n.id != id
    ensures RemoveBelow(nodes, id).found <==> Count(nodes, id) > 0
    ensures !RemoveBelow(nodes, id).found ==> RemoveBelow(nodes, id).nodes == nodes
    decreases nodes, 0
  {
    if nodes != [] {
      RemoveFindsExactly(nodes[0].children, id);
      RemoveBelowFindsExactly(nodes[1..], id);
    }
  }

  function FindNodeLabel(nodes: seq<NavNode>, id: string): Option<string>
    decreases nodes
  {
    if nodes == [] then None
    else if nodes[0].id == id then Some(nodes[0].caption)
    else
      var inner := FindNodeLabel(nodes[0].children, id);
      if inner.Some? then inner else FindNodeLabel(nodes[1..], id)
  }

  lemma {:induction false} FindsLabelExactly(nodes: seq<NavNode>, id: string)
    ensures FindNodeLabel(nodes, id).Some? <==> Count(nodes, id) > 0
    decreases nodes
  {
    if nodes != [] {
      FindsLabelExactly(nodes[0].children, id);
      FindsLabelExactly(nodes[1..], id);
    }
  }

  // A changed label is the one that is found afterwards, and no other label changes.
  lemma {:induction false} FindAfterUpdate(
      nodes: seq<NavNode>, target: string, caption: string, kind: NavNodeKind, id: string)
    ensures var updated := EditFirst(nodes, target, n => WithLabel(n, caption, kind)).nodes;
            FindNodeLabel(updated, id)
            == if id == target && Count(nodes, target) > 0 then Some(caption) else FindNodeLabel(nodes, id)
    decreases nodes
  {
    var f := n => WithLabel(n, caption, kind);
    if nodes != [] {
      var first, rest := nodes[0], nodes[1..];
      FindAfterUpdate(first.children, target, caption, kind, id);
      FindAfterUpdate(rest, target, caption, kind, id);
      EditFindsExactly(first.children, target, f);
      FindsLabelExactly(first.children, id);
      var updated := EditFirst(nodes, target, f).nodes;
      assert first.id == target || EditFirst(first.children, target, f).found ==> updated[1..] == rest;
      assert updated[1..] == rest || updated[1..] == EditFirst(rest, target, f).nodes;
    }
  }

  // The first node in document order that has the id.
  ghost function FindNode(nodes: seq<NavNode>, id: string): Option<NavNode>
    decreases nodes
  {
    if nodes == [] then None
    else if nodes[0].id == id then Some(nodes[0])
    else
      var inner := FindNode(nodes[0].children, id);
      if inner.Some? then inner else FindNode(nodes[1..], id)
  }

  lemma {:induction false} FindsNodeExactly(nodes: seq<NavNode>, id: string)
    ensures FindNode(nodes, id).Some? <==> Count(nodes, id) > 0
    decreases nodes
  {
    if nodes != [] {
      FindsNodeExactly(nodes[0].children, id);
      FindsNodeExactly(nodes[1..], id);
    }
  }

  // The label that is found is that node's.
  lemma {:induction false} LabelOfFirst(nodes: seq<NavNode>, id: string)
    ensures FindNodeLabel(nodes, id) == match FindNode(nodes, id) case None => None case Some(n) => Some(n.caption)
    decreases nodes
  {
    if nodes != [] {
      LabelOfFirst(nodes[0].children, id);
      LabelOfFirst(nodes[1..], id);
    }
  }

  // An edit that keeps the id of the node is what the node is found with afterwards.
  lemma {:induction false} FoundAfterEdit(nodes: seq<NavNode>, id: string, f: NavNode -> NavNode)
    requires forall n: NavNode | n.id == id :: f(n).id == id
    ensures var before, after := FindNode(nodes, id), FindNode(EditFirst(nodes, id, f).nodes, id);
            after == match before case None => None case Some(n) => Some(f(n))
    decreases nodes
  {
    if nodes != [] {
      var first, rest := nodes[0], nodes[1..];
      FoundAfterEdit(first.children, id, f);
      FoundAfterEdit(rest, id, f);
      EditFindsExactly(first.children, id, f);
      FindsNodeExactly(first.children, id);
      var edited := EditFirst(nodes, id, f).nodes;
      assert edited[1..] == rest || edited[1..] == EditFirst(rest, id, f).nodes;
    }
  }

  // An update changes label and kind of the node, and nothing else of it; an insert puts the child behind
  // the children that are there.
  lemma EditsSpelledOut(nodes: seq<NavNode>, id: string, caption: string, kind: NavNodeKind, child: NavNode)
    requires Count(nodes, id) > 0
    ensures FindNode(nodes, id).Some?
    ensures var n := FindNode(nodes, id).value;
            && FindNode(EditFirst(nodes, id, m => WithLabel(m, caption, kind)).nodes, id)
                 == Some(NavNode(n.id, caption, kind, n.children))
            && FindNode(EditFirst(nodes, id, m => WithChild(m, child)).nodes, id)
                 == Some(NavNode(n.id, n.caption, n.kind, n.children + [child]))
  {
    FindsNodeExactly(nodes, id);
    FoundAfterEdit(nodes, id, m => WithLabel(m, caption, kind));
    FoundAfterEdit(nodes, id, m => WithChild(m, child));
  }

  // ----- with unique ids, the first node that has the id is every node that has it -----

  ghost function EditAll(nodes: seq<NavNode>, id: string, f: NavNode -> NavNode): seq<NavNode>
    decreases nodes
  {
    if nodes == [] then []
    else
      var n := nodes[0].(children := EditAll(nodes[0].children, id, f));
      [if n.id == id then f(n) else n] + EditAll(nodes[1..], id, f)
  }

  ghost function RemoveAll(nodes: seq<NavNode>, id: string): seq<NavNode>
    decreases nodes
  {
    if nodes == [] then []
    else
      var rest := RemoveAll(nodes[1..], id);
      if nodes[0].id == id then rest else [nodes[0].(children := RemoveAll(nodes[0].children, id))] + rest
  }

  lemma {:induction false} NothingToEdit(nodes: seq<NavNode>, id: string, f: NavNode -> NavNode)
    requires Count(nodes, id) == 0
    ensures EditAll(nodes, id, f) == nodes && RemoveAll(nodes, id) == nodes
    decreases nodes
  {
    if nodes != [] {
      NothingToEdit(nodes[0].children, id, f);
      NothingToEdit(nodes[1..], id, f);
    }
  }

  lemma {:induction false} EditFirstIsEditAll(nodes: seq<NavNode>, id: string, f: NavNode -> NavNode)
    requires Count(nodes, id) <= 1
    ensures EditFirst(nodes, id, f).nodes == EditAll(nodes, id, f)
    decreases nodes
  {
    if nodes != [] {
      var first, rest := nodes[0], nodes[1..];
      EditFindsExactly(first.children, id, f);
      EditFirstIsEditAll(first.children, id, f);
      EditFirstIsEditAll(rest, id, f);
      if Count(first.children, id) == 0 {
        NothingToEdit(first.children, id, f);
      }
      if Count(rest, id) == 0 {
        NothingToEdit(rest, id, f);
      }
    }
  }

  lemma {:induction false} RemoveAllAt(nodes: seq<NavNode>, i: nat, id: string)
    requires Count(nodes, id) <= 1 && i < |nodes| && nodes[i].id == id
    ensures RemoveAll(nodes, id) == nodes[..i] + nodes[i + 1..]
  {
    var rest := nodes[1..];
    if i == 0 {
      NothingToEdit(rest, id, n => n);
    } else {
      TopLevelCounts(rest, i - 1);
      NothingToEdit(nodes[0].children, id, n => n);
      RemoveAllAt(rest, i - 1, id);
    }
  }

  lemma {:induction false} RemoveIsRemoveAll(nodes: seq<NavNode>, id: string)
    requires Count(nodes, id) <= 1
    ensures Remove(nodes, id).nodes == RemoveAll(nodes, id)
    decreases nodes, 1
  {
    var i := PositionOf(nodes, id);
    if i < |nodes| {
      RemoveAllAt(nodes, i, id);
    } else {
      RemoveBelowIsRemoveAll(nodes, id);
    }
  }

  lemma {:induction false} RemoveBelowIsRemoveAll(nodes: seq<NavNode>, id: string)
    requires Count(nodes, id) <= 1
    requires forall n <- nodes :: n.id != id
    ensures RemoveBelow(nodes, id).nodes == RemoveAll(nodes, id)
    decreases nodes, 0
  {
    if nodes != [] {
      var first, rest := nodes[0], nodes[1..];
      RemoveFindsExactly(first.children, id);
      RemoveIsRemoveAll(first.children, id);
      RemoveBelowIsRemoveAll(rest, id);
      if Count(first.children, id) == 0 {
        NothingToEdit(first.children, id, n => n);
      }
      if Count(rest, id) == 0 {
        NothingToEdit(rest, id, n => n);
      }
    }
  }

  // Where an id occurs more than once, a node of the level itself goes first, however deep the others are.
  lemma RemoveTakesLevelFirst(nodes: seq<NavNode>, id: string, i: nat)
    requires i < |nodes| && nodes[i].id == id && forall j | 0 <= j < i :: nodes[j].id != id
    ensures Remove(nodes, id) == Edited(nodes[..i] + nodes[i + 1..], true)
  {
    assert PositionOf(nodes, id) == i;
  }

  // ----- removing undoes inserting -----

  lemma {:induction false} RemoveLast(nodes: seq<NavNode>, child: NavNode)
    requires Count(nodes, child.id) == 0
    ensures Remove(nodes + [child], child.id) == Edited(nodes, true)
  {
    var all := nodes + [child];
    var i := PositionOf(all, child.id);
    assert all[|nodes|] == child;
    if i < |nodes| {
      TopLevelCounts(nodes, i);
    }
    assert all[..|nodes|] == nodes && all[|nodes| + 1..] == [];
  }

  // Whatever the ids of the forest look like, as long as the child's own id is not among them.
  lemma {:induction false} RemoveUndoesInsert(nodes: seq<NavNode>, parentId: string, child: NavNode)
    requires Count(nodes, child.id) == 0
    ensures var inserted := EditFirst(nodes, parentId, n => WithChild(n, child));
            Remove(inserted.nodes, child.id) == Edited(nodes, inserted.found)
    decreases nodes, 1
  {
    var f := n => WithChild(n, child);
    EditFindsExactly(nodes, parentId, f);
    if EditFirst(nodes, parentId, f).found {
      RemoveBelowUndoesInsert(nodes, parentId, child);
    } else {
      RemoveFindsExactly(nodes, child.id);
    }
  }

  lemma {:induction false} RemoveBelowUndoesInsert(nodes: seq<NavNode>, parentId: string, child: NavNode)
    requires Count(nodes, child.id) == 0
    requires EditFirst(nodes, parentId, n => WithChild(n, child)).found
    ensures var inserted := EditFirst(nodes, parentId, n => WithChild(n, child)).nodes;
            (forall n <- inserted :: n.id != child.id) && RemoveBelow(inserted, child.id) == Edited(nodes, true)
    decreases nodes, 0
  {
    var f := n => WithChild(n, child);
    var first, rest := nodes[0], nodes[1..];
    forall i | 0 <= i < |nodes| ensures nodes[i].id != child.id {
      TopLevelCounts(nodes, i);
    }
    var inserted := EditFirst(nodes, parentId, f).nodes;
    if first.id == parentId {
      RemoveLast(first.children, child);
      assert inserted[0] == WithChild(first, child) && inserted[1..] == rest;
    } else {
      RemoveUndoesInsert(first.children, parentId, child);
      var inner := EditFirst(first.children, parentId, f);
      if inner.found {
        assert inserted[0] == first.(children := inner.nodes) && inserted[1..] == rest;
      } else {
        EditFindsExactly(first.children, parentId, f);
        RemoveBelowUndoesInsert(rest, parentId, child);
        assert inserted[0] == first && inserted[1..] == EditFirst(rest, parentId, f).nodes;
      }
    }
  }
}
