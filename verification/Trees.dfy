/** Element trees: membership, parent links, focus, and the recursive relabelling passes. */
module Trees {
  import opened Wrappers
  import opened Domain

  /** Some node of the tree has this id. */
  predicate Contains(node: ElementNode, id: ElementId) {
    node.elementId == id || exists i | 0 <= i < |node.children| :: Contains(node.children[i], id)
  }

  /** Every node names its actual parent. */
  predicate WellParented(node: ElementNode, parentId: Option<ElementId>) {
    node.parentId == parentId
    && forall i | 0 <= i < |node.children| :: WellParented(node.children[i], Some(node.elementId))
  }

  ghost predicate Disjoint(a: ElementNode, b: ElementNode) {
    forall id :: !(Contains(a, id) && Contains(b, id))
  }

  /** No two nodes of the tree share an id. */
  ghost predicate UniqueElementIds(node: ElementNode) {
    && (forall i | 0 <= i < |node.children| ::
      UniqueElementIds(node.children[i]) && !Contains(node.children[i], node.elementId))
    && (forall i, j | 0 <= i < j < |node.children| :: Disjoint(node.children[i], node.children[j]))
  }

  predicate InForest(nodes: seq<ElementNode>, id: ElementId) {
    exists i | 0 <= i < |nodes| :: Contains(nodes[i], id)
  }

  ghost predicate ForestUnique(nodes: seq<ElementNode>) {
    && (forall i | 0 <= i < |nodes| :: UniqueElementIds(nodes[i]))
    && forall i, j | 0 <= i < j < |nodes| :: Disjoint(nodes[i], nodes[j])
  }

  function Reparent(node: ElementNode, parentId: Option<ElementId>): ElementNode {
    node.(parentId := parentId,
          children := seq(|node.children|, i requires 0 <= i < |node.children| =>
            Reparent(node.children[i], Some(node.elementId))))
  }

  function WithFocused(node: ElementNode, focused: bool): ElementNode {
    node.(states := node.states.(focused := focused))
  }

  function ClearFocus(node: ElementNode): ElementNode {
    WithFocused(node, false).(children := seq(|node.children|, i requires 0 <= i < |node.children| =>
      ClearFocus(node.children[i])))
  }

  /** The id of the first focused node in preorder. */
  function FocusedElementId(node: ElementNode): Option<ElementId>
    decreases node, 1
  {
    if node.states.focused then Some(node.elementId) else FocusedInForest(node.children)
  }

  function FocusedInForest(nodes: seq<ElementNode>): Option<ElementId>
    decreases nodes, 0
  {
    if nodes == [] then None
    else
      match FocusedElementId(nodes[0])
      case Some(id) => Some(id)
      case None => FocusedInForest(nodes[1..])
  }

  function FocusCount(node: ElementNode): nat
    decreases node, 1
  {
    (if node.states.focused then 1 else 0) + ForestFocusCount(node.children)
  }

  function ForestFocusCount(nodes: seq<ElementNode>): nat
    decreases nodes, 0
  {
    if nodes == [] then 0 else FocusCount(nodes[0]) + ForestFocusCount(nodes[1..])
  }

  /** `Reparent` establishes the parent links from the given parent down. */
  lemma {:induction false} ReparentIsWellParented(node: ElementNode, parentId: Option<ElementId>)
    ensures WellParented(Reparent(node, parentId), parentId)
  {
    forall i | 0 <= i < |node.children|
      ensures WellParented(Reparent(node.children[i], Some(node.elementId)), Some(node.elementId))
    {
      ReparentIsWellParented(node.children[i], Some(node.elementId));
    }
  }

  /** A tree that is already well parented is left alone. */
  lemma {:induction false} ReparentOfWellParented(node: ElementNode, parentId: Option<ElementId>)
    requires WellParented(node, parentId)
    ensures Reparent(node, parentId) == node
  {
    forall i | 0 <= i < |node.children|
      ensures Reparent(node.children[i], Some(node.elementId)) == node.children[i]
    {
      ReparentOfWellParented(node.children[i], Some(node.elementId));
    }
    assert Reparent(node, parentId).children == node.children;
  }

  lemma {:induction false} ClearFocusKeepsShape(node: ElementNode, parentId: Option<ElementId>)
    requires WellParented(node, parentId)
    ensures WellParented(ClearFocus(node), parentId)
  {
    forall i | 0 <= i < |node.children|
      ensures WellParented(ClearFocus(node.children[i]), Some(node.elementId))
    {
      ClearFocusKeepsShape(node.children[i], Some(node.elementId));
    }
  }

  lemma {:induction false} ClearFocusLeavesNone(node: ElementNode)
    ensures FocusCount(ClearFocus(node)) == 0
  {
    var cleared := ClearFocus(node).children;
    forall i | 0 <= i < |cleared| ensures FocusCount(cleared[i]) == 0 {
      ClearFocusLeavesNone(node.children[i]);
    }
    NoFocusInForest(cleared);
  }

  lemma {:induction false} NoFocusInForest(nodes: seq<ElementNode>)
    requires forall i | 0 <= i < |nodes| :: FocusCount(nodes[i]) == 0
    ensures ForestFocusCount(nodes) == 0
  {
    if nodes != [] { NoFocusInForest(nodes[1..]); }
  }

  /** Clearing focus in a tree without focus changes nothing. */
  lemma {:induction false} ClearFocusOfUnfocused(node: ElementNode)
    requires FocusCount(node) == 0
    ensures ClearFocus(node) == node
  {
    forall i | 0 <= i < |node.children| ensures ClearFocus(node.children[i]) == node.children[i] {
      ForestFocusCountBounds(node.children, i);
      ClearFocusOfUnfocused(node.children[i]);
    }
    assert ClearFocus(node).children == node.children;
  }

  lemma {:induction false} ForestFocusCountBounds(nodes: seq<ElementNode>, i: nat)
    requires i < |nodes|
    ensures FocusCount(nodes[i]) <= ForestFocusCount(nodes)
  {
    if i > 0 { ForestFocusCountBounds(nodes[1..], i - 1); }
  }

  /** A tree has a first focused node exactly when it has a focused node. */
  lemma {:induction false} FocusedIffCounted(node: ElementNode)
    ensures FocusedElementId(node).Some? <==> FocusCount(node) > 0
    ensures FocusedElementId(node).Some? ==> Contains(node, FocusedElementId(node).value)
    decreases node, 1
  {
    if !node.states.focused { FocusedInForestIffCounted(node.children); }
  }

  lemma {:induction false} FocusedInForestIffCounted(nodes: seq<ElementNode>)
    ensures FocusedInForest(nodes).Some? <==> ForestFocusCount(nodes) > 0
    ensures FocusedInForest(nodes).Some? ==>
      exists i | 0 <= i < |nodes| :: Contains(nodes[i], FocusedInForest(nodes).value)
    decreases nodes, 0
  {
    if nodes != [] {
      FocusedIffCounted(nodes[0]);
      FocusedInForestIffCounted(nodes[1..]);
      if FocusedElementId(nodes[0]).Some? {
        assert Contains(nodes[0], FocusedInForest(nodes).value);
      } else if FocusedInForest(nodes[1..]).Some? {
        var i :| 0 <= i < |nodes[1..]| && Contains(nodes[1..][i], FocusedInForest(nodes).value);
        assert Contains(nodes[i + 1], FocusedInForest(nodes).value);
      }
    }
  }

  lemma InForestCons(first: ElementNode, rest: seq<ElementNode>, id: ElementId)
    ensures InForest([first] + rest, id) <==> Contains(first, id) || InForest(rest, id)
  {
    var all := [first] + rest;
    if Contains(first, id) { assert Contains(all[0], id); }
    if j :| 0 <= j < |rest| && Contains(rest[j], id) { assert Contains(all[j + 1], id); }
  }

  // ---------------------------------------------------------- annotated trees

  function WithoutProperties(node: ElementNode): ElementNode {
    node.(properties := map[],
          children := seq(|node.children|, i requires 0 <= i < |node.children| => WithoutProperties(node.children[i])))
  }

  /** One tree is the other with properties added, changed or removed. */
  predicate SameButProperties(a: ElementNode, b: ElementNode) {
    WithoutProperties(a) == WithoutProperties(b)
  }

  lemma SameButPropertiesParts(a: ElementNode, b: ElementNode)
    requires SameButProperties(a, b)
    ensures a.(properties := b.properties, children := b.children) == b
    ensures |a.children| == |b.children|
    ensures forall i | 0 <= i < |a.children| :: SameButProperties(a.children[i], b.children[i])
  {
    var x, y := WithoutProperties(a), WithoutProperties(b);
    forall i | 0 <= i < |a.children| ensures SameButProperties(a.children[i], b.children[i]) {
      assert x.children[i] == y.children[i];
    }
    assert |a.children| == |x.children| == |y.children| == |b.children|;
  }

  /** Annotating moves no id, no parent link and no focus. */
  lemma {:induction false} AnnotatingKeepsIds(a: ElementNode, b: ElementNode, id: ElementId)
    requires SameButProperties(a, b)
    ensures Contains(a, id) <==> Contains(b, id)
  {
    SameButPropertiesParts(a, b);
    forall i | 0 <= i < |a.children| ensures Contains(a.children[i], id) <==> Contains(b.children[i], id) {
      AnnotatingKeepsIds(a.children[i], b.children[i], id);
    }
  }

  lemma {:induction false} AnnotatingKeepsParents(a: ElementNode, b: ElementNode, parentId: Option<ElementId>)
    requires SameButProperties(a, b)
    ensures WellParented(a, parentId) <==> WellParented(b, parentId)
  {
    SameButPropertiesParts(a, b);
    forall i | 0 <= i < |a.children|
      ensures WellParented(a.children[i], Some(a.elementId)) <==> WellParented(b.children[i], Some(b.elementId))
    {
      AnnotatingKeepsParents(a.children[i], b.children[i], Some(a.elementId));
    }
  }
}
