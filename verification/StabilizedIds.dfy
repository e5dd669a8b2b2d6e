/**
 Whether stabilizing keeps element ids unique: matched nodes reuse earlier ids, unmatched
 subtrees keep the ids of the capture, and only a clash between the two repeats an id.
 */
module StabilizedIds {
  import opened Wrappers
  import opened Domain
  import opened Trees
  import opened StoreLaws
  import opened Stabilization

  /** A matched node takes this id over from the earlier tree. */
  predicate Reused(previous: ElementNode, current: ElementNode, id: ElementId)
    decreases current, 1
  {
    previous.elementId == id || ReusedBelow(previous.children, current.children, {}, id)
  }

  predicate ReusedBelow(previous: seq<ElementNode>, current: seq<ElementNode>, used: set<nat>, id: ElementId)
    decreases current, 0
  {
    current != [] &&
    match Best(ElementScores(previous, current[0]), used)
    case Some(i) => Reused(previous[i], current[0], id) || ReusedBelow(previous, current[1..], used + {i}, id)
    case None => ReusedBelow(previous, current[1..], used, id)
  }

  /** A node of an unmatched subtree keeps this id from the capture. */
  predicate Kept(previous: ElementNode, current: ElementNode, id: ElementId)
    decreases current, 1
  {
    KeptBelow(previous.children, current.children, {}, id)
  }

  predicate KeptBelow(previous: seq<ElementNode>, current: seq<ElementNode>, used: set<nat>, id: ElementId)
    decreases current, 0
  {
    current != [] &&
    match Best(ElementScores(previous, current[0]), used)
    case Some(i) => Kept(previous[i], current[0], id) || KeptBelow(previous, current[1..], used + {i}, id)
    case None => Contains(current[0], id) || KeptBelow(previous, current[1..], used, id)
  }

  lemma UniqueCons(first: ElementNode, rest: seq<ElementNode>)
    ensures ForestUnique([first] + rest)
      <==> UniqueElementIds(first) && ForestUnique(rest) && forall id :: !(Contains(first, id) && InForest(rest, id))
  {
    var all := [first] + rest;
    assert all[0] == first && forall j | 0 <= j < |rest| :: all[j + 1] == rest[j];
    if ForestUnique(all) {
      forall id | InForest(rest, id) ensures !Contains(first, id) {
        var j :| 0 <= j < |rest| && Contains(rest[j], id);
        assert Disjoint(all[0], all[j + 1]);
      }
      forall i | 0 <= i < |rest| ensures UniqueElementIds(rest[i]) { assert UniqueElementIds(all[i + 1]); }
      forall i, j | 0 <= i < j < |rest| ensures Disjoint(rest[i], rest[j]) {
        assert Disjoint(all[i + 1], all[j + 1]);
      }
    }
    if UniqueElementIds(first) && ForestUnique(rest) && forall id :: !(Contains(first, id) && InForest(rest, id)) {
      forall i, j | 0 <= i < j < |all| ensures Disjoint(all[i], all[j]) {
        if i > 0 { assert Disjoint(rest[i - 1], rest[j - 1]); }
      }
    }
  }

  lemma {:induction false} ReparentKeepsIds(node: ElementNode, parentId: Option<ElementId>, id: ElementId)
    ensures Contains(Reparent(node, parentId), id) <==> Contains(node, id)
  {
    forall i | 0 <= i < |node.children|
      ensures Contains(Reparent(node, parentId).children[i], id) <==> Contains(node.children[i], id)
    {
      ReparentKeepsIds(node.children[i], Some(node.elementId), id);
    }
  }

  lemma {:induction false} ReparentKeepsUnique(node: ElementNode, parentId: Option<ElementId>)
    ensures UniqueElementIds(Reparent(node, parentId)) <==> UniqueElementIds(node)
  {
    var moved := Reparent(node, parentId);
    forall i | 0 <= i < |node.children|
      ensures UniqueElementIds(moved.children[i]) <==> UniqueElementIds(node.children[i])
      ensures forall id :: Contains(moved.children[i], id) <==> Contains(node.children[i], id)
    {
      ReparentKeepsUnique(node.children[i], Some(node.elementId));
      forall id ensures Contains(moved.children[i], id) <==> Contains(node.children[i], id) {
        ReparentKeepsIds(node.children[i], Some(node.elementId), id);
      }
    }
  }

  /** The ids of a stabilized tree are the reused ones and the kept ones. */
  lemma {:induction false} StabilizedIdsAre(previous: ElementNode, current: ElementNode, parentId: Option<ElementId>,
                                            id: ElementId)
    ensures Contains(StabilizedElement(previous, current, parentId), id)
      <==> Reused(previous, current, id) || Kept(previous, current, id)
    decreases current, 1
  {
    StabilizedForestIdsAre(previous.children, current.children, {}, previous.elementId, id);
  }

  lemma {:induction false} StabilizedForestIdsAre(previous: seq<ElementNode>, current: seq<ElementNode>, used: set<nat>,
                                                  ownerId: ElementId, id: ElementId)
    ensures InForest(StabilizedChildren(previous, current, used, ownerId), id)
      <==> ReusedBelow(previous, current, used, id) || KeptBelow(previous, current, used, id)
    decreases current, 0
  {
    if current != [] {
      match Best(ElementScores(previous, current[0]), used)
      case Some(i) =>
        StabilizedIdsAre(previous[i], current[0], Some(ownerId), id);
        StabilizedForestIdsAre(previous, current[1..], used + {i}, ownerId, id);
        InForestCons(StabilizedElement(previous[i], current[0], Some(ownerId)),
                     StabilizedChildren(previous, current[1..], used + {i}, ownerId), id);
      case None =>
        ReparentKeepsIds(current[0], Some(ownerId), id);
        StabilizedForestIdsAre(previous, current[1..], used, ownerId, id);
        InForestCons(Reparent(current[0], Some(ownerId)), StabilizedChildren(previous, current[1..], used, ownerId), id);
    }
  }

  /** Reused ids come from the earlier tree, from children not taken before. */
  lemma {:induction false} ReusedIsEarlier(previous: ElementNode, current: ElementNode, id: ElementId)
    ensures Reused(previous, current, id) ==> Contains(previous, id)
    decreases current, 1
  {
    ReusedBelowIsEarlier(previous.children, current.children, {}, id);
  }

  lemma {:induction false} ReusedBelowIsEarlier(previous: seq<ElementNode>, current: seq<ElementNode>, used: set<nat>,
                                                id: ElementId)
    ensures ReusedBelow(previous, current, used, id) ==>
      exists i: nat | i < |previous| :: i !in used && Contains(previous[i], id)
    decreases current, 0
  {
    if current != [] {
      match Best(ElementScores(previous, current[0]), used)
      case Some(i) =>
        ReusedIsEarlier(previous[i], current[0], id);
        ReusedBelowIsEarlier(previous, current[1..], used + {i}, id);
      case None => ReusedBelowIsEarlier(previous, current[1..], used, id);
    }
  }

  /** Kept ids come from the capture. */
  lemma {:induction false} KeptIsCaptured(previous: ElementNode, current: ElementNode, id: ElementId)
    ensures Kept(previous, current, id) ==> InForest(current.children, id)
    decreases current, 1
  {
    KeptBelowIsCaptured(previous.children, current.children, {}, id);
  }

  lemma {:induction false} KeptBelowIsCaptured(previous: seq<ElementNode>, current: seq<ElementNode>, used: set<nat>,
                                               id: ElementId)
    ensures KeptBelow(previous, current, used, id) ==> InForest(current, id)
    decreases current, 0
  {
    if current != [] {
      InForestCons(current[0], current[1..], id);
      assert current == [current[0]] + current[1..];
      match Best(ElementScores(previous, current[0]), used)
      case Some(i) =>
        KeptIsCaptured(previous[i], current[0], id);
        KeptBelowIsCaptured(previous, current[1..], used + {i}, id);
      case None => KeptBelowIsCaptured(previous, current[1..], used, id);
    }
  }

  /** The id is both reused and kept. */
  predicate Clash(previous: ElementNode, current: ElementNode, id: ElementId) {
    Reused(previous, current, id) && Kept(previous, current, id)
  }

  predicate ClashBelow(previous: seq<ElementNode>, current: seq<ElementNode>, used: set<nat>, id: ElementId) {
    ReusedBelow(previous, current, used, id) && KeptBelow(previous, current, used, id)
  }

  lemma DistinctOwners(nodes: seq<ElementNode>, i: nat, id: ElementId)
    requires ForestUnique(nodes) && i < |nodes| && Contains(nodes[i], id)
    ensures forall j | 0 <= j < |nodes| && j != i :: !Contains(nodes[j], id)
  {
    forall j | 0 <= j < |nodes| && j != i ensures !Contains(nodes[j], id) {
      assert if i < j then Disjoint(nodes[i], nodes[j]) else Disjoint(nodes[j], nodes[i]);
    }
  }

  lemma HeadAndRestApart(previous: seq<ElementNode>, current: seq<ElementNode>, used: set<nat>, i: nat, id: ElementId)
    requires ForestUnique(previous) && current != [] && i < |previous|
    requires !(Contains(current[0], id) && InForest(current[1..], id))
    ensures !(Reused(previous[i], current[0], id) && ReusedBelow(previous, current[1..], used + {i}, id))
    ensures !(Kept(previous[i], current[0], id) && KeptBelow(previous, current[1..], used + {i}, id))
  {
    ReusedIsEarlier(previous[i], current[0], id);
    ReusedBelowIsEarlier(previous, current[1..], used + {i}, id);
    KeptIsCaptured(previous[i], current[0], id);
    KeptBelowIsCaptured(previous, current[1..], used + {i}, id);
    if Contains(previous[i], id) { DistinctOwners(previous, i, id); }
  }

  /** A clash with a matched head lies within it, within the rest, or repeats an id across the two. */
  lemma MatchedHeadClash(previous: seq<ElementNode>, current: seq<ElementNode>, used: set<nat>, ownerId: ElementId, i: nat,
                         id: ElementId)
    requires ForestUnique(previous) && current != []
    requires !(Contains(current[0], id) && InForest(current[1..], id))
    requires Best(ElementScores(previous, current[0]), used) == Some(i)
    ensures var first := StabilizedElement(previous[i], current[0], Some(ownerId));
      var rest := StabilizedChildren(previous, current[1..], used + {i}, ownerId);
      ClashBelow(previous, current, used, id) <==>
        || Clash(previous[i], current[0], id)
        || ClashBelow(previous, current[1..], used + {i}, id)
        || (Contains(first, id) && InForest(rest, id))
  {
    StabilizedIdsAre(previous[i], current[0], Some(ownerId), id);
    StabilizedForestIdsAre(previous, current[1..], used + {i}, ownerId, id);
    HeadAndRestApart(previous, current, used, i, id);
  }

  /** A clash with an unmatched head lies within the rest or repeats an id across the two. */
  lemma UnmatchedHeadClash(previous: seq<ElementNode>, current: seq<ElementNode>, used: set<nat>, ownerId: ElementId,
                           id: ElementId)
    requires current != [] && !(Contains(current[0], id) && InForest(current[1..], id))
    requires Best(ElementScores(previous, current[0]), used) == None
    ensures var first := Reparent(current[0], Some(ownerId));
      var rest := StabilizedChildren(previous, current[1..], used, ownerId);
      ClashBelow(previous, current, used, id) <==>
        ClashBelow(previous, current[1..], used, id) || (Contains(first, id) && InForest(rest, id))
  {
    ReparentKeepsIds(current[0], Some(ownerId), id);
    StabilizedForestIdsAre(previous, current[1..], used, ownerId, id);
    KeptBelowIsCaptured(previous, current[1..], used, id);
  }

  lemma {:induction false} StabilizedForestUniqueIff(previous: seq<ElementNode>, current: seq<ElementNode>, used: set<nat>,
                                                     ownerId: ElementId)
    requires ForestUnique(previous) && ForestUnique(current)
    ensures ForestUnique(StabilizedChildren(previous, current, used, ownerId))
      <==> forall id :: !ClashBelow(previous, current, used, id)
    decreases current, 0
  {
    if current != [] {
      assert current == [current[0]] + current[1..];
      UniqueCons(current[0], current[1..]);
      match Best(ElementScores(previous, current[0]), used)
      case Some(i) =>
        StabilizedIdsUniqueIff(previous[i], current[0], Some(ownerId));
        StabilizedForestUniqueIff(previous, current[1..], used + {i}, ownerId);
        UniqueCons(StabilizedElement(previous[i], current[0], Some(ownerId)),
                   StabilizedChildren(previous, current[1..], used + {i}, ownerId));
        forall id { MatchedHeadClash(previous, current, used, ownerId, i, id); }
      case None =>
        ReparentKeepsUnique(current[0], Some(ownerId));
        StabilizedForestUniqueIff(previous, current[1..], used, ownerId);
        UniqueCons(Reparent(current[0], Some(ownerId)), StabilizedChildren(previous, current[1..], used, ownerId));
        forall id { UnmatchedHeadClash(previous, current, used, ownerId, id); }
    }
  }

  /**
   Exact condition: stabilizing a capture with unique ids against a tree with unique ids gives
   unique ids if and only if no unmatched node's own id is one that a matched node took over.
   */
  lemma {:induction false} StabilizedIdsUniqueIff(previous: ElementNode, current: ElementNode, parentId: Option<ElementId>)
    requires UniqueElementIds(previous) && UniqueElementIds(current)
    ensures UniqueElementIds(StabilizedElement(previous, current, parentId))
      <==> forall id :: !Clash(previous, current, id)
    decreases current, 1
  {
    StabilizedForestUniqueIff(previous.children, current.children, {}, previous.elementId);
    StabilizedForestIdsAre(previous.children, current.children, {}, previous.elementId, previous.elementId);
    ReusedBelowIsEarlier(previous.children, current.children, {}, previous.elementId);
    UniqueByForest(StabilizedElement(previous, current, parentId));
    assert !ReusedBelow(previous.children, current.children, {}, previous.elementId);
    ClashAtRoot(previous, current, previous.elementId);
    forall id ensures ClashBelow(previous.children, current.children, {}, id) ==> Clash(previous, current, id)
      ensures Clash(previous, current, id) ==>
        ClashBelow(previous.children, current.children, {}, id)
        || (id == previous.elementId && Kept(previous, current, id))
    {
      ClashAtRoot(previous, current, id);
    }
  }

  lemma ClashAtRoot(previous: ElementNode, current: ElementNode, id: ElementId)
    ensures Clash(previous, current, id) <==>
      ClashBelow(previous.children, current.children, {}, id) || (id == previous.elementId && Kept(previous, current, id))
  {
  }

  lemma UniqueByForest(node: ElementNode)
    ensures UniqueElementIds(node) <==> ForestUnique(node.children) && !InForest(node.children, node.elementId)
  {
  }

  /** The clash does happen: a new sibling's own id may be the one its matched sibling takes over. */
  lemma NewSiblingMayRepeatId(previous: ElementNode, current: ElementNode, parentId: Option<ElementId>)
    requires |previous.children| == 1 && |current.children| == 2
    requires ElementMatchScore(previous.children[0], current.children[0]).Some?
    requires current.children[1].elementId == previous.children[0].elementId
    ensures !UniqueElementIds(StabilizedElement(previous, current, parentId))
  {
    var earlier, captured := previous.children, current.children;
    var scores := ElementScores(earlier, captured[0]);
    assert BestBelow(scores, {}, 0) == None;
    assert Best(scores, {}) == Some(0);
    var none: set<nat> := {};
    var owner := previous.elementId;
    var after := StabilizedChildren(earlier, captured, {}, owner);
    assert none + {0} == {0};
    assert after == [StabilizedElement(earlier[0], captured[0], Some(owner))]
                    + StabilizedChildren(earlier, captured[1..], {0}, owner);
    assert Best(ElementScores(earlier, captured[1..][0]), {0}) == None;
    assert StabilizedChildren(earlier, captured[1..], {0}, owner)[0] == Reparent(captured[1], Some(owner));
    assert Contains(after[0], earlier[0].elementId) && Contains(after[1], earlier[0].elementId);
    assert StabilizedElement(previous, current, parentId).children == after;
  }

  // ---------------------------------------------------------------- window ids

  /** A matched window takes this id over from the earlier inventory. */
  predicate TakenOver(previous: seq<WindowState>, current: seq<WindowState>, used: set<nat>, id: WindowId)
    decreases current
  {
    current != [] &&
    match Best(WindowScores(previous, current[0]), used)
    case Some(i) => previous[i].windowId == id || TakenOver(previous, current[1..], used + {i}, id)
    case None => TakenOver(previous, current[1..], used, id)
  }

  /** An unmatched window keeps this id from the capture. */
  predicate KeptWindow(previous: seq<WindowState>, current: seq<WindowState>, used: set<nat>, id: WindowId)
    decreases current
  {
    current != [] &&
    match Best(WindowScores(previous, current[0]), used)
    case Some(i) => KeptWindow(previous, current[1..], used + {i}, id)
    case None => current[0].windowId == id || KeptWindow(previous, current[1..], used, id)
  }

  lemma {:induction false} StabilizedWindowIdsAre(previous: seq<WindowState>, current: seq<WindowState>, used: set<nat>,
                                                  id: WindowId)
    ensures HasWindow(StabilizedWindows(previous, current, used), id)
      <==> TakenOver(previous, current, used, id) || KeptWindow(previous, current, used, id)
    decreases current
  {
    if current != [] {
      match Best(WindowScores(previous, current[0]), used)
      case Some(i) =>
        StabilizedWindowIdsAre(previous, current[1..], used + {i}, id);
        HasWindowCons(StabilizedWindow(previous[i], current[0]), StabilizedWindows(previous, current[1..], used + {i}), id);
      case None =>
        StabilizedWindowIdsAre(previous, current[1..], used, id);
        HasWindowCons(current[0], StabilizedWindows(previous, current[1..], used), id);
    }
  }

  lemma {:induction false} TakenIsEarlier(previous: seq<WindowState>, current: seq<WindowState>, used: set<nat>, id: WindowId)
    ensures TakenOver(previous, current, used, id) ==>
      exists i: nat | i < |previous| :: i !in used && previous[i].windowId == id
    decreases current
  {
    if current != [] {
      match Best(WindowScores(previous, current[0]), used)
      case Some(i) => TakenIsEarlier(previous, current[1..], used + {i}, id);
      case None => TakenIsEarlier(previous, current[1..], used, id);
    }
  }

  lemma {:induction false} KeptWindowIsCaptured(previous: seq<WindowState>, current: seq<WindowState>, used: set<nat>,
                                                id: WindowId)
    ensures KeptWindow(previous, current, used, id) ==> HasWindow(current, id)
    decreases current
  {
    if current != [] {
      HasWindowCons(current[0], current[1..], id);
      assert current == [current[0]] + current[1..];
      match Best(WindowScores(previous, current[0]), used)
      case Some(i) => KeptWindowIsCaptured(previous, current[1..], used + {i}, id);
      case None => KeptWindowIsCaptured(previous, current[1..], used, id);
    }
  }

  lemma UniqueIdsCons(first: WindowState, rest: seq<WindowState>)
    ensures UniqueWindowIds([first] + rest) <==> UniqueWindowIds(rest) && !HasWindow(rest, first.windowId)
  {
    var all := [first] + rest;
    assert all[1..] == rest;
    if UniqueWindowIds(all) { HeadIdIsNew(all); }
    if UniqueWindowIds(rest) && !HasWindow(rest, first.windowId) { PrependUnique(first, rest); }
  }

  /** Both taken over and kept. */
  predicate WindowClash(previous: seq<WindowState>, current: seq<WindowState>, used: set<nat>, id: WindowId) {
    TakenOver(previous, current, used, id) && KeptWindow(previous, current, used, id)
  }

  /** The head after stabilization, and what is used up behind it. */
  function HeadWindow(previous: seq<WindowState>, current: seq<WindowState>, used: set<nat>): WindowState
    requires current != []
  {
    match Best(WindowScores(previous, current[0]), used)
    case Some(i) => StabilizedWindow(previous[i], current[0])
    case None => current[0]
  }

  function UsedBehind(previous: seq<WindowState>, current: seq<WindowState>, used: set<nat>): set<nat>
    requires current != []
  {
    match Best(WindowScores(previous, current[0]), used)
    case Some(i) => used + {i}
    case None => used
  }

  /** A clash with the head in front lies within the rest, or repeats the head's new id there. */
  lemma HeadClash(previous: seq<WindowState>, current: seq<WindowState>, used: set<nat>, id: WindowId)
    requires UniqueWindowIds(previous) && UniqueWindowIds(current) && current != []
    ensures var behind := UsedBehind(previous, current, used);
      WindowClash(previous, current, used, id) <==>
        || WindowClash(previous, current[1..], behind, id)
        || (id == HeadWindow(previous, current, used).windowId
            && HasWindow(StabilizedWindows(previous, current[1..], behind), id))
  {
    StabilizedWindowIdsAre(previous, current[1..], UsedBehind(previous, current, used), id);
    match Best(WindowScores(previous, current[0]), used)
    case Some(i) => TakenIsEarlier(previous, current[1..], used + {i}, id);
    case None => UnmatchedIdIsOwn(previous, current, used, id);
  }

  lemma UnmatchedIdIsOwn(previous: seq<WindowState>, current: seq<WindowState>, used: set<nat>, id: WindowId)
    requires UniqueWindowIds(current) && current != []
    ensures KeptWindow(previous, current[1..], used, id) ==> id != current[0].windowId
  {
    assert current == [current[0]] + current[1..];
    UniqueIdsCons(current[0], current[1..]);
    KeptWindowIsCaptured(previous, current[1..], used, id);
  }

  lemma NoClashWithHead(previous: seq<WindowState>, current: seq<WindowState>, used: set<nat>)
    requires UniqueWindowIds(previous) && UniqueWindowIds(current) && current != []
    ensures var behind := UsedBehind(previous, current, used);
      (forall id :: !WindowClash(previous, current, used, id)) <==>
        && (forall id :: !WindowClash(previous, current[1..], behind, id))
        && !HasWindow(StabilizedWindows(previous, current[1..], behind), HeadWindow(previous, current, used).windowId)
  {
    var behind, head := UsedBehind(previous, current, used), HeadWindow(previous, current, used).windowId;
    HeadClash(previous, current, used, head);
    if forall id :: !WindowClash(previous, current, used, id) {
      forall id ensures !WindowClash(previous, current[1..], behind, id) { HeadClash(previous, current, used, id); }
    } else {
      var id :| WindowClash(previous, current, used, id);
      HeadClash(previous, current, used, id);
    }
  }

  /**
   The same condition for window ids: unique ids stay unique if and only if no unmatched
   window's own id is one that a matched window took over.
   */
  lemma {:induction false} StabilizedWindowIdsUniqueIff(previous: seq<WindowState>, current: seq<WindowState>, used: set<nat>)
    requires UniqueWindowIds(previous) && UniqueWindowIds(current)
    ensures UniqueWindowIds(StabilizedWindows(previous, current, used))
      <==> forall id :: !WindowClash(previous, current, used, id)
    decreases current
  {
    if current != [] {
      assert current == [current[0]] + current[1..];
      UniqueIdsCons(current[0], current[1..]);
      var behind := UsedBehind(previous, current, used);
      StabilizedWindowIdsUniqueIff(previous, current[1..], behind);
      NoClashWithHead(previous, current, used);
      UniqueIdsCons(HeadWindow(previous, current, used), StabilizedWindows(previous, current[1..], behind));
    }
  }
}
