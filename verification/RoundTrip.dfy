/**
 Producer and consumer are inverse: the batch made from two snapshots, applied to a store
 holding the first, yields the second.
 */
module RoundTrip {
  import opened Wrappers
  import opened Sorting
  import opened Domain
  import opened Trees
  import opened StateStore
  import opened StoreLaws
  import opened SnapshotDiff
  import EditLaws
  import Materialize
  import Text

  // -------------------------------------------------- searching by element id

  /** Looking for an absent id finds nothing to rewrite. */
  lemma {:induction false} RewriteAbsent(nodes: seq<ElementNode>, ownerId: ElementId, id: ElementId,
                                         replacement: Option<ElementNode>)
    requires forall i | 0 <= i < |nodes| :: !Contains(nodes[i], id)
    ensures RewriteChild(nodes, ownerId, id, replacement).None?
    decreases nodes, 1
  {
    ChildIndexInRange(nodes, id);
    RewriteBelowAbsent(nodes, id, replacement);
  }

  lemma {:induction false} RewriteBelowAbsent(nodes: seq<ElementNode>, id: ElementId, replacement: Option<ElementNode>)
    requires forall i | 0 <= i < |nodes| :: !Contains(nodes[i], id)
    ensures RewriteBelow(nodes, id, replacement).None?
    decreases nodes, 0
  {
    if nodes != [] {
      assert !Contains(nodes[0], id);
      RewriteAbsent(nodes[0].children, nodes[0].elementId, id, replacement);
      RewriteBelowAbsent(nodes[1..], id, replacement);
    }
  }

  /** Setting focus finds exactly the ids that are present, and moves no id. */
  lemma {:induction false} SetFocusFinds(node: ElementNode, id: ElementId)
    ensures EditNode(node, id, SetFocused).Edited? <==> Contains(node, id)
    ensures EditNode(node, id, SetFocused).Edited? || EditNode(node, id, SetFocused).Absent?
    ensures Contains(node, id) ==>
      forall x :: Contains(EditNode(node, id, SetFocused).value, x) <==> Contains(node, x)
    decreases node, 1
  {
    if node.elementId != id {
      SetFocusFindsInForest(node.children, id);
    }
  }

  lemma {:induction false} SetFocusFindsInForest(nodes: seq<ElementNode>, id: ElementId)
    ensures var r := EditForest(nodes, id, SetFocused);
      && (r.Edited? <==> exists i | 0 <= i < |nodes| :: Contains(nodes[i], id))
      && (r.Edited? || r.Absent?)
      && (r.Edited? ==> |r.value| == |nodes|)
      && (r.Edited? ==> forall i, x | 0 <= i < |nodes| :: Contains(r.value[i], x) <==> Contains(nodes[i], x))
    decreases nodes, 0
  {
    if nodes != [] {
      SetFocusFinds(nodes[0], id);
      SetFocusFindsInForest(nodes[1..], id);
      if exists i | 0 <= i < |nodes| :: Contains(nodes[i], id) {
        var i :| 0 <= i < |nodes| && Contains(nodes[i], id);
        assert i == 0 || Contains(nodes[1..][i - 1], id);
      }
    }
  }

  lemma {:induction false} ClearFocusKeepsIds(node: ElementNode, id: ElementId)
    ensures Contains(ClearFocus(node), id) <==> Contains(node, id)
  {
    var cleared := ClearFocus(node).children;
    forall i | 0 <= i < |cleared| ensures Contains(cleared[i], id) <==> Contains(node.children[i], id) {
      ClearFocusKeepsIds(node.children[i], id);
    }
  }

  /** Moving focus to a present id, or to none, succeeds and moves no id. */
  lemma FocusRootSucceeds(root: ElementNode, focus: Option<ElementId>)
    requires focus.Some? ==> Contains(root, focus.value)
    ensures FocusRoot(root, focus).1.None?
    ensures forall x :: Contains(FocusRoot(root, focus).0, x) <==> Contains(root, x)
  {
    forall x ensures Contains(ClearFocus(root), x) <==> Contains(root, x) { ClearFocusKeepsIds(root, x); }
    if focus.Some? { SetFocusFinds(ClearFocus(root), focus.value); }
  }

  // --------------------------------------------------- focus on a fresh subtree

  /** The tree a focus operation leaves when told the tree's own focus. */
  function Settle(root: ElementNode): ElementNode {
    FocusRoot(root, FocusedElementId(root)).0
  }

  lemma {:induction false} SetFocusCounts(node: ElementNode, id: ElementId)
    requires FocusCount(node) == 0
    ensures EditNode(node, id, SetFocused).Edited? ==> FocusCount(EditNode(node, id, SetFocused).value) == 1
    decreases node, 1
  {
    if node.elementId != id { SetFocusCountsInForest(node.children, id); }
  }

  lemma {:induction false} SetFocusCountsInForest(nodes: seq<ElementNode>, id: ElementId)
    requires ForestFocusCount(nodes) == 0
    ensures EditForest(nodes, id, SetFocused).Edited? ==>
      ForestFocusCount(EditForest(nodes, id, SetFocused).value) == 1
    decreases nodes, 0
  {
    if nodes != [] {
      SetFocusCounts(nodes[0], id);
      SetFocusCountsInForest(nodes[1..], id);
    }
  }

  /** The first node with the reported focus id is itself focused. */
  predicate FocusIsFirst(root: ElementNode) {
    match FocusedElementId(root)
    case None => true
    case Some(id) => Materialize.FindById(root, id).Some? && Materialize.FindById(root, id).value.states.focused
  }

  predicate FocusIsFirstInForest(nodes: seq<ElementNode>) {
    match FocusedInForest(nodes)
    case None => true
    case Some(id) =>
      var found := Materialize.FindByIdInForest(nodes, id);
      found.Some? && found.value.states.focused
  }

  lemma {:induction false} UnfocusedFindsUnfocused(node: ElementNode, id: ElementId)
    requires FocusCount(node) == 0
    ensures Materialize.FindById(node, id).Some? ==> !Materialize.FindById(node, id).value.states.focused
    decreases node, 1
  {
    UnfocusedForestFindsUnfocused(node.children, id);
  }

  lemma {:induction false} UnfocusedForestFindsUnfocused(nodes: seq<ElementNode>, id: ElementId)
    requires ForestFocusCount(nodes) == 0
    ensures Materialize.FindByIdInForest(nodes, id).Some? ==> !Materialize.FindByIdInForest(nodes, id).value.states.focused
    decreases nodes, 0
  {
    if nodes != [] {
      UnfocusedFindsUnfocused(nodes[0], id);
      UnfocusedForestFindsUnfocused(nodes[1..], id);
    }
  }

  /** In a tree without repeated ids the reported id leads to the focused node. */
  lemma {:induction false} UniqueFocusIsFirst(node: ElementNode)
    requires UniqueElementIds(node)
    ensures FocusIsFirst(node)
    decreases node, 1
  {
    FocusedInForestIffCounted(node.children);
    UniqueFocusIsFirstInForest(node.children);
  }

  lemma {:induction false} UniqueFocusIsFirstInForest(nodes: seq<ElementNode>)
    requires ForestUnique(nodes)
    ensures FocusIsFirstInForest(nodes)
    decreases nodes, 0
  {
    if nodes != [] {
      UniqueFocusIsFirst(nodes[0]);
      UniqueFocusIsFirstInForest(nodes[1..]);
      FocusedInForestIffCounted(nodes[1..]);
      if FocusedElementId(nodes[0]).None? && FocusedInForest(nodes[1..]).Some? {
        var id := FocusedInForest(nodes[1..]).value;
        HeadLacks(nodes, id);
        Materialize.AbsentIdFindsNothing(nodes[0], id);
      }
    }
  }

  lemma HeadLacks(nodes: seq<ElementNode>, id: ElementId)
    requires forall i, j | 0 <= i < j < |nodes| :: Disjoint(nodes[i], nodes[j])
    requires nodes != [] && exists i | 0 <= i < |nodes[1..]| :: Contains(nodes[1..][i], id)
    ensures !Contains(nodes[0], id)
  {
    var i :| 0 <= i < |nodes[1..]| && Contains(nodes[1..][i], id);
    assert Disjoint(nodes[0], nodes[i + 1]);
  }

  /** Restoring the only focused node, found by its id, after clearing focus gives the tree back. */
  lemma {:induction false} RefocusRestores(node: ElementNode)
    requires FocusCount(node) == 1 && FocusIsFirst(node)
    ensures FocusedElementId(node).Some?
    ensures EditNode(ClearFocus(node), FocusedElementId(node).value, SetFocused) == Edited(node)
    decreases node, 1
  {
    FocusedIffCounted(node);
    var cleared := ClearFocus(node);
    if node.states.focused {
      forall i | 0 <= i < |node.children| ensures cleared.children[i] == node.children[i] {
        ForestFocusCountBounds(node.children, i);
        ClearFocusOfUnfocused(node.children[i]);
      }
      assert cleared.children == node.children;
    } else {
      FocusedInForestIffCounted(node.children);
      RefocusRestoresForest(node.children, cleared.children);
      var id := FocusedElementId(node).value;
      assert cleared.elementId != id;
      assert EditNode(cleared, id, SetFocused) == Edited(cleared.(children := node.children));
    }
  }

  lemma {:induction false} RefocusRestoresForest(nodes: seq<ElementNode>, cleared: seq<ElementNode>)
    requires |cleared| == |nodes| && forall i | 0 <= i < |nodes| :: cleared[i] == ClearFocus(nodes[i])
    requires ForestFocusCount(nodes) == 1 && FocusIsFirstInForest(nodes)
    ensures FocusedInForest(nodes).Some?
    ensures EditForest(cleared, FocusedInForest(nodes).value, SetFocused) == Edited(nodes)
    decreases nodes, 0
  {
    FocusedIffCounted(nodes[0]);
    FocusedInForestIffCounted(nodes[1..]);
    if FocusCount(nodes[0]) == 1 {
      var id := FocusedElementId(nodes[0]).value;
      EditLaws.FoundIffContained(nodes[0], id);
      RefocusRestores(nodes[0]);
      forall i | 0 < i < |nodes| ensures cleared[i] == nodes[i] {
        ForestFocusCountBounds(nodes[1..], i - 1);
        ClearFocusOfUnfocused(nodes[i]);
      }
      assert [nodes[0]] + cleared[1..] == nodes;
    } else {
      var id := FocusedInForest(nodes).value;
      UnfocusedFindsUnfocused(nodes[0], id);
      EditLaws.FoundIffContained(nodes[0], id);
      RefocusRestoresForest(nodes[1..], cleared[1..]);
      ClearFocusOfUnfocused(nodes[0]);
      SetFocusFinds(nodes[0], id);
      assert [nodes[0]] + nodes[1..] == nodes;
    }
  }

  /** What a focus operation can restore: at most one focused node, and its id leads to it. */
  predicate Refocusable(root: ElementNode) {
    FocusCount(root) <= 1 && FocusIsFirst(root)
  }

  /** With unique ids only the number of focused nodes matters. */
  lemma UniqueRefocusableIff(root: ElementNode)
    requires UniqueElementIds(root)
    ensures Refocusable(root) <==> FocusCount(root) <= 1
  {
    UniqueFocusIsFirst(root);
  }

  /** Settling leaves a tree alone exactly when the focus can be restored. */
  lemma SettleIsIdentityIff(root: ElementNode)
    ensures Settle(root) == root <==> Refocusable(root)
  {
    FocusedIffCounted(root);
    ClearFocusLeavesNone(root);
    if FocusCount(root) == 0 {
      ClearFocusOfUnfocused(root);
    } else {
      var id := FocusedElementId(root).value;
      ClearFocusKeepsIds(root, id);
      SetFocusFinds(ClearFocus(root), id);
      SetFocusCounts(ClearFocus(root), id);
      EditLaws.EditReachesFirst(ClearFocus(root), id, SetFocused);
      EditLaws.FoundIffContained(ClearFocus(root), id);
      if FocusCount(root) == 1 && FocusIsFirst(root) { RefocusRestores(root); }
    }
  }

  // ------------------------------------------------------ windows as a keyed set

  /** `after` holds `target` in place of whatever `before` held for the id. */
  ghost predicate Retargeted(before: seq<WindowState>, after: seq<WindowState>, id: WindowId, target: Option<WindowState>)
  {
    && UniqueWindowIds(after)
    && forall w :: w in after <==> (w in before && w.windowId != id) || target == Some(w)
  }

  lemma {:induction false} UpsertRetargets(windows: seq<WindowState>, window: WindowState)
    requires UniqueWindowIds(windows)
    ensures Retargeted(windows, UpsertWindow(windows, window), window.windowId, Some(window))
  {
    if windows != [] {
      HeadIdIsNew(windows);
      if windows[0].windowId != window.windowId {
        UpsertRetargets(windows[1..], window);
        PrependUnique(windows[0], UpsertWindow(windows[1..], window));
      } else {
        PrependUnique(window, windows[1..]);
      }
    }
  }

  lemma {:induction false} RemoveRetargets(windows: seq<WindowState>, window: WindowState)
    requires UniqueWindowIds(windows) && window in windows
    ensures RemoveWindow(windows, window.windowId).Some?
    ensures Retargeted(windows, RemoveWindow(windows, window.windowId).value, window.windowId, None)
  {
    HeadIdIsNew(windows);
    if windows[0] != window {
      RemoveRetargets(windows[1..], window);
      PrependUnique(windows[0], RemoveWindow(windows[1..], window.windowId).value);
    }
  }

  /** Replacing a root reaches its own window when no other window holds the id. */
  lemma {:induction false} ReplaceRootRetargets(windows: seq<WindowState>, window: WindowState, node: ElementNode)
    requires UniqueWindowIds(windows) && window in windows && WellParented(node, None)
    requires forall w | w in windows && w != window :: !Contains(w.root, window.root.elementId)
    ensures ReplaceNode(windows, window.root.elementId, node).Some?
    ensures Retargeted(windows, ReplaceNode(windows, window.root.elementId, node).value,
                       window.windowId, Some(window.(root := node)))
  {
    HeadIdIsNew(windows);
    ReparentOfWellParented(node, None);
    if windows[0] != window {
      var root := windows[0].root;
      assert !Contains(root, window.root.elementId);
      RewriteAbsent(root.children, root.elementId, window.root.elementId, Some(node));
      ReplaceRootRetargets(windows[1..], window, node);
      PrependUnique(windows[0], ReplaceNode(windows[1..], window.root.elementId, node).value);
    } else {
      PrependUnique(window.(root := node), windows[1..]);
    }
  }

  lemma {:induction false} FocusRetargets(windows: seq<WindowState>, window: WindowState, focus: Option<ElementId>)
    requires UniqueWindowIds(windows) && window in windows
    requires focus.Some? ==> Contains(window.root, focus.value)
    ensures ChangeFocus(windows, window.windowId, focus).error.None?
    ensures Retargeted(windows, ChangeFocus(windows, window.windowId, focus).windows, window.windowId,
                       Some(window.(root := FocusRoot(window.root, focus).0)))
  {
    HeadIdIsNew(windows);
    if windows[0] != window {
      FocusRetargets(windows[1..], window, focus);
      PrependUnique(windows[0], ChangeFocus(windows[1..], window.windowId, focus).windows);
    } else {
      FocusRootSucceeds(window.root, focus);
      PrependUnique(window.(root := FocusRoot(window.root, focus).0), windows[1..]);
    }
  }

  // --------------------------------------------------------------- one window

  /** What the consumer ends up with for one window id. */
  function Settled(previous: Option<WindowState>, next: Option<WindowState>): Option<WindowState> {
    if previous.Some? && next.Some? && FocusedElementId(previous.value.root) != FocusedElementId(next.value.root)
    then Some(next.value.(root := Settle(next.value.root)))
    else next
  }

  lemma ApplyTwo(windows: seq<WindowState>, first: seq<DiffOp>, second: seq<DiffOp>)
    requires ApplyOps(windows, first).error.None?
    ensures ApplyOps(windows, first + second) == ApplyOps(ApplyOps(windows, first).windows, second)
    decreases first
  {
    if first == [] {
      assert first + second == second;
    } else {
      assert (first + second)[1..] == first[1..] + second;
      ApplyTwo(ApplyOp(windows, first[0]).windows, first[1..], second);
    }
  }

  lemma ApplyOne(windows: seq<WindowState>, op: DiffOp)
    ensures ApplyOps(windows, [op]) == ApplyOp(windows, op)
  {
    assert [op][1..] == [];
  }

  function BodyOps(id: WindowId, p: WindowState, n: WindowState): seq<DiffOp> {
    if !SameWindowShell(p, n) then [WindowRemoved(id), WindowAdded(n)]
    else if p.root != n.root then [NodeReplaced(p.root.elementId, n.root)]
    else []
  }

  function FocusOps(id: WindowId, p: WindowState, n: WindowState): seq<DiffOp> {
    if FocusedElementId(p.root) != FocusedElementId(n.root) then [FocusChanged(id, FocusedElementId(n.root))] else []
  }

  lemma BodyOpsRetarget(windows: seq<WindowState>, id: WindowId, p: WindowState, n: WindowState)
    requires UniqueWindowIds(windows) && p in windows && p.windowId == id == n.windowId
    requires WellParented(n.root, None)
    requires forall w | w in windows && w != p :: !Contains(w.root, p.root.elementId)
    ensures ApplyOps(windows, BodyOps(id, p, n)).error.None?
    ensures Retargeted(windows, ApplyOps(windows, BodyOps(id, p, n)).windows, id, Some(n))
  {
    if !SameWindowShell(p, n) {
      RemoveRetargets(windows, p);
      var without := RemoveWindow(windows, id).value;
      UpsertRetargets(without, n);
      assert BodyOps(id, p, n) == [WindowRemoved(id)] + [WindowAdded(n)];
      ApplyOne(windows, WindowRemoved(id));
      ApplyTwo(windows, [WindowRemoved(id)], [WindowAdded(n)]);
      ApplyOne(without, WindowAdded(n));
    } else if p.root != n.root {
      ApplyOne(windows, NodeReplaced(p.root.elementId, n.root));
      ReplaceRootRetargets(windows, p, n.root);
      assert p.(root := n.root) == n;
    } else {
      assert p == n;
      forall w ensures w in windows <==> (w in windows && w.windowId != id) || w == n {
        MembersWithSameId(windows, w, n);
      }
    }
  }

  /** A window present on both sides: body first, then focus. */
  lemma ChangedWindowRetargets(windows: seq<WindowState>, id: WindowId, p: WindowState, n: WindowState)
    requires UniqueWindowIds(windows) && p in windows && p.windowId == id == n.windowId
    requires WellParented(n.root, None)
    requires forall w | w in windows && w != p :: !Contains(w.root, p.root.elementId)
    ensures ApplyOps(windows, WindowOps(id, Some(p), Some(n))).error.None?
    ensures Retargeted(windows, ApplyOps(windows, WindowOps(id, Some(p), Some(n))).windows, id, Settled(Some(p), Some(n)))
  {
    var body := BodyOps(id, p, n);
    var focus := FocusOps(id, p, n);
    assert WindowOps(id, Some(p), Some(n)) == body + focus;
    BodyOpsRetarget(windows, id, p, n);
    ApplyTwo(windows, body, focus);
    FocusOpsRetarget(windows, ApplyOps(windows, body).windows, id, p, n);
  }

  /** The trailing focus operation settles the window it finds in place. */
  lemma FocusOpsRetarget(windows: seq<WindowState>, middle: seq<WindowState>, id: WindowId, p: WindowState, n: WindowState)
    requires Retargeted(windows, middle, id, Some(n)) && n.windowId == id
    ensures ApplyOps(middle, FocusOps(id, p, n)).error.None?
    ensures Retargeted(windows, ApplyOps(middle, FocusOps(id, p, n)).windows, id, Settled(Some(p), Some(n)))
  {
    var focus := FocusOps(id, p, n);
    FocusedIffCounted(n.root);
    if focus != [] {
      ApplyOne(middle, focus[0]);
      FocusRetargets(middle, n, FocusedElementId(n.root));
    }
  }

  /** The operations of one window id succeed and put the settled window in place. */
  lemma WindowOpsRetarget(windows: seq<WindowState>, id: WindowId, p: Option<WindowState>, n: Option<WindowState>)
    requires UniqueWindowIds(windows)
    requires p.Some? ==> p.value in windows && p.value.windowId == id
    requires p.None? ==> forall w | w in windows :: w.windowId != id
    requires n.Some? ==> n.value.windowId == id && WellParented(n.value.root, None)
    requires p.Some? && n.Some? ==>
      forall w | w in windows && w != p.value :: !Contains(w.root, p.value.root.elementId)
    ensures ApplyOps(windows, WindowOps(id, p, n)).error.None?
    ensures Retargeted(windows, ApplyOps(windows, WindowOps(id, p, n)).windows, id, Settled(p, n))
  {
    if p.Some? && n.Some? {
      ChangedWindowRetargets(windows, id, p.value, n.value);
    } else if p.Some? {
      ApplyOne(windows, WindowRemoved(id));
      RemoveRetargets(windows, p.value);
    } else if n.Some? {
      ApplyOne(windows, WindowAdded(n.value));
      UpsertRetargets(windows, n.value);
    }
  }

  lemma MembersWithSameId(windows: seq<WindowState>, a: WindowState, b: WindowState)
    requires UniqueWindowIds(windows) && b in windows
    ensures a in windows && a.windowId == b.windowId ==> a == b
  {
  }

  // ------------------------------------------------------------- whole batches

  /** No window of either list, other than the root's own, contains a root id of `previous`. */
  ghost predicate RootsOwned(previous: seq<WindowState>, next: seq<WindowState>) {
    forall p, w | p in previous && (w in previous || w in next) && w.windowId != p.windowId ::
      !Contains(w.root, p.root.elementId)
  }

  /** What the observer's snapshots look like: sorted by id, well-parented, ids not shared. */
  ghost predicate Diffable(previous: seq<WindowState>, next: seq<WindowState>) {
    && Sorted(WindowBefore, previous)
    && Sorted(WindowBefore, next)
    && RootsWellParented(next)
    && RootsOwned(previous, next)
  }

  /** The next windows as the consumer holds them after the batch. */
  function SettledWindows(previous: seq<WindowState>, next: seq<WindowState>): seq<WindowState> {
    seq(|next|, i requires 0 <= i < |next| => SettledWindow(previous, next[i]))
  }

  function SettledWindow(previous: seq<WindowState>, window: WindowState): WindowState {
    var p := WindowById(previous, window.windowId);
    if p.Some? && FocusedElementId(p.value.root) != FocusedElementId(window.root)
    then window.(root := Settle(window.root))
    else window
  }

  lemma SettledKeepsIds(previous: seq<WindowState>, window: WindowState)
    ensures SettledWindow(previous, window).windowId == window.windowId
    ensures forall x :: Contains(SettledWindow(previous, window).root, x) <==> Contains(window.root, x)
  {
    FocusedIffCounted(window.root);
    FocusRootSucceeds(window.root, FocusedElementId(window.root));
  }

  lemma SortedIdsAreUnique(windows: seq<WindowState>)
    requires Sorted(WindowBefore, windows)
    ensures UniqueWindowIds(windows)
  {
    Text.BeforeIsStrictTotalOrder();
  }

  lemma UniqueWindowById(windows: seq<WindowState>, window: WindowState)
    requires UniqueWindowIds(windows) && window in windows
    ensures WindowById(windows, window.windowId) == Some(window)
  {
    WindowByIdIsMember(windows, window.windowId);
    var i :| 0 <= i < |windows| && windows[i] == window;
    assert windows[i].windowId in WindowIds(windows);
  }

  /** The processed part of the batch: ids in the list hold settled windows, the rest is untouched. */
  ghost predicate Processed(before: seq<WindowState>, after: seq<WindowState>, ids: seq<WindowId>,
                            previous: seq<WindowState>, next: seq<WindowState>)
  {
    && UniqueWindowIds(after)
    && forall w :: w in after <==>
        if w.windowId in ids
        then Settled(WindowById(previous, w.windowId), WindowById(next, w.windowId)) == Some(w)
        else w in before
  }

  /** Nothing outside the ids still to come contains a root id of the previous windows. */
  ghost predicate ForeignFree(windows: seq<WindowState>, previous: seq<WindowState>) {
    forall p, w | p in previous && w in windows && w.windowId != p.windowId :: !Contains(w.root, p.root.elementId)
  }

  lemma SettledIdsAndTree(previous: seq<WindowState>, next: seq<WindowState>, id: WindowId)
    requires WindowById(next, id).Some?
    ensures var s := Settled(WindowById(previous, id), WindowById(next, id));
      s.Some? && s.value.windowId == id && s.value == SettledWindow(previous, WindowById(next, id).value)
  {
    WindowByIdIsMember(next, id);
  }

  /** Intermediate window lists mix old and new windows; every operation still meets its target. */
  lemma {:induction false} OpsForIdsProcess(windows: seq<WindowState>, ids: seq<WindowId>,
                                            previous: seq<WindowState>, next: seq<WindowState>)
    requires Sorted(Text.Before, ids) && Diffable(previous, next)
    requires UniqueWindowIds(windows) && ForeignFree(windows, previous)
    requires forall w: WindowState | w.windowId in ids :: w in windows <==> w in previous
    ensures ApplyOps(windows, OpsForIds(ids, previous, next)).error.None?
    ensures Processed(windows, ApplyOps(windows, OpsForIds(ids, previous, next)).windows, ids, previous, next)
    decreases ids
  {
    if ids != [] {
      var id, rest := ids[0], ids[1..];
      var p, n := WindowById(previous, id), WindowById(next, id);
      Text.BeforeIsStrictTotalOrder();
      assert forall k :: k in ids <==> k == id || k in rest;
      assert id !in rest;
      SortedIdsAreUnique(previous);
      FirstIdIsReady(windows, id, previous, next);
      WindowOpsRetarget(windows, id, p, n);
      var middle := ApplyOps(windows, WindowOps(id, p, n)).windows;
      RetargetKeepsForeignFree(windows, middle, id, previous, next);
      assert forall w: WindowState | w.windowId in rest :: w in middle <==> w in windows by {
        if n.Some? { SettledIdsAndTree(previous, next, id); }
      }
      ApplyTwo(windows, WindowOps(id, p, n), OpsForIds(rest, previous, next));
      OpsForIdsProcess(middle, rest, previous, next);
      ProcessedStep(windows, middle, ApplyOps(windows, OpsForIds(ids, previous, next)).windows, ids, previous, next);
    }
  }

  lemma FirstIdIsReady(windows: seq<WindowState>, id: WindowId, previous: seq<WindowState>, next: seq<WindowState>)
    requires UniqueWindowIds(windows) && ForeignFree(windows, previous) && Diffable(previous, next)
    requires forall w: WindowState | w.windowId == id :: w in windows <==> w in previous
    ensures var p, n := WindowById(previous, id), WindowById(next, id);
      && (p.Some? ==> p.value in windows && p.value.windowId == id)
      && (p.None? ==> forall w | w in windows :: w.windowId != id)
      && (n.Some? ==> n.value.windowId == id && WellParented(n.value.root, None))
      && (p.Some? ==> forall w | w in windows && w != p.value :: !Contains(w.root, p.value.root.elementId))
  {
    WindowByIdIsMember(previous, id);
    WindowByIdIsMember(next, id);
    var p := WindowById(previous, id);
    if p.Some? {
      forall w | w in windows && w != p.value ensures w.windowId != id {
        MembersWithSameId(windows, w, p.value);
      }
    } else {
      forall w | w in previous ensures w.windowId != id {
        assert w.windowId in WindowIds(previous);
      }
    }
  }

  lemma RetargetKeepsForeignFree(windows: seq<WindowState>, middle: seq<WindowState>, id: WindowId,
                                 previous: seq<WindowState>, next: seq<WindowState>)
    requires ForeignFree(windows, previous) && RootsOwned(previous, next)
    requires Retargeted(windows, middle, id, Settled(WindowById(previous, id), WindowById(next, id)))
    ensures ForeignFree(middle, previous)
  {
    WindowByIdIsMember(next, id);
    if WindowById(next, id).Some? {
      SettledIdsAndTree(previous, next, id);
      SettledKeepsIds(previous, WindowById(next, id).value);
    }
  }

  lemma ProcessedStep(windows: seq<WindowState>, middle: seq<WindowState>, after: seq<WindowState>, ids: seq<WindowId>,
                      previous: seq<WindowState>, next: seq<WindowState>)
    requires ids != [] && ids[0] !in ids[1..]
    requires Retargeted(windows, middle, ids[0], Settled(WindowById(previous, ids[0]), WindowById(next, ids[0])))
    requires Processed(middle, after, ids[1..], previous, next)
    ensures Processed(windows, after, ids, previous, next)
  {
    if WindowById(next, ids[0]).Some? { SettledIdsAndTree(previous, next, ids[0]); }
    assert forall k :: k in ids <==> k == ids[0] || k in ids[1..];
  }

  /**
   Applied to the previous windows, in any order, the batch never fails and, once sorted,
   leaves exactly the settled next windows.
   */
  lemma DiffOpsReachNext(windows: seq<WindowState>, previous: seq<WindowState>, next: seq<WindowState>)
    requires Diffable(previous, next)
    requires UniqueWindowIds(windows) && forall w :: w in windows <==> w in previous
    ensures ApplyOps(windows, DiffOps(previous, next)).error.None?
    ensures SortWindows(ApplyOps(windows, DiffOps(previous, next)).windows) == SettledWindows(previous, next)
  {
    var ids := SortedKeys(WindowIds(previous) + WindowIds(next));
    OpsForIdsProcess(windows, ids, previous, next);
    var result := ApplyOps(windows, DiffOps(previous, next)).windows;
    SortIsStrict(result);
    SettledIsStrict(previous, next);
    SortedIdsAreUnique(next);
    forall w ensures w in SortWindows(result) <==> w in SettledWindows(previous, next) {
      SortMembers(WindowAtMost, result, w);
      ProcessedMembers(result, w, windows, ids, previous, next);
    }
    Text.BeforeIsStrictTotalOrder();
    assert StrictOrder(WindowBefore);
    StrictlySortedUnique(WindowBefore, SortWindows(result), SettledWindows(previous, next));
  }

  lemma SettledIsStrict(previous: seq<WindowState>, next: seq<WindowState>)
    requires Sorted(WindowBefore, next)
    ensures Sorted(WindowBefore, SettledWindows(previous, next))
  {
    forall i | 0 <= i < |next| ensures SettledWindows(previous, next)[i].windowId == next[i].windowId {
      SettledKeepsIds(previous, next[i]);
    }
  }

  lemma ProcessedMembers(result: seq<WindowState>, w: WindowState, windows: seq<WindowState>, ids: seq<WindowId>,
                         previous: seq<WindowState>, next: seq<WindowState>)
    requires Processed(windows, result, ids, previous, next) && UniqueWindowIds(next)
    requires forall x :: x in windows <==> x in previous
    requires forall k :: k in ids <==> k in WindowIds(previous) + WindowIds(next)
    ensures w in result <==> w in SettledWindows(previous, next)
  {
    WindowByIdIsMember(next, w.windowId);
    if w in result {
      assert w in previous ==> w.windowId in WindowIds(previous);
      SettledIdsAndTree(previous, next, w.windowId);
      var n := WindowById(next, w.windowId).value;
      var i :| 0 <= i < |next| && next[i] == n;
      assert SettledWindows(previous, next)[i] == w;
    }
    if w in SettledWindows(previous, next) {
      var i :| 0 <= i < |next| && SettledWindows(previous, next)[i] == w;
      SettledKeepsIds(previous, next[i]);
      UniqueWindowById(next, next[i]);
      assert next[i].windowId in WindowIds(next);
      SettledIdsAndTree(previous, next, w.windowId);
    }
  }

  // ------------------------------------------------------------------ theorems

  ghost function BatchFor(previous: Snapshot, next: Snapshot, emittedAt: int): DiffBatch {
    DiffBatch(previous.rev, next.rev, emittedAt, DiffOps(previous.windows, next.windows))
  }

  lemma {:induction false} NoResyncRequested(ids: seq<WindowId>, previous: seq<WindowState>, next: seq<WindowState>)
    ensures RequestedResync(OpsForIds(ids, previous, next)).None?
  {
    if ids != [] {
      NoResyncRequested(ids[1..], previous, next);
      NoResyncInConcat(WindowOps(ids[0], WindowById(previous, ids[0]), WindowById(next, ids[0])),
                       OpsForIds(ids[1..], previous, next));
    }
  }

  lemma {:induction false} NoResyncInConcat(first: seq<DiffOp>, second: seq<DiffOp>)
    requires forall i | 0 <= i < |first| :: !first[i].SnapshotResync?
    requires RequestedResync(second).None?
    ensures RequestedResync(first + second).None?
  {
    if first == [] { assert first + second == second; }
    else {
      NoResyncInConcat(first[1..], second);
      assert (first + second)[1..] == first[1..] + second;
    }
  }

  /**
   A store holding the previous snapshot accepts the batch, ends at the next revision with
   the settled next windows and keeps its resync flag; at the last representable revision
   the batch cannot advance and is refused instead.
   */
  lemma BatchReachesNext(previous: Snapshot, next: Snapshot, store: Store, emittedAt: int)
    requires Diffable(previous.windows, next.windows)
    requires store.snapshot.Some? && store.snapshot.value.windows == previous.windows
    requires store.rev == previous.rev <= MAX_REVISION && next.rev == NextRevision(previous.rev)
    ensures previous.rev < MAX_REVISION ==>
      var settled := SettledWindows(previous.windows, next.windows);
      ApplyDiff(store, BatchFor(previous, next, emittedAt))
        == (Store(Some(Snapshot(next.rev, emittedAt, settled)), next.rev, store.resync), None)
    ensures previous.rev == MAX_REVISION ==>
      ApplyDiff(store, BatchFor(previous, next, emittedAt))
        == (store.(resync := Some(NonMonotonicRevision)), Some(NonMonotonicDiff(MAX_REVISION, MAX_REVISION)))
  {
    SortedIdsAreUnique(previous.windows);
    DiffOpsReachNext(previous.windows, previous.windows, next.windows);
    NoResyncRequested(SortedKeys(WindowIds(previous.windows) + WindowIds(next.windows)), previous.windows, next.windows);
  }

  /** In some window whose reported focus moved, a focus operation cannot restore the focus. */
  ghost predicate FocusIsAmbiguous(previous: seq<WindowState>, next: seq<WindowState>) {
    exists w | w in next :: AmbiguousWindow(previous, w)
  }

  predicate AmbiguousWindow(previous: seq<WindowState>, w: WindowState) {
    && WindowById(previous, w.windowId).Some?
    && FocusedElementId(WindowById(previous, w.windowId).value.root) != FocusedElementId(w.root)
    && !Refocusable(w.root)
  }

  /**
   The round trip is exact if and only if no window whose focus moved has several focused
   nodes, or a focused node whose id an earlier node of the window has too: the trailing focus
   operation leaves just the first node with the reported id focused.
   */
  lemma RoundTripExactIff(previous: seq<WindowState>, next: seq<WindowState>)
    requires Diffable(previous, next)
    ensures SortWindows(ApplyOps(previous, DiffOps(previous, next)).windows) == next <==>
      !FocusIsAmbiguous(previous, next)
  {
    SortedIdsAreUnique(previous);
    DiffOpsReachNext(previous, previous, next);
    forall i | 0 <= i < |next| ensures SettledWindow(previous, next[i]) == next[i] <==> !AmbiguousWindow(previous, next[i]) {
      SettleIsIdentityIff(next[i].root);
    }
    if FocusIsAmbiguous(previous, next) {
      var w :| w in next && AmbiguousWindow(previous, w);
      var i :| 0 <= i < |next| && next[i] == w;
      assert SettledWindows(previous, next)[i] != next[i];
    } else {
      forall i | 0 <= i < |next| ensures SettledWindows(previous, next)[i] == next[i] {
        assert next[i] in next;
      }
    }
  }

  const STILL := ElementStates(true, true, false, false, false, false)

  function LeafNode(id: ElementId, parentId: ElementId, focused: bool): ElementNode {
    ElementNode(id, Some(parentId), Uia, "Edit", None, None, None, None, Rect(0, 0, 0, 0), Locator("", []), map[],
                STILL.(focused := focused), [], 1.0)
  }

  function PairWindow(focused: bool): WindowState {
    var root := LeafNode("root", "", false);
    WindowState("window", 0, None, "", Rect(0, 0, 0, 0), Uia, 1.0,
      root.(parentId := None, children := [LeafNode("a", "root", focused), LeafNode("b", "root", focused)]))
  }

  /** The input that does not round-trip: both edit fields of a window gain the focus at once. */
  lemma TwoFocusedNodesAreLost()
    ensures var previous, next := [PairWindow(false)], [PairWindow(true)];
      && Diffable(previous, next)
      && FocusIsAmbiguous(previous, next)
      && SortWindows(ApplyOps(previous, DiffOps(previous, next)).windows) != next
  {
    var previous, next := [PairWindow(false)], [PairWindow(true)];
    var root := PairWindow(true).root;
    assert ForestFocusCount(root.children[1..]) == 1;
    assert FocusCount(root) == 2;
    assert FocusedInForest(PairWindow(false).root.children[1..]).None?;
    assert WindowById(previous, "window") == Some(PairWindow(false));
    assert PairWindow(true) in next && AmbiguousWindow(previous, PairWindow(true));
    RoundTripExactIff(previous, next);
  }

  lemma {:induction false} OpsForIdsEmptyIff(ids: seq<WindowId>, previous: seq<WindowState>, next: seq<WindowState>)
    ensures OpsForIds(ids, previous, next) == [] <==>
      forall id | id in ids :: WindowById(previous, id) == WindowById(next, id)
  {
    if ids != [] {
      OpsForIdsEmptyIff(ids[1..], previous, next);
      WindowByIdIsMember(previous, ids[0]);
      WindowByIdIsMember(next, ids[0]);
      assert forall id :: id in ids <==> id == ids[0] || id in ids[1..];
    }
  }

  /** Windows never differ from themselves, even if ids repeat. */
  lemma NoDiffToItself(windows: seq<WindowState>)
    ensures DiffOps(windows, windows) == []
  {
    OpsForIdsEmptyIff(SortedKeys(WindowIds(windows) + WindowIds(windows)), windows, windows);
  }

  /** Nothing is emitted exactly when nothing changed. */
  lemma DiffEmptyIffEqual(previous: seq<WindowState>, next: seq<WindowState>)
    requires Sorted(WindowBefore, previous) && Sorted(WindowBefore, next)
    ensures DiffOps(previous, next) == [] <==> previous == next
  {
    var ids := SortedKeys(WindowIds(previous) + WindowIds(next));
    OpsForIdsEmptyIff(ids, previous, next);
    SortedIdsAreUnique(previous);
    SortedIdsAreUnique(next);
    if DiffOps(previous, next) == [] {
      forall w ensures w in previous <==> w in next {
        SharedMember(previous, next, ids, w);
        SharedMember(next, previous, ids, w);
      }
      Text.BeforeIsStrictTotalOrder();
      assert StrictOrder(WindowBefore);
      StrictlySortedUnique(WindowBefore, previous, next);
    }
  }

  lemma SharedMember(a: seq<WindowState>, b: seq<WindowState>, ids: seq<WindowId>, w: WindowState)
    requires UniqueWindowIds(a)
    requires forall k | k in WindowIds(a) :: k in ids
    requires forall id | id in ids :: WindowById(a, id) == WindowById(b, id)
    ensures w in a ==> w in b
  {
    if w in a {
      UniqueWindowById(a, w);
      var i :| 0 <= i < |a| && a[i] == w;
      assert a[i].windowId in WindowIds(a);
      WindowByIdIsMember(b, w.windowId);
    }
  }
}
