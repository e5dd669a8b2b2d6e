/**
 What a batch says: exactly which operations the producer emits for two snapshots, told from
 the snapshots alone.
 */
module DiffContents {
  import opened Wrappers
  import opened Domain
  import opened SnapshotDiff
  import EditLaws
  import RoundTrip
  import Sorting
  import StoreLaws
  import Text
  import Trees

  /** The windows differ in their trees at most. */
  predicate SameButTree(p: WindowState, n: WindowState) {
    p.(root := n.root) == n
  }

  ghost predicate Both(previous: seq<WindowState>, next: seq<WindowState>, p: WindowState, n: WindowState) {
    p in previous && n in next && p.windowId == n.windowId
  }

  /** The snapshots give a reason for the operation. */
  ghost predicate Warranted(previous: seq<WindowState>, next: seq<WindowState>, op: DiffOp) {
    match op
    case WindowRemoved(id) =>
      exists p | p in previous && p.windowId == id ::
        forall n | n in next && n.windowId == id :: !SameButTree(p, n)
    case WindowAdded(n) =>
      n in next && forall p | p in previous && p.windowId == n.windowId :: !SameButTree(p, n)
    case NodeReplaced(id, node) =>
      exists p, n | Both(previous, next, p, n) ::
        SameButTree(p, n) && p.root != n.root && id == p.root.elementId && node == n.root
    case FocusChanged(id, focus) =>
      exists p, n | Both(previous, next, p, n) ::
        id == n.windowId && Trees.FocusedElementId(p.root) != Trees.FocusedElementId(n.root) == focus
    case _ => false
  }

  /** The same for one window id, given what the id maps to. */
  predicate WarrantedFor(id: WindowId, previous: Option<WindowState>, next: Option<WindowState>, op: DiffOp) {
    match op
    case WindowRemoved(removed) =>
      removed == id && previous.Some? && (next.Some? ==> !SameButTree(previous.value, next.value))
    case WindowAdded(window) =>
      next == Some(window) && (previous.Some? ==> !SameButTree(previous.value, window))
    case NodeReplaced(root, node) =>
      && previous.Some? && next.Some? && SameButTree(previous.value, next.value)
      && previous.value.root != next.value.root && root == previous.value.root.elementId && node == next.value.root
    case FocusChanged(changed, focus) =>
      && changed == id && previous.Some? && next.Some?
      && Trees.FocusedElementId(previous.value.root) != Trees.FocusedElementId(next.value.root) == focus
    case _ => false
  }

  lemma OneIdOps(id: WindowId, previous: Option<WindowState>, next: Option<WindowState>, op: DiffOp)
    requires previous.Some? ==> previous.value.windowId == id
    requires next.Some? ==> next.value.windowId == id
    ensures op in WindowOps(id, previous, next) <==> WarrantedFor(id, previous, next, op)
  {
    if previous.Some? && next.Some? {
      var p, n := previous.value, next.value;
      assert SameButTree(p, n) <==> SameWindowShell(p, n);
      assert op in WindowOps(id, previous, next) <==>
        op in RoundTrip.BodyOps(id, p, n) || op in RoundTrip.FocusOps(id, p, n);
    }
  }

  /** The operation is among those of the id. */
  predicate HeldBy(id: WindowId, previous: seq<WindowState>, next: seq<WindowState>, op: DiffOp) {
    op in WindowOps(id, WindowById(previous, id), WindowById(next, id))
  }

  lemma {:induction false} OpsOfIds(ids: seq<WindowId>, previous: seq<WindowState>, next: seq<WindowState>, op: DiffOp)
    ensures op in OpsForIds(ids, previous, next) <==> exists id | id in ids :: HeldBy(id, previous, next, op)
  {
    if ids != [] {
      var first, rest := ids[0], ids[1..];
      OpsOfIds(rest, previous, next, op);
      assert forall id :: id in ids <==> id == first || id in rest;
      if op in OpsForIds(ids, previous, next) {
        if !HeldBy(first, previous, next, op) {
          var id :| id in rest && HeldBy(id, previous, next, op);
          assert id in ids;
        }
      }
    }
  }

  lemma OpsAreWarrantedFor(previous: seq<WindowState>, next: seq<WindowState>, op: DiffOp)
    ensures op in DiffOps(previous, next) <==>
      exists id | id in WindowIds(previous) + WindowIds(next) ::
        WarrantedFor(id, WindowById(previous, id), WindowById(next, id), op)
  {
    var ids := WindowIds(previous) + WindowIds(next);
    OpsOfIds(Sorting.SortedKeys(ids), previous, next, op);
    forall id
      ensures HeldBy(id, previous, next, op) <==>
        WarrantedFor(id, WindowById(previous, id), WindowById(next, id), op)
    {
      WindowByIdIsMember(previous, id);
      WindowByIdIsMember(next, id);
      OneIdOps(id, WindowById(previous, id), WindowById(next, id), op);
    }
  }

  /** What an id maps to is the one window that has it. */
  lemma LookupIs(windows: seq<WindowState>, id: WindowId)
    requires StoreLaws.UniqueWindowIds(windows)
    ensures id in WindowIds(windows) <==> exists w :: w in windows && w.windowId == id
    ensures WindowById(windows, id).None? ==> forall w | w in windows :: w.windowId != id
    ensures forall w | w in windows && w.windowId == id :: WindowById(windows, id) == Some(w)
    ensures WindowById(windows, id).Some? ==> WindowById(windows, id).value in windows
    ensures WindowById(windows, id).Some? ==> WindowById(windows, id).value.windowId == id
  {
    WindowByIdIsMember(windows, id);
    forall w | w in windows && w.windowId == id ensures WindowById(windows, id) == Some(w) {
      RoundTrip.UniqueWindowById(windows, w);
    }
  }

  lemma WarrantedIff(previous: seq<WindowState>, next: seq<WindowState>, id: WindowId, op: DiffOp)
    requires StoreLaws.UniqueWindowIds(previous) && StoreLaws.UniqueWindowIds(next)
    requires WarrantedFor(id, WindowById(previous, id), WindowById(next, id), op)
    ensures Warranted(previous, next, op) && id in WindowIds(previous) + WindowIds(next)
  {
    LookupIs(previous, id);
    LookupIs(next, id);
    var p, n := WindowById(previous, id), WindowById(next, id);
    match op
    case WindowRemoved(_) => assert p.value in previous;
    case WindowAdded(_) =>
    case NodeReplaced(_, _) => assert Both(previous, next, p.value, n.value);
    case FocusChanged(_, _) => assert Both(previous, next, p.value, n.value);
  }

  lemma WarrantHasId(previous: seq<WindowState>, next: seq<WindowState>, op: DiffOp) returns (id: WindowId)
    requires StoreLaws.UniqueWindowIds(previous) && StoreLaws.UniqueWindowIds(next) && Warranted(previous, next, op)
    ensures WarrantedFor(id, WindowById(previous, id), WindowById(next, id), op)
  {
    match op
    case WindowRemoved(removed) =>
      id := removed;
      LookupIs(previous, id);
      LookupIs(next, id);
    case WindowAdded(window) =>
      id := window.windowId;
      LookupIs(previous, id);
      LookupIs(next, id);
    case NodeReplaced(root, node) =>
      var p, n :| Both(previous, next, p, n)
        && SameButTree(p, n) && p.root != n.root && root == p.root.elementId && node == n.root;
      id := p.windowId;
      LookupIs(previous, id);
      LookupIs(next, id);
    case FocusChanged(changed, focus) =>
      var p, n :| Both(previous, next, p, n)
        && changed == n.windowId && Trees.FocusedElementId(p.root) != Trees.FocusedElementId(n.root) == focus;
      id := changed;
      LookupIs(previous, id);
      LookupIs(next, id);
  }

  /**
   A batch holds an operation if and only if the snapshots warrant it: a window is removed
   when it is gone or anything but its tree changed, added when it is new or that changed; its
   root is replaced when its tree alone changed; its focus moves when the focused element did.
   No other operation occurs.
   */
  lemma DiffHoldsIff(previous: seq<WindowState>, next: seq<WindowState>, op: DiffOp)
    requires StoreLaws.UniqueWindowIds(previous) && StoreLaws.UniqueWindowIds(next)
    ensures op in DiffOps(previous, next) <==> Warranted(previous, next, op)
  {
    OpsAreWarrantedFor(previous, next, op);
    if op in DiffOps(previous, next) {
      var id :| id in WindowIds(previous) + WindowIds(next)
        && WarrantedFor(id, WindowById(previous, id), WindowById(next, id), op);
      WarrantedIff(previous, next, id, op);
    } else if Warranted(previous, next, op) {
      var id := WarrantHasId(previous, next, op);
      WarrantedIff(previous, next, id, op);
    }
  }

  /** A window on both sides, of snapshots that can be diffed. */
  lemma ChangedWindowOps(previous: seq<WindowState>, next: seq<WindowState>, p: WindowState, n: WindowState,
                         focus: Option<ElementId>)
    requires RoundTrip.Diffable(previous, next) && Both(previous, next, p, n)
    ensures var ops := DiffOps(previous, next);
      && (WindowRemoved(p.windowId) in ops <==> p.(root := n.root) != n)
      && (WindowAdded(n) in ops <==> p.(root := n.root) != n)
      && (NodeReplaced(p.root.elementId, n.root) in ops <==> p.(root := n.root) == n && p.root != n.root)
      && (FocusChanged(p.windowId, focus) in ops <==>
            Trees.FocusedElementId(p.root) != Trees.FocusedElementId(n.root) == focus)
  {
    RoundTrip.SortedIdsAreUnique(previous);
    RoundTrip.SortedIdsAreUnique(next);
    DiffHoldsIff(previous, next, WindowRemoved(p.windowId));
    DiffHoldsIff(previous, next, WindowAdded(n));
    DiffHoldsIff(previous, next, NodeReplaced(p.root.elementId, n.root));
    DiffHoldsIff(previous, next, FocusChanged(p.windowId, focus));
    SameIdSameWindow(previous, p);
    SameIdSameWindow(next, n);
    forall q | q in previous && q.root.elementId == p.root.elementId ensures q == p {
      assert Trees.Contains(p.root, q.root.elementId);
    }
  }

  lemma SameIdSameWindow(windows: seq<WindowState>, w: WindowState)
    requires StoreLaws.UniqueWindowIds(windows) && w in windows
    ensures forall x | x in windows && x.windowId == w.windowId :: x == w
  {
  }

  /** A window on one side only is removed or added, and nothing else. */
  lemma OneSidedOps(previous: seq<WindowState>, next: seq<WindowState>, w: WindowState, focus: Option<ElementId>)
    requires StoreLaws.UniqueWindowIds(previous) && StoreLaws.UniqueWindowIds(next)
    ensures var ops := DiffOps(previous, next);
      && (w in previous && (forall n | n in next :: n.windowId != w.windowId) ==>
            WindowRemoved(w.windowId) in ops && FocusChanged(w.windowId, focus) !in ops)
      && (w in next && (forall p | p in previous :: p.windowId != w.windowId) ==>
            WindowAdded(w) in ops && WindowRemoved(w.windowId) !in ops && FocusChanged(w.windowId, focus) !in ops)
  {
    DiffHoldsIff(previous, next, WindowRemoved(w.windowId));
    DiffHoldsIff(previous, next, WindowAdded(w));
    DiffHoldsIff(previous, next, FocusChanged(w.windowId, focus));
  }

  /** No operation is emitted twice. */
  ghost predicate AllDifferent(ops: seq<DiffOp>) {
    forall i, j | 0 <= i < j < |ops| :: ops[i] != ops[j]
  }

  lemma ConcatDifferent(first: seq<DiffOp>, second: seq<DiffOp>)
    requires AllDifferent(first) && AllDifferent(second) && forall op | op in first :: op !in second
    ensures AllDifferent(first + second)
  {
    forall i, j | 0 <= i < j < |first + second| ensures (first + second)[i] != (first + second)[j] {
      assert i < |first| ==> first[i] in first;
      assert j >= |first| ==> second[j - |first|] in second;
    }
  }

  lemma {:induction false} OpsOfIdsDiffer(ids: seq<WindowId>, previous: seq<WindowState>, next: seq<WindowState>)
    requires Sorting.Sorted(Text.Before, ids) && RoundTrip.Diffable(previous, next)
    ensures AllDifferent(OpsForIds(ids, previous, next))
    decreases ids
  {
    if ids != [] {
      var id, rest := ids[0], ids[1..];
      var p, n := WindowById(previous, id), WindowById(next, id);
      OpsOfIdsDiffer(rest, previous, next);
      forall op | op in WindowOps(id, p, n) ensures op !in OpsForIds(rest, previous, next) {
        OpsOfIds(rest, previous, next, op);
        forall other | other in rest ensures !HeldBy(other, previous, next, op) {
          Text.BeforeIrreflexive(id);
          OtherIdOtherOps(previous, next, id, other, op);
        }
      }
      ConcatDifferent(WindowOps(id, p, n), OpsForIds(rest, previous, next));
    }
  }

  lemma OtherIdOtherOps(previous: seq<WindowState>, next: seq<WindowState>, id: WindowId, other: WindowId, op: DiffOp)
    requires RoundTrip.Diffable(previous, next) && id != other
    requires op in WindowOps(id, WindowById(previous, id), WindowById(next, id))
    ensures op !in WindowOps(other, WindowById(previous, other), WindowById(next, other))
  {
    RoundTrip.SortedIdsAreUnique(previous);
    RoundTrip.SortedIdsAreUnique(next);
    LookupIs(previous, id);
    LookupIs(next, id);
    LookupIs(previous, other);
    LookupIs(next, other);
    OneIdOps(id, WindowById(previous, id), WindowById(next, id), op);
    OneIdOps(other, WindowById(previous, other), WindowById(next, other), op);
    if op.NodeReplaced? && WindowById(previous, other).Some? {
      var p, q := WindowById(previous, id).value, WindowById(previous, other).value;
      assert q in previous && p in previous && q.windowId != p.windowId;
      assert !Trees.Contains(q.root, p.root.elementId);
    }
  }

  lemma DiffOpsDiffer(previous: seq<WindowState>, next: seq<WindowState>)
    requires RoundTrip.Diffable(previous, next)
    ensures AllDifferent(DiffOps(previous, next))
  {
    OpsOfIdsDiffer(Sorting.SortedKeys(WindowIds(previous) + WindowIds(next)), previous, next);
  }

  // -------------------------------------------------------------- focused elements

  /** The reported focus is the first focused node in preorder. */
  ghost predicate FirstFocused(nodes: seq<ElementNode>, focus: Option<ElementId>) {
    match focus
    case None => forall i | 0 <= i < |nodes| :: !nodes[i].states.focused
    case Some(id) =>
      exists i | 0 <= i < |nodes| ::
        nodes[i].states.focused && nodes[i].elementId == id && forall j | 0 <= j < i :: !nodes[j].states.focused
  }

  lemma FirstFocusedConcat(first: seq<ElementNode>, second: seq<ElementNode>, a: Option<ElementId>, b: Option<ElementId>)
    requires FirstFocused(first, a) && FirstFocused(second, b)
    ensures FirstFocused(first + second, if a.Some? then a else b)
  {
    var all := first + second;
    if a.Some? {
      var i :| 0 <= i < |first| && first[i].states.focused && first[i].elementId == a.value
        && forall j | 0 <= j < i :: !first[j].states.focused;
      assert all[i] == first[i];
    } else if b.Some? {
      var i :| 0 <= i < |second| && second[i].states.focused && second[i].elementId == b.value
        && forall j | 0 <= j < i :: !second[j].states.focused;
      assert all[|first| + i] == second[i];
      forall j | 0 <= j < |first| + i ensures !all[j].states.focused {
        assert j >= |first| ==> all[j] == second[j - |first|];
      }
    }
  }

  lemma {:induction false} FocusIsFirstInPreorder(node: ElementNode)
    ensures FirstFocused(EditLaws.Preorder(node), Trees.FocusedElementId(node))
    decreases node, 1
  {
    ForestFocusIsFirst(node.children);
    var own := if node.states.focused then Some(node.elementId) else None;
    var root := [EditLaws.Bare(node)];
    assert node.states.focused ==> root[0].states.focused && root[0].elementId == node.elementId;
    assert FirstFocused(root, own);
    FirstFocusedConcat([EditLaws.Bare(node)], EditLaws.PreorderForest(node.children), own,
                       Trees.FocusedInForest(node.children));
  }

  lemma {:induction false} ForestFocusIsFirst(nodes: seq<ElementNode>)
    ensures FirstFocused(EditLaws.PreorderForest(nodes), Trees.FocusedInForest(nodes))
    decreases nodes, 0
  {
    if nodes != [] {
      FocusIsFirstInPreorder(nodes[0]);
      ForestFocusIsFirst(nodes[1..]);
      FirstFocusedConcat(EditLaws.Preorder(nodes[0]), EditLaws.PreorderForest(nodes[1..]),
                         Trees.FocusedElementId(nodes[0]), Trees.FocusedInForest(nodes[1..]));
    }
  }
}
