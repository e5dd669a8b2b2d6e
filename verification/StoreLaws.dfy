/** What every operation of the store keeps: tree shape, revisions and the recent-diff ring. */
module StoreLaws {
  import opened Wrappers
  import opened Domain
  import opened Trees
  import opened StateStore
  import Sorting
  import Text

  // --------------------------------------------------------------- tree shape

  ghost predicate UniqueWindowIds(windows: seq<WindowState>) {
    forall i, j | 0 <= i < j < |windows| :: windows[i].windowId != windows[j].windowId
  }

  predicate HasWindow(windows: seq<WindowState>, id: WindowId) {
    exists w | w in windows :: w.windowId == id
  }

  lemma HasWindowCons(first: WindowState, rest: seq<WindowState>, id: WindowId)
    ensures HasWindow([first] + rest, id) <==> first.windowId == id || HasWindow(rest, id)
  {
    assert forall w :: w in [first] + rest <==> w == first || w in rest;
  }

  lemma HeadIdIsNew(windows: seq<WindowState>)
    requires UniqueWindowIds(windows) && windows != []
    ensures forall w | w in windows[1..] :: w.windowId != windows[0].windowId
    ensures UniqueWindowIds(windows[1..])
    ensures forall w :: w in windows <==> w == windows[0] || w in windows[1..]
  {
    assert windows == [windows[0]] + windows[1..];
  }

  lemma PrependUnique(window: WindowState, windows: seq<WindowState>)
    requires UniqueWindowIds(windows) && forall w | w in windows :: w.windowId != window.windowId
    ensures UniqueWindowIds([window] + windows)
  {
  }

  ghost predicate RootsWellParented(windows: seq<WindowState>) {
    forall i | 0 <= i < |windows| :: WellParented(windows[i].root, None)
  }

  ghost predicate WellShaped(windows: seq<WindowState>) {
    UniqueWindowIds(windows) && RootsWellParented(windows)
  }

  /** The parent links of added windows are the only ones an operation trusts. */
  ghost predicate BringsWellShaped(op: DiffOp) {
    op.WindowAdded? ==> WellParented(op.window.root, None)
  }

  ghost predicate ChildrenWellParented(nodes: seq<ElementNode>, ownerId: ElementId) {
    forall i | 0 <= i < |nodes| :: WellParented(nodes[i], Some(ownerId))
  }

  lemma {:induction false} UpsertChildKeepsShape(children: seq<ElementNode>, child: ElementNode, ownerId: ElementId)
    requires ChildrenWellParented(children, ownerId) && WellParented(child, Some(ownerId))
    ensures ChildrenWellParented(UpsertChild(children, child), ownerId)
  {
    if children != [] { UpsertChildKeepsShape(children[1..], child, ownerId); }
  }

  lemma EditKeepsShape(edit: NodeEdit, node: ElementNode, parentId: Option<ElementId>)
    requires WellParented(node, parentId)
    ensures ApplyEdit(edit, node).Ok? ==> WellParented(ApplyEdit(edit, node).value, parentId)
  {
    if edit.AttachChild? {
      ReparentIsWellParented(edit.child, Some(node.elementId));
      UpsertChildKeepsShape(node.children, Reparent(edit.child, Some(node.elementId)), node.elementId);
    }
  }

  lemma {:induction false} EditNodeKeepsShape(node: ElementNode, id: ElementId, edit: NodeEdit, parentId: Option<ElementId>)
    requires WellParented(node, parentId)
    ensures EditNode(node, id, edit).Edited? ==> WellParented(EditNode(node, id, edit).value, parentId)
    decreases node, 1
  {
    if node.elementId == id { EditKeepsShape(edit, node, parentId); }
    else { EditForestKeepsShape(node.children, id, edit, node.elementId); }
  }

  lemma {:induction false} EditForestKeepsShape(nodes: seq<ElementNode>, id: ElementId, edit: NodeEdit, ownerId: ElementId)
    requires ChildrenWellParented(nodes, ownerId)
    ensures EditForest(nodes, id, edit).Edited? ==> ChildrenWellParented(EditForest(nodes, id, edit).value, ownerId)
    decreases nodes, 0
  {
    if nodes != [] {
      EditNodeKeepsShape(nodes[0], id, edit, Some(ownerId));
      EditForestKeepsShape(nodes[1..], id, edit, ownerId);
    }
  }

  lemma {:induction false} RewriteChildKeepsShape(nodes: seq<ElementNode>, ownerId: ElementId, id: ElementId,
                                                  replacement: Option<ElementNode>)
    requires ChildrenWellParented(nodes, ownerId)
    ensures var r := RewriteChild(nodes, ownerId, id, replacement); r.Some? ==> ChildrenWellParented(r.value, ownerId)
    decreases nodes, 1
  {
    if ChildIndex(nodes, id).None? { RewriteBelowKeepsShape(nodes, ownerId, id, replacement); }
    else {
      ChildIndexInRange(nodes, id);
      if replacement.Some? { ReparentIsWellParented(replacement.value, Some(ownerId)); }
    }
  }

  lemma {:induction false} RewriteBelowKeepsShape(nodes: seq<ElementNode>, ownerId: ElementId, id: ElementId,
                                                  replacement: Option<ElementNode>)
    requires ChildrenWellParented(nodes, ownerId)
    ensures var r := RewriteBelow(nodes, id, replacement); r.Some? ==> ChildrenWellParented(r.value, ownerId)
    decreases nodes, 0
  {
    if nodes != [] {
      assert WellParented(nodes[0], Some(ownerId));
      RewriteChildKeepsShape(nodes[0].children, nodes[0].elementId, id, replacement);
      RewriteBelowKeepsShape(nodes[1..], ownerId, id, replacement);
    }
  }

  /** The ids of two window lists agree position by position, and the roots are well parented. */
  ghost predicate SameIdsWellParented(before: seq<WindowState>, after: seq<WindowState>) {
    && |before| == |after|
    && RootsWellParented(after)
    && forall i | 0 <= i < |before| :: before[i].windowId == after[i].windowId
  }

  lemma {:induction false} EditWindowsKeepsShape(windows: seq<WindowState>, id: ElementId, edit: NodeEdit)
    requires RootsWellParented(windows)
    ensures var r := EditWindows(windows, id, edit); r.Edited? ==> SameIdsWellParented(windows, r.value)
  {
    if windows != [] {
      EditNodeKeepsShape(windows[0].root, id, edit, None);
      EditWindowsKeepsShape(windows[1..], id, edit);
    }
  }

  lemma {:induction false} RemoveNodeKeepsShape(windows: seq<WindowState>, id: ElementId)
    requires RootsWellParented(windows)
    ensures var r := RemoveNode(windows, id); r.Some? ==> SameIdsWellParented(windows, r.value)
  {
    if windows != [] {
      assert WellParented(windows[0].root, None);
      RewriteChildKeepsShape(windows[0].root.children, windows[0].root.elementId, id, None);
      RemoveNodeKeepsShape(windows[1..], id);
    }
  }

  lemma {:induction false} ReplaceNodeKeepsShape(windows: seq<WindowState>, id: ElementId, node: ElementNode)
    requires RootsWellParented(windows)
    ensures var r := ReplaceNode(windows, id, node); r.Some? ==> SameIdsWellParented(windows, r.value)
  {
    if windows != [] {
      assert WellParented(windows[0].root, None);
      ReparentIsWellParented(node, None);
      RewriteChildKeepsShape(windows[0].root.children, windows[0].root.elementId, id, Some(node));
      ReplaceNodeKeepsShape(windows[1..], id, node);
    }
  }

  lemma {:induction false} ChangeFocusKeepsShape(windows: seq<WindowState>, id: WindowId, focus: Option<ElementId>)
    requires RootsWellParented(windows)
    ensures SameIdsWellParented(windows, ChangeFocus(windows, id, focus).windows)
  {
    if windows != [] {
      ClearFocusKeepsShape(windows[0].root, None);
      if focus.Some? { EditNodeKeepsShape(ClearFocus(windows[0].root), focus.value, SetFocused, None); }
      ChangeFocusKeepsShape(windows[1..], id, focus);
    }
  }

  lemma {:induction false} UpsertWindowKeepsShape(windows: seq<WindowState>, window: WindowState)
    requires WellShaped(windows) && WellParented(window.root, None)
    ensures WellShaped(UpsertWindow(windows, window))
    ensures forall w :: w in UpsertWindow(windows, window) ==> w == window || w in windows
  {
    if windows != [] {
      UpsertWindowKeepsShape(windows[1..], window);
      var rest := UpsertWindow(windows[1..], window);
      if windows[0].windowId != window.windowId {
        forall j | 0 <= j < |rest| ensures rest[j].windowId != windows[0].windowId {
          assert rest[j] in rest;
        }
      }
    }
  }

  lemma {:induction false} RemoveWindowKeepsShape(windows: seq<WindowState>, id: WindowId)
    requires WellShaped(windows)
    ensures var r := RemoveWindow(windows, id);
      r.Some? ==> WellShaped(r.value) && forall w :: w in r.value ==> w in windows
  {
    if windows != [] {
      RemoveWindowKeepsShape(windows[1..], id);
      var r := RemoveWindow(windows[1..], id);
      if windows[0].windowId != id && r.Some? {
        forall j | 0 <= j < |r.value| ensures r.value[j].windowId != windows[0].windowId {
          assert r.value[j] in windows[1..];
        }
      }
    }
  }

  /** Every operation, failing or not, keeps window ids unique and parent links true. */
  lemma ApplyOpKeepsShape(windows: seq<WindowState>, op: DiffOp)
    requires WellShaped(windows) && BringsWellShaped(op)
    ensures WellShaped(ApplyOp(windows, op).windows)
  {
    match op
    case WindowAdded(window) => UpsertWindowKeepsShape(windows, window);
    case WindowRemoved(id) => RemoveWindowKeepsShape(windows, id);
    case NodeAdded(parentId, node) => EditWindowsKeepsShape(windows, parentId, AttachChild(node));
    case NodeRemoved(id) => RemoveNodeKeepsShape(windows, id);
    case NodeReplaced(id, node) => ReplaceNodeKeepsShape(windows, id, node);
    case PropertyChanged(id, field, value) => EditWindowsKeepsShape(windows, id, SetProperty(field, value));
    case FocusChanged(id, focus) => ChangeFocusKeepsShape(windows, id, focus);
    case SnapshotResync(_) =>
  }

  lemma {:induction false} ApplyOpsKeepsShape(windows: seq<WindowState>, ops: seq<DiffOp>)
    requires WellShaped(windows)
    requires forall i | 0 <= i < |ops| :: BringsWellShaped(ops[i])
    ensures WellShaped(ApplyOps(windows, ops).windows)
    decreases ops
  {
    if ops != [] {
      ApplyOpKeepsShape(windows, ops[0]);
      if ApplyOp(windows, ops[0]).error.None? {
        ApplyOpsKeepsShape(ApplyOp(windows, ops[0]).windows, ops[1..]);
      }
    }
  }

  /** The operation fails on the windows that those before it left behind. */
  ghost predicate FailsAt(windows: seq<WindowState>, ops: seq<DiffOp>, i: nat)
    requires i < |ops|
  {
    ApplyOps(windows, ops[..i]).error.None? && ApplyOp(ApplyOps(windows, ops[..i]).windows, ops[i]).error.Some?
  }

  lemma FailsLater(windows: seq<WindowState>, ops: seq<DiffOp>, i: nat)
    requires 0 < i < |ops| && ApplyOp(windows, ops[0]).error.None?
    ensures var rest := ApplyOp(windows, ops[0]).windows;
      && ApplyOps(windows, ops[..i]) == ApplyOps(rest, ops[1..][..i - 1])
      && (FailsAt(windows, ops, i) <==> FailsAt(rest, ops[1..], i - 1))
  {
    assert ops[..i][1..] == ops[1..][..i - 1];
  }

  /**
   A batch fails if and only if one of its operations does, and at that operation: the windows
   and the error are its own, so the edits before it stay and none after it is tried.
   */
  lemma {:induction false} BatchStopsAtFailure(windows: seq<WindowState>, ops: seq<DiffOp>)
    ensures ApplyOps(windows, ops).error.Some? <==> exists i | 0 <= i < |ops| :: FailsAt(windows, ops, i)
    ensures forall i | 0 <= i < |ops| && FailsAt(windows, ops, i) ::
      ApplyOps(windows, ops) == ApplyOp(ApplyOps(windows, ops[..i]).windows, ops[i])
    decreases ops
  {
    if ops != [] {
      var first := ApplyOp(windows, ops[0]);
      assert ops[..0] == [];
      assert FailsAt(windows, ops, 0) <==> first.error.Some?;
      if first.error.Some? {
        forall i | 0 < i < |ops| ensures !FailsAt(windows, ops, i) {
          assert ops[..i][0] == ops[0];
        }
      } else {
        BatchStopsAtFailure(first.windows, ops[1..]);
        forall i | 0 < i < |ops| ensures FailsAt(windows, ops, i) <==> FailsAt(first.windows, ops[1..], i - 1) {
          FailsLater(windows, ops, i);
        }
        forall i | 0 <= i < |ops| && FailsAt(windows, ops, i)
          ensures ApplyOps(windows, ops) == ApplyOp(ApplyOps(windows, ops[..i]).windows, ops[i])
        {
          FailsLater(windows, ops, i);
        }
        if i :| 0 <= i < |ops| - 1 && FailsAt(first.windows, ops[1..], i) {
          assert FailsAt(windows, ops, i + 1);
        }
      }
    }
  }

  ghost predicate FirstRequest(ops: seq<DiffOp>, i: nat)
    requires i < |ops|
  {
    ops[i].SnapshotResync? && forall j | 0 <= j < i :: !ops[j].SnapshotResync?
  }

  /** Past the revision guards, a batch raises the flag with its first resync request, even if it then fails. */
  lemma {:induction false} FirstRequestFlags(ops: seq<DiffOp>)
    ensures RequestedResync(ops).None? <==> forall i | 0 <= i < |ops| :: !ops[i].SnapshotResync?
    ensures forall i | 0 <= i < |ops| && FirstRequest(ops, i) :: RequestedResync(ops) == Some(ops[i].reason)
  {
    if ops != [] {
      FirstRequestFlags(ops[1..]);
      forall i | 0 < i < |ops| && FirstRequest(ops, i) ensures FirstRequest(ops[1..], i - 1) {
        assert forall j | 0 <= j < i - 1 :: ops[1..][j] == ops[j + 1];
      }
    }
  }

  lemma FlagAfterBatch(store: Store, diff: DiffBatch, i: nat)
    requires store.snapshot.Some? && diff.baseRev == store.rev < diff.newRev && i < |diff.ops|
    ensures FirstRequest(diff.ops, i) ==> ApplyDiff(store, diff).0.resync == Some(diff.ops[i].reason)
    ensures (forall j | 0 <= j < |diff.ops| :: !diff.ops[j].SnapshotResync?) ==>
      ApplyDiff(store, diff).0.resync == store.resync
  {
    FirstRequestFlags(diff.ops);
  }

  lemma WindowOrderIsPreorder()
    ensures Sorting.TotalPreorder(WindowAtMost)
  {
    forall a: WindowState, b: WindowState ensures WindowAtMost(a, b) || WindowAtMost(b, a) {
      Text.AtMostIsTotalOrder(a.windowId, b.windowId, b.windowId);
    }
    forall a: WindowState, b: WindowState, c: WindowState | WindowAtMost(a, b) && WindowAtMost(b, c)
      ensures WindowAtMost(a, c)
    {
      Text.AtMostIsTotalOrder(a.windowId, b.windowId, c.windowId);
    }
  }

  lemma {:induction false} InsertKeepsUnique(window: WindowState, windows: seq<WindowState>)
    requires UniqueWindowIds(windows)
    requires forall j | 0 <= j < |windows| :: windows[j].windowId != window.windowId
    ensures UniqueWindowIds(Sorting.Insert(WindowAtMost, window, windows))
  {
    if windows != [] && !WindowAtMost(window, windows[0]) {
      InsertKeepsUnique(window, windows[1..]);
      var rest := Sorting.Insert(WindowAtMost, window, windows[1..]);
      Sorting.InsertPermutes(WindowAtMost, window, windows[1..]);
      forall j | 0 <= j < |rest| ensures rest[j].windowId != windows[0].windowId {
        assert rest[j] in multiset(rest);
        assert rest[j] in multiset([window] + windows[1..]);
        assert rest[j] == window || rest[j] in windows[1..];
      }
    }
  }

  lemma {:induction false} SortKeepsUnique(windows: seq<WindowState>)
    requires UniqueWindowIds(windows)
    ensures UniqueWindowIds(SortWindows(windows))
  {
    if windows != [] {
      SortKeepsUnique(windows[1..]);
      var rest := SortWindows(windows[1..]);
      forall j | 0 <= j < |rest| ensures rest[j].windowId != windows[0].windowId {
        Sorting.SortMembers(WindowAtMost, windows[1..], rest[j]);
      }
      InsertKeepsUnique(windows[0], rest);
    }
  }

  /** Sorting windows with distinct ids yields strictly ascending ids. */
  lemma SortIsStrict(windows: seq<WindowState>)
    requires UniqueWindowIds(windows)
    ensures Sorting.Sorted(WindowBefore, SortWindows(windows))
  {
    var sorted := SortWindows(windows);
    WindowOrderIsPreorder();
    Sorting.SortSorts(WindowAtMost, windows);
    SortKeepsUnique(windows);
    forall i, j | 0 <= i < j < |sorted| ensures WindowBefore(sorted[i], sorted[j]) {
      Text.BeforeTotal(sorted[i].windowId, sorted[j].windowId);
      assert WindowAtMost(sorted[i], sorted[j]);
    }
  }

  lemma SortKeepsShape(windows: seq<WindowState>)
    requires WellShaped(windows)
    ensures WellShaped(SortWindows(windows))
    ensures Sorting.Sorted(WindowBefore, SortWindows(windows))
  {
    var sorted := SortWindows(windows);
    forall i | 0 <= i < |sorted| ensures WellParented(sorted[i].root, None) {
      Sorting.SortMembers(WindowAtMost, windows, sorted[i]);
    }
    SortKeepsUnique(windows);
    SortIsStrict(windows);
  }

  predicate WindowBefore(a: WindowState, b: WindowState) {
    Text.Before(a.windowId, b.windowId)
  }

  ghost predicate StoreWellShaped(store: Store) {
    store.snapshot.Some? ==> WellShaped(store.snapshot.value.windows)
  }

  /**
   A batch keeps the store's trees in shape even when it fails half way, and an accepted
   batch leaves the windows strictly sorted by id.
   */
  lemma ApplyDiffKeepsShape(store: Store, diff: DiffBatch)
    requires StoreWellShaped(store)
    requires forall i | 0 <= i < |diff.ops| :: BringsWellShaped(diff.ops[i])
    ensures StoreWellShaped(ApplyDiff(store, diff).0)
    ensures ApplyDiff(store, diff).1.None? ==>
      Sorting.Sorted(WindowBefore, ApplyDiff(store, diff).0.snapshot.value.windows)
  {
    if store.snapshot.Some? {
      ApplyOpsKeepsShape(store.snapshot.value.windows, diff.ops);
      if ApplyDiff(store, diff).1.None? {
        SortKeepsShape(ApplyOps(store.snapshot.value.windows, diff.ops).windows);
      }
    }
  }

  // ------------------------------------------------------- the recent-diff ring

  /** A session's record after trying the batches in order on a snapshot. */
  function RecordRun(snapshot: Snapshot, batches: seq<DiffBatch>): Record {
    if batches == [] then RecordSnapshot(snapshot)
    else RecordDiff(RecordRun(snapshot, batches[..|batches| - 1]), batches[|batches| - 1]).0
  }

  /** The batches of a run that were accepted. */
  function Accepted(snapshot: Snapshot, batches: seq<DiffBatch>): seq<DiffBatch> {
    if batches == [] then []
    else
      var earlier := batches[..|batches| - 1];
      var last := batches[|batches| - 1];
      if RecordDiff(RecordRun(snapshot, earlier), last).1.None? then Accepted(snapshot, earlier) + [last]
      else Accepted(snapshot, earlier)
  }

  function LastOf<T>(n: nat, s: seq<T>): seq<T> {
    if |s| <= n then s else s[|s| - n..]
  }

  /** Each batch starts at the revision the one before it reached. */
  ghost predicate Chained(from: Revision, batches: seq<DiffBatch>, to: Revision)
    decreases batches
  {
    if batches == [] then from == to
    else
      && batches[0].baseRev == from
      && batches[0].newRev > from
      && Chained(batches[0].newRev, batches[1..], to)
  }

  lemma {:induction false} ChainExtends(from: Revision, batches: seq<DiffBatch>, to: Revision, next: DiffBatch)
    requires Chained(from, batches, to) && next.baseRev == to && next.newRev > to
    ensures Chained(from, batches + [next], next.newRev)
    decreases batches
  {
    if batches != [] {
      ChainExtends(batches[0].newRev, batches[1..], to, next);
      assert (batches + [next])[1..] == batches[1..] + [next];
    } else {
      assert [next][1..] == [];
      assert batches + [next] == [next];
    }
  }

  /**
   After any run of batches on a snapshot, stale, failing and accepted ones mixed, the
   ring holds the last sixteen accepted batches, the accepted batches form a chain of
   revisions from the snapshot to the store's revision, and the session reports it.
   */
  lemma {:induction false} RingHoldsAcceptedChain(snapshot: Snapshot, batches: seq<DiffBatch>)
    ensures RecordRun(snapshot, batches).recentDiffs == LastOf(MAX_RECENT_DIFFS, Accepted(snapshot, batches))
    ensures Chained(snapshot.rev, Accepted(snapshot, batches), RecordRun(snapshot, batches).store.rev)
    ensures RecordRun(snapshot, batches).lastRevision == Some(RecordRun(snapshot, batches).store.rev)
    ensures RecordRun(snapshot, batches).store.snapshot.Some?
    ensures RecordRun(snapshot, batches).store.snapshot.value.rev == RecordRun(snapshot, batches).store.rev
    decreases |batches|
  {
    if batches != [] {
      var earlier, last := batches[..|batches| - 1], batches[|batches| - 1];
      RingHoldsAcceptedChain(snapshot, earlier);
      var before := RecordRun(snapshot, earlier);
      if RecordDiff(before, last).1.None? {
        ChainExtends(snapshot.rev, Accepted(snapshot, earlier), before.store.rev, last);
      }
    }
  }

  /**
   While nothing was refused and at most sixteen batches arrived, the ring alone rebuilds
   the record from the snapshot.
   */
  lemma {:induction false} RingReplaysRecord(snapshot: Snapshot, batches: seq<DiffBatch>)
    requires |batches| <= MAX_RECENT_DIFFS && |Accepted(snapshot, batches)| == |batches|
    ensures RecordRun(snapshot, RecordRun(snapshot, batches).recentDiffs) == RecordRun(snapshot, batches)
  {
    RingHoldsAcceptedChain(snapshot, batches);
    AllAccepted(snapshot, batches);
  }

  lemma {:induction false} AllAccepted(snapshot: Snapshot, batches: seq<DiffBatch>)
    ensures |Accepted(snapshot, batches)| <= |batches|
    ensures |Accepted(snapshot, batches)| == |batches| ==> Accepted(snapshot, batches) == batches
    decreases |batches|
  {
    if batches != [] {
      AllAccepted(snapshot, batches[..|batches| - 1]);
      assert batches == batches[..|batches| - 1] + [batches[|batches| - 1]];
    }
  }
}
