/**
 Exactly when an operation means the same on both sides of the wire, and what happens when it
 does not: a focus move to an empty id arrives as a move to nothing.
 */
module WireDrift {
  import opened Wrappers
  import opened Domain
  import opened Trees
  import opened StateStore
  import opened StoreLaws
  import opened Wire
  import opened WireLaws
  import RoundTrip
  import SnapshotDiff
  import Sorting

  // ------------------------------------------------------------- counting focus

  /** The wire keeps every focused flag. */
  lemma {:induction false} NormalKeepsFocusCount(node: ElementNode)
    ensures FocusCount(NormalElement(node)) == FocusCount(node)
    decreases node, 1
  {
    NormalForestKeepsFocusCount(node.children, NormalElement(node).children);
  }

  lemma {:induction false} NormalForestKeepsFocusCount(nodes: seq<ElementNode>, normal: seq<ElementNode>)
    requires |normal| == |nodes| && forall i | 0 <= i < |nodes| :: normal[i] == NormalElement(nodes[i])
    ensures ForestFocusCount(normal) == ForestFocusCount(nodes)
    decreases nodes, 0
  {
    if nodes != [] {
      NormalKeepsFocusCount(nodes[0]);
      NormalForestKeepsFocusCount(nodes[1..], normal[1..]);
    }
  }

  /** Focused nodes on a whole desktop. */
  function FocusTotal(windows: seq<WindowState>): nat {
    if windows == [] then 0 else FocusCount(windows[0].root) + FocusTotal(windows[1..])
  }

  lemma SameFocusCount(a: WindowState, b: WindowState)
    requires SameWindow(a, b)
    ensures FocusCount(a.root) == FocusCount(b.root)
  {
    SameWindowParts(a, b);
    NormalKeepsFocusCount(a.root);
    NormalKeepsFocusCount(b.root);
  }

  lemma {:induction false} SameFocusTotal(a: seq<WindowState>, b: seq<WindowState>)
    requires SameWindows(a, b)
    ensures FocusTotal(a) == FocusTotal(b)
  {
    if a != [] {
      SameFocusCount(a[0], b[0]);
      SameFocusTotal(a[1..], b[1..]);
    }
  }

  lemma {:induction false} InsertFocusTotal(window: WindowState, windows: seq<WindowState>)
    ensures FocusTotal(Sorting.Insert(WindowAtMost, window, windows)) == FocusCount(window.root) + FocusTotal(windows)
  {
    if windows != [] && !WindowAtMost(window, windows[0]) {
      InsertFocusTotal(window, windows[1..]);
    }
  }

  lemma {:induction false} SortKeepsFocusTotal(windows: seq<WindowState>)
    ensures FocusTotal(SortWindows(windows)) == FocusTotal(windows)
  {
    if windows != [] {
      SortKeepsFocusTotal(windows[1..]);
      InsertFocusTotal(windows[0], SortWindows(windows[1..]));
    }
  }

  /** A focus move leaves one focused node, or none when it names none; it fails on a missing target. */
  lemma FocusRootCounts(root: ElementNode, focus: Option<ElementId>)
    ensures FocusRoot(root, focus).1.None? <==> focus.None? || Contains(root, focus.value)
    ensures FocusRoot(root, focus).1.None? ==> FocusCount(FocusRoot(root, focus).0) == if focus.Some? then 1 else 0
  {
    ClearFocusLeavesNone(root);
    if focus.Some? {
      RoundTrip.ClearFocusKeepsIds(root, focus.value);
      RoundTrip.SetFocusFinds(ClearFocus(root), focus.value);
      RoundTrip.SetFocusCounts(ClearFocus(root), focus.value);
    }
  }

  // ---------------------------------------------------------- the exact condition

  lemma {:induction false} FocusOnMissingWindow(windows: seq<WindowState>, id: WindowId, focus: Option<ElementId>)
    requires !HasWindow(windows, id)
    ensures ChangeFocus(windows, id, focus) == OpOutcome(windows, Some(MissingWindow(id)))
  {
    if windows != [] {
      assert windows == [windows[0]] + windows[1..];
      HasWindowCons(windows[0], windows[1..], id);
      FocusOnMissingWindow(windows[1..], id, focus);
    }
  }

  /** Moving focus to an empty id, and to nothing: one side fails, or has one focused node more. */
  lemma {:induction false} EmptyFocusOutcomes(a: seq<WindowState>, b: seq<WindowState>, id: WindowId)
    requires SameWindows(a, b) && HasWindow(a, id)
    ensures ChangeFocus(b, id, None).error.None?
    ensures ChangeFocus(a, id, Some("")).error.None? ==>
      FocusTotal(ChangeFocus(a, id, Some("")).windows) == FocusTotal(ChangeFocus(b, id, None).windows) + 1
  {
    SameWindowParts(a[0], b[0]);
    if a[0].windowId == id {
      EmptyFocusInFirst(a, b);
    } else {
      assert a == [a[0]] + a[1..];
      HasWindowCons(a[0], a[1..], id);
      EmptyFocusOutcomes(a[1..], b[1..], id);
      SameFocusCount(a[0], b[0]);
    }
  }

  lemma EmptyFocusInFirst(a: seq<WindowState>, b: seq<WindowState>)
    requires SameWindows(a, b) && a != []
    ensures FocusRoot(b[0].root, None).1.None?
    ensures FocusRoot(a[0].root, Some("")).1.None? ==>
      FocusCount(FocusRoot(a[0].root, Some("")).0) == FocusCount(FocusRoot(b[0].root, None).0) + 1
    ensures FocusTotal(a[1..]) == FocusTotal(b[1..])
  {
    FocusRootCounts(a[0].root, Some(""));
    FocusRootCounts(b[0].root, None);
    SameFocusTotal(a[1..], b[1..]);
  }

  /**
   The law of record: on caches equal up to the wire an operation and its wire form do the
   same, failures included, if and only if it is not a focus move to an empty id in a window
   that is there.
   */
  lemma ApplyOpSameIff(a: seq<WindowState>, b: seq<WindowState>, op: DiffOp)
    requires SameWindows(a, b)
    ensures SameOutcome(ApplyOp(a, op), ApplyOp(b, NormalOp(op))) <==> WireSafe(op) || !HasWindow(a, op.windowId)
  {
    if WireSafe(op) {
      ApplyOpSame(a, b, op);
    } else if HasWindow(a, op.windowId) {
      EmptyFocusOutcomes(a, b, op.windowId);
      if SameOutcome(ApplyOp(a, op), ApplyOp(b, NormalOp(op))) {
        SameFocusTotal(ApplyOp(a, op).windows, ApplyOp(b, NormalOp(op)).windows);
      }
    } else {
      SameHasWindow(a, b, op.windowId);
      FocusOnMissingWindow(a, op.windowId, Some(""));
      FocusOnMissingWindow(b, op.windowId, None);
    }
  }

  lemma {:induction false} SameHasWindow(a: seq<WindowState>, b: seq<WindowState>, id: WindowId)
    requires SameWindows(a, b)
    ensures HasWindow(a, id) <==> HasWindow(b, id)
  {
    if a != [] {
      SameWindowParts(a[0], b[0]);
      SameHasWindow(a[1..], b[1..], id);
      HasWindowCons(a[0], a[1..], id);
      HasWindowCons(b[0], b[1..], id);
      assert a == [a[0]] + a[1..] && b == [b[0]] + b[1..];
    }
  }

  // ------------------------------------------------------------------ the drift

  /** An accepted focus move names a window that is there. */
  lemma {:induction false} AcceptedFocusHasWindow(windows: seq<WindowState>, id: WindowId, focus: Option<ElementId>)
    requires ChangeFocus(windows, id, focus).error.None?
    ensures HasWindow(windows, id)
  {
    if windows[0].windowId != id { AcceptedFocusHasWindow(windows[1..], id, focus); }
    HasWindowCons(windows[0], windows[1..], id);
    assert windows == [windows[0]] + windows[1..];
  }

  /** Both sides take the batch up to its last operation alike, then the last one apart. */
  lemma DriftingOps(a: seq<WindowState>, b: seq<WindowState>, safe: seq<DiffOp>, id: WindowId)
    requires SameWindows(a, b) && forall i | 0 <= i < |safe| :: WireSafe(safe[i])
    requires ApplyOps(a, safe + [FocusChanged(id, Some(""))]).error.None?
    ensures var (x, y) := (ApplyOps(a, safe + [FocusChanged(id, Some(""))]),
                           ApplyOps(b, NormalOps(safe + [FocusChanged(id, Some(""))])));
      y.error.None? && FocusTotal(x.windows) == FocusTotal(y.windows) + 1
  {
    var last := FocusChanged(id, Some(""));
    ApplyOpsSame(a, b, safe);
    PrefixAccepted(a, safe, [last]);
    RoundTrip.ApplyTwo(a, safe, [last]);
    var x, y := ApplyOps(a, safe).windows, ApplyOps(b, NormalOps(safe)).windows;
    RoundTrip.ApplyOne(x, last);
    AcceptedFocusHasWindow(x, id, Some(""));
    EmptyFocusOutcomes(x, y, id);
    assert NormalOps(safe + [last]) == NormalOps(safe) + [FocusChanged(id, None)];
    RoundTrip.ApplyTwo(b, NormalOps(safe), [FocusChanged(id, None)]);
    RoundTrip.ApplyOne(y, FocusChanged(id, None));
  }

  lemma {:induction false} PrefixAccepted(windows: seq<WindowState>, first: seq<DiffOp>, second: seq<DiffOp>)
    requires ApplyOps(windows, first + second).error.None?
    ensures ApplyOps(windows, first).error.None?
    decreases first
  {
    if first != [] {
      assert (first + second)[0] == first[0] && (first + second)[1..] == first[1..] + second;
      PrefixAccepted(ApplyOp(windows, first[0]).windows, first[1..], second);
    }
  }

  /**
   An accepted batch that ends in a focus move to an empty id always drifts: the mirror accepts
   it too, takes no resync flag from it that the session does not take, and shows something
   else than the session.
   */
  lemma EmptyFocusIdDrifts(session: Store, mirror: Store, diff: DiffBatch, safe: seq<DiffOp>, id: WindowId)
    requires Mirrors(session, mirror) && session.resync == mirror.resync
    requires diff.ops == safe + [FocusChanged(id, Some(""))] && forall i | 0 <= i < |safe| :: WireSafe(safe[i])
    requires ApplyDiff(session, diff).1.None?
    ensures var (s, m) := (ApplyDiff(session, diff), ApplyDiff(mirror, NormalDiff(diff)));
      m.1.None? && m.0.resync == s.0.resync && m.0.rev == s.0.rev && !Mirrors(s.0, m.0)
  {
    var a, b := session.snapshot.value.windows, mirror.snapshot.value.windows;
    RequestedResyncSame(diff.ops);
    DriftingOps(a, b, safe, id);
    var x, y := ApplyOps(a, diff.ops).windows, ApplyOps(b, NormalOps(diff.ops)).windows;
    SortKeepsFocusTotal(x);
    SortKeepsFocusTotal(y);
    if SameWindows(SortWindows(x), SortWindows(y)) { SameFocusTotal(SortWindows(x), SortWindows(y)); }
  }

  /** An input that drifts: a window whose root has no id, given the focus. */
  function NamelessWindow(): WindowState {
    var root := RoundTrip.LeafNode("", "", false).(parentId := None);
    WindowState("w", 0, None, "", Rect(0, 0, 0, 0), Uia, 1.0, root)
  }

  lemma NamelessWindowDrifts()
    ensures var first := Snapshot(1, 0, [NamelessWindow()]);
      var diff := DiffBatch(1, 2, 0, [FocusChanged("w", Some(""))]);
      var (session, mirror) := (ReplaceSnapshot(first), ReplaceSnapshot(NormalSnapshot(first)));
      var (s, m) := (ApplyDiff(session, diff), ApplyDiff(mirror, NormalDiff(diff)));
      && Mirrors(session, mirror)
      && s.1.None? && m.1.None? && s.0.resync.None? && m.0.resync.None?
      && !Mirrors(s.0, m.0)
  {
    var first := Snapshot(1, 0, [NamelessWindow()]);
    var op := FocusChanged("w", Some(""));
    SnapshotIsMirrored(first);
    RoundTrip.ApplyOne(first.windows, op);
    assert [] + [op] == [op];
    EmptyFocusIdDrifts(ReplaceSnapshot(first), ReplaceSnapshot(NormalSnapshot(first)), DiffBatch(1, 2, 0, [op]), [], "w");
  }

  // -------------------------------------------------- what the observer can emit

  ghost predicate NoEmptyIds(windows: seq<WindowState>) {
    forall w | w in windows :: !Contains(w.root, "")
  }

  /**
   The observer never emits such an operation for trees without an empty id: a focus operation
   names the focused node of a next window.
   */
  lemma {:induction false} ObservedOpsAreWireSafe(ids: seq<WindowId>, previous: seq<WindowState>, next: seq<WindowState>)
    requires NoEmptyIds(next)
    ensures forall op | op in SnapshotDiff.OpsForIds(ids, previous, next) :: WireSafe(op)
  {
    if ids != [] {
      WindowOpsAreWireSafe(ids[0], SnapshotDiff.WindowById(previous, ids[0]), next);
      ObservedOpsAreWireSafe(ids[1..], previous, next);
    }
  }

  lemma WindowOpsAreWireSafe(id: WindowId, previous: Option<WindowState>, next: seq<WindowState>)
    requires NoEmptyIds(next)
    ensures forall op | op in SnapshotDiff.WindowOps(id, previous, SnapshotDiff.WindowById(next, id)) :: WireSafe(op)
  {
    var n := SnapshotDiff.WindowById(next, id);
    if n.Some? {
      SnapshotDiff.WindowByIdIsMember(next, id);
      FocusedIffCounted(n.value.root);
    }
  }

  lemma DiffOpsAreWireSafe(previous: seq<WindowState>, next: seq<WindowState>)
    requires NoEmptyIds(next)
    ensures forall op | op in SnapshotDiff.DiffOps(previous, next) :: WireSafe(op)
  {
    var ids := SnapshotDiff.WindowIds(previous) + SnapshotDiff.WindowIds(next);
    ObservedOpsAreWireSafe(Sorting.SortedKeys(ids), previous, next);
  }
}
