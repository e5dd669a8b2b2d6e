/**
 Focus flags influence nothing but focus flags: an operation on a cache and on the same cache
 with all focus cleared fails alike, and leaves the same windows apart from focus.
 */
module FocusBlind {
  import opened Wrappers
  import opened Domain
  import opened Trees
  import opened StateStore
  import RoundTrip
  import Sorting

  function ClearForest(nodes: seq<ElementNode>): seq<ElementNode> {
    if nodes == [] then [] else [ClearFocus(nodes[0])] + ClearForest(nodes[1..])
  }

  function Unfocused(window: WindowState): WindowState {
    window.(root := ClearFocus(window.root))
  }

  function UnfocusedWindows(windows: seq<WindowState>): seq<WindowState> {
    if windows == [] then [] else [Unfocused(windows[0])] + UnfocusedWindows(windows[1..])
  }

  /** The same windows, apart from which elements are focused. */
  predicate SameUpToFocus(a: seq<WindowState>, b: seq<WindowState>) {
    UnfocusedWindows(a) == UnfocusedWindows(b)
  }

  // -------------------------------------------------------------------- elements

  lemma {:induction false} ClearForestIs(nodes: seq<ElementNode>)
    ensures |ClearForest(nodes)| == |nodes|
    ensures forall i | 0 <= i < |nodes| :: ClearForest(nodes)[i] == ClearFocus(nodes[i])
  {
    if nodes != [] { ClearForestIs(nodes[1..]); }
  }

  lemma ClearedChildren(node: ElementNode)
    ensures ClearFocus(node) == WithFocused(node, false).(children := ClearForest(node.children))
  {
    ClearForestIs(node.children);
    assert ClearFocus(node).children == ClearForest(node.children);
  }

  lemma ClearedWithChildren(node: ElementNode, children: seq<ElementNode>)
    ensures ClearFocus(node.(children := children)) == ClearFocus(node).(children := ClearForest(children))
  {
    ClearedChildren(node);
    ClearedChildren(node.(children := children));
  }

  lemma {:induction false} ClearTwice(node: ElementNode)
    ensures ClearFocus(ClearFocus(node)) == ClearFocus(node)
  {
    ClearFocusLeavesNone(node);
    ClearFocusOfUnfocused(ClearFocus(node));
  }

  lemma {:induction false} ClearForestTwice(nodes: seq<ElementNode>)
    ensures ClearForest(ClearForest(nodes)) == ClearForest(nodes)
  {
    if nodes != [] {
      ClearTwice(nodes[0]);
      ClearForestTwice(nodes[1..]);
    }
  }

  lemma {:induction false} ReparentCleared(node: ElementNode, parentId: Option<ElementId>)
    ensures Reparent(ClearFocus(node), parentId) == ClearFocus(Reparent(node, parentId))
  {
    var a, b := Reparent(ClearFocus(node), parentId), ClearFocus(Reparent(node, parentId));
    forall i | 0 <= i < |node.children| ensures a.children[i] == b.children[i] {
      ReparentCleared(node.children[i], Some(node.elementId));
    }
    assert a.children == b.children;
  }

  function ClearResult(result: Result<ElementNode, StateError>): Result<ElementNode, StateError> {
    match result case Ok(node) => Ok(ClearFocus(node)) case Err(e) => Err(e)
  }

  lemma SameRestSameCleared(a: ElementNode, b: ElementNode)
    requires WithFocused(a, false).(children := []) == WithFocused(b, false).(children := [])
    requires ClearForest(a.children) == ClearForest(b.children)
    ensures ClearFocus(a) == ClearFocus(b)
  {
    ClearedChildren(a);
    ClearedChildren(b);
    assert ClearFocus(a) == WithFocused(a, false).(children := []).(children := ClearForest(a.children));
  }

  /** A field changes alike, whatever the focus flag and the children. */
  lemma ChangeFieldIgnoresRest(node: ElementNode, focused: bool, children: seq<ElementNode>, target: Field, name: string,
                               value: PropertyValue)
    ensures var a := ChangeField(WithFocused(node, focused).(children := children), target, name, value);
      var b := ChangeField(node, target, name, value);
      && (a.Ok? <==> b.Ok?)
      && (a.Err? ==> a.error == b.error)
      && (a.Ok? ==> a.value.children == children && b.value.children == node.children)
      && (a.Ok? ==> WithFocused(a.value, false).(children := []) == WithFocused(b.value, false).(children := []))
  {
    if target.StateField? {
      match target.flag
      case EnabledFlag =>
      case VisibleFlag =>
      case FocusedFlag =>
      case SelectedFlag =>
      case ExpandedFlag =>
      case ToggledFlag =>
    }
  }

  /** A change of a field other than the children. */
  lemma ChangeFieldCleared(node: ElementNode, target: Field, name: string, value: PropertyValue)
    ensures ClearResult(ChangeField(ClearFocus(node), target, name, value))
      == ClearResult(ChangeField(node, target, name, value))
  {
    ClearForestTwice(node.children);
    ClearedChildren(node);
    ChangeFieldIgnoresRest(node, false, ClearForest(node.children), target, name, value);
    var a, b := ChangeField(ClearFocus(node), target, name, value), ChangeField(node, target, name, value);
    if a.Ok? { SameRestSameCleared(a.value, b.value); }
  }

  lemma {:induction false} UpsertChildCleared(children: seq<ElementNode>, child: ElementNode)
    ensures ClearForest(UpsertChild(children, child)) == UpsertChild(ClearForest(children), ClearFocus(child))
  {
    if children != [] && children[0].elementId != child.elementId { UpsertChildCleared(children[1..], child); }
  }

  lemma ApplyEditCleared(edit: NodeEdit, node: ElementNode)
    ensures ClearResult(ApplyEdit(edit, ClearFocus(node))) == ClearResult(ApplyEdit(edit, node))
  {
    ClearedChildren(node);
    ClearForestTwice(node.children);
    match edit
    case SetFocused =>
      ClearedChildren(WithFocused(node, true));
      ClearedChildren(WithFocused(ClearFocus(node), true));
    case SetProperty(field, value) => ChangeFieldCleared(node, FieldOf(field), field, value);
    case AttachChild(child) =>
      var added := Reparent(child, Some(node.elementId));
      UpsertChildCleared(node.children, added);
      UpsertChildCleared(ClearForest(node.children), added);
      ClearTwice(node);
      ClearedWithChildren(node, UpsertChild(node.children, added));
      ClearedWithChildren(ClearFocus(node), UpsertChild(ClearForest(node.children), added));
  }

  function ClearNodeOutcome(outcome: EditOutcome<ElementNode>): EditOutcome<ElementNode> {
    match outcome case Edited(node) => Edited(ClearFocus(node)) case Refused(e) => Refused(e) case Absent => Absent
  }

  function ClearForestOutcome(outcome: EditOutcome<seq<ElementNode>>): EditOutcome<seq<ElementNode>> {
    match outcome case Edited(nodes) => Edited(ClearForest(nodes)) case Refused(e) => Refused(e) case Absent => Absent
  }

  lemma {:induction false} EditNodeCleared(node: ElementNode, id: ElementId, edit: NodeEdit)
    ensures ClearNodeOutcome(EditNode(ClearFocus(node), id, edit)) == ClearNodeOutcome(EditNode(node, id, edit))
    decreases node, 1
  {
    ClearedChildren(node);
    if node.elementId == id {
      ApplyEditCleared(edit, node);
    } else {
      EditForestCleared(node.children, id, edit);
      ClearTwice(node);
      var a, b := EditForest(ClearForest(node.children), id, edit), EditForest(node.children, id, edit);
      if a.Edited? {
        ClearedWithChildren(ClearFocus(node), a.value);
        ClearedWithChildren(node, b.value);
      }
    }
  }

  lemma {:induction false} EditForestCleared(nodes: seq<ElementNode>, id: ElementId, edit: NodeEdit)
    ensures ClearForestOutcome(EditForest(ClearForest(nodes), id, edit)) == ClearForestOutcome(EditForest(nodes, id, edit))
    decreases nodes, 0
  {
    if nodes != [] {
      var first, rest := ClearFocus(nodes[0]), ClearForest(nodes[1..]);
      EditNodeCleared(nodes[0], id, edit);
      ClearTwice(nodes[0]);
      ClearForestTwice(nodes[1..]);
      assert ClearForest(nodes) == [first] + rest;
      var a, b := EditNode(first, id, edit), EditNode(nodes[0], id, edit);
      if a.Edited? {
        ClearForestCons(a.value, rest);
        ClearForestCons(b.value, nodes[1..]);
      } else if a.Absent? {
        EditForestCleared(nodes[1..], id, edit);
        var p, q := EditForest(rest, id, edit), EditForest(nodes[1..], id, edit);
        if p.Edited? {
          ClearForestCons(first, p.value);
          ClearForestCons(nodes[0], q.value);
        }
      }
    }
  }

  lemma ClearForestCons(first: ElementNode, rest: seq<ElementNode>)
    ensures ClearForest([first] + rest) == [ClearFocus(first)] + ClearForest(rest)
  {
  }

  // -------------------------------------------------------------------- rewrites

  lemma {:induction false} ChildIndexCleared(nodes: seq<ElementNode>, id: ElementId)
    ensures ChildIndex(ClearForest(nodes), id) == ChildIndex(nodes, id)
  {
    if nodes != [] { ChildIndexCleared(nodes[1..], id); }
  }

  function ClearOption(node: Option<ElementNode>): Option<ElementNode> {
    match node case Some(n) => Some(ClearFocus(n)) case None => None
  }

  function ClearForestOption(nodes: Option<seq<ElementNode>>): Option<seq<ElementNode>> {
    match nodes case Some(n) => Some(ClearForest(n)) case None => None
  }

  lemma SplicedForestCleared(nodes: seq<ElementNode>, i: nat, node: ElementNode)
    requires i < |nodes|
    ensures i < |ClearForest(nodes)|
    ensures ClearForest(nodes[i := node]) == ClearForest(nodes)[i := ClearFocus(node)]
    ensures ClearForest(nodes[..i] + nodes[i + 1..]) == ClearForest(nodes)[..i] + ClearForest(nodes)[i + 1..]
  {
    ClearForestIs(nodes);
    ClearForestIs(nodes[i := node]);
    ClearForestIs(nodes[..i] + nodes[i + 1..]);
  }

  lemma {:induction false} RewriteChildCleared(nodes: seq<ElementNode>, ownerId: ElementId, id: ElementId,
                                               replacement: Option<ElementNode>)
    ensures RewriteChild(ClearForest(nodes), ownerId, id, ClearOption(replacement))
      == ClearForestOption(RewriteChild(nodes, ownerId, id, replacement))
    decreases nodes, 1
  {
    ChildIndexCleared(nodes, id);
    ChildIndexInRange(nodes, id);
    if ChildIndex(nodes, id).None? {
      RewriteBelowCleared(nodes, id, replacement);
    } else {
      var i := ChildIndex(nodes, id).value;
      var node := if replacement.Some? then Reparent(replacement.value, Some(ownerId)) else nodes[i];
      SplicedForestCleared(nodes, i, node);
      if replacement.Some? { ReparentCleared(replacement.value, Some(ownerId)); }
    }
  }

  lemma {:induction false} RewriteBelowCleared(nodes: seq<ElementNode>, id: ElementId, replacement: Option<ElementNode>)
    ensures RewriteBelow(ClearForest(nodes), id, ClearOption(replacement))
      == ClearForestOption(RewriteBelow(nodes, id, replacement))
    decreases nodes, 0
  {
    if nodes != [] {
      ClearedChildren(nodes[0]);
      RewriteChildCleared(nodes[0].children, nodes[0].elementId, id, replacement);
      RewriteBelowCleared(nodes[1..], id, replacement);
      var p := RewriteChild(nodes[0].children, nodes[0].elementId, id, replacement);
      if p.Some? { ClearedWithChildren(nodes[0], p.value); }
    }
  }

  // --------------------------------------------------------------------- windows

  function UnfocusedOption(windows: Option<seq<WindowState>>): Option<seq<WindowState>> {
    match windows case Some(w) => Some(UnfocusedWindows(w)) case None => None
  }

  function UnfocusedOutcome(outcome: EditOutcome<seq<WindowState>>): EditOutcome<seq<WindowState>> {
    match outcome case Edited(w) => Edited(UnfocusedWindows(w)) case Refused(e) => Refused(e) case Absent => Absent
  }

  lemma {:induction false} UnfocusedAre(windows: seq<WindowState>)
    ensures |UnfocusedWindows(windows)| == |windows|
    ensures forall i | 0 <= i < |windows| :: UnfocusedWindows(windows)[i] == Unfocused(windows[i])
  {
    if windows != [] { UnfocusedAre(windows[1..]); }
  }

  lemma {:induction false} UnfocusedTwice(windows: seq<WindowState>)
    ensures UnfocusedWindows(UnfocusedWindows(windows)) == UnfocusedWindows(windows)
  {
    if windows != [] {
      ClearTwice(windows[0].root);
      UnfocusedTwice(windows[1..]);
    }
  }

  lemma {:induction false} UpsertWindowUnfocused(windows: seq<WindowState>, window: WindowState)
    ensures UnfocusedWindows(UpsertWindow(windows, window)) == UpsertWindow(UnfocusedWindows(windows), Unfocused(window))
  {
    if windows != [] && windows[0].windowId != window.windowId { UpsertWindowUnfocused(windows[1..], window); }
  }

  lemma {:induction false} RemoveWindowUnfocused(windows: seq<WindowState>, id: WindowId)
    ensures RemoveWindow(UnfocusedWindows(windows), id) == UnfocusedOption(RemoveWindow(windows, id))
  {
    if windows != [] { RemoveWindowUnfocused(windows[1..], id); }
  }

  lemma UnfocusedCons(first: WindowState, rest: seq<WindowState>)
    ensures UnfocusedWindows([first] + rest) == [Unfocused(first)] + UnfocusedWindows(rest)
  {
  }

  lemma {:induction false} EditWindowsUnfocused(windows: seq<WindowState>, id: ElementId, edit: NodeEdit)
    ensures UnfocusedOutcome(EditWindows(UnfocusedWindows(windows), id, edit))
      == UnfocusedOutcome(EditWindows(windows, id, edit))
  {
    if windows != [] {
      var first, rest := Unfocused(windows[0]), UnfocusedWindows(windows[1..]);
      EditNodeCleared(windows[0].root, id, edit);
      ClearTwice(windows[0].root);
      UnfocusedTwice(windows[1..]);
      assert UnfocusedWindows(windows) == [first] + rest;
      var a, b := EditNode(first.root, id, edit), EditNode(windows[0].root, id, edit);
      if a.Edited? {
        UnfocusedCons(first.(root := a.value), rest);
        UnfocusedCons(windows[0].(root := b.value), windows[1..]);
      } else if a.Absent? {
        EditWindowsUnfocused(windows[1..], id, edit);
        var p, q := EditWindows(rest, id, edit), EditWindows(windows[1..], id, edit);
        if p.Edited? {
          UnfocusedCons(first, p.value);
          UnfocusedCons(windows[0], q.value);
        }
      }
    }
  }

  lemma RewriteInRootCleared(root: ElementNode, id: ElementId, replacement: Option<ElementNode>)
    ensures var (p, q) := (RewriteChild(root.children, root.elementId, id, replacement),
                           RewriteChild(ClearFocus(root).children, root.elementId, id, ClearOption(replacement)));
      && q == ClearForestOption(p)
      && (p.Some? ==> ClearFocus(root).(children := q.value) == ClearFocus(root.(children := p.value)))
  {
    ClearedChildren(root);
    RewriteChildCleared(root.children, root.elementId, id, replacement);
    var p := RewriteChild(root.children, root.elementId, id, replacement);
    if p.Some? { ClearedWithChildren(root, p.value); }
  }

  lemma {:induction false} RemoveNodeUnfocused(windows: seq<WindowState>, id: ElementId)
    ensures RemoveNode(UnfocusedWindows(windows), id) == UnfocusedOption(RemoveNode(windows, id))
  {
    if windows != [] {
      RewriteInRootCleared(windows[0].root, id, None);
      RemoveNodeUnfocused(windows[1..], id);
    }
  }

  lemma {:induction false} ReplaceNodeUnfocused(windows: seq<WindowState>, id: ElementId, node: ElementNode)
    ensures ReplaceNode(UnfocusedWindows(windows), id, ClearFocus(node)) == UnfocusedOption(ReplaceNode(windows, id, node))
  {
    if windows != [] {
      RewriteInRootCleared(windows[0].root, id, Some(node));
      ReparentCleared(node, None);
      ReplaceNodeUnfocused(windows[1..], id, node);
    }
  }

  predicate SameOutcomeUpToFocus(a: OpOutcome, b: OpOutcome) {
    a.error == b.error && SameUpToFocus(a.windows, b.windows)
  }

  /** A focus move clears the old focus first, so it does not even read it. */
  lemma FocusRootCleared(root: ElementNode, focus: Option<ElementId>)
    ensures FocusRoot(ClearFocus(root), focus) == FocusRoot(root, focus)
  {
    ClearTwice(root);
  }

  lemma {:induction false} ChangeFocusUnfocused(windows: seq<WindowState>, id: WindowId, focus: Option<ElementId>)
    ensures SameOutcomeUpToFocus(ChangeFocus(UnfocusedWindows(windows), id, focus), ChangeFocus(windows, id, focus))
  {
    if windows != [] {
      var first, rest := Unfocused(windows[0]), UnfocusedWindows(windows[1..]);
      assert UnfocusedWindows(windows) == [first] + rest;
      if windows[0].windowId == id {
        FocusRootCleared(windows[0].root, focus);
        UnfocusedTwice(windows[1..]);
        var root := FocusRoot(windows[0].root, focus).0;
        UnfocusedCons(first.(root := root), rest);
        UnfocusedCons(windows[0].(root := root), windows[1..]);
      } else {
        ChangeFocusUnfocused(windows[1..], id, focus);
        ClearTwice(windows[0].root);
        UnfocusedCons(first, ChangeFocus(rest, id, focus).windows);
        UnfocusedCons(windows[0], ChangeFocus(windows[1..], id, focus).windows);
      }
    }
  }

  // ------------------------------------------------------------------ operations

  lemma FromRewriteUnfocused(windows: seq<WindowState>, a: Option<seq<WindowState>>, b: Option<seq<WindowState>>,
                             e: StateError)
    requires UnfocusedOption(a) == UnfocusedOption(b)
    ensures SameOutcomeUpToFocus(FromRewrite(UnfocusedWindows(windows), a, e), FromRewrite(windows, b, e))
  {
    UnfocusedTwice(windows);
  }

  lemma EditIsFocusBlind(windows: seq<WindowState>, id: ElementId, edit: NodeEdit)
    ensures SameOutcomeUpToFocus(
      FromEdit(UnfocusedWindows(windows), EditWindows(UnfocusedWindows(windows), id, edit), id),
      FromEdit(windows, EditWindows(windows, id, edit), id))
  {
    EditWindowsUnfocused(windows, id, edit);
    UnfocusedTwice(windows);
  }

  /** The operation does not read focus: without it the outcome is the same, apart from focus. */
  predicate FocusBlindAt(windows: seq<WindowState>, op: DiffOp) {
    SameOutcomeUpToFocus(ApplyOp(UnfocusedWindows(windows), op), ApplyOp(windows, op))
  }

  lemma AddingIsFocusBlind(windows: seq<WindowState>, window: WindowState)
    ensures FocusBlindAt(windows, WindowAdded(window))
  {
    UpsertWindowUnfocused(windows, window);
    UpsertWindowUnfocused(UnfocusedWindows(windows), window);
    UnfocusedTwice(windows);
  }

  lemma RemovingIsFocusBlind(windows: seq<WindowState>, id: WindowId)
    ensures FocusBlindAt(windows, WindowRemoved(id))
  {
    var blind := UnfocusedWindows(windows);
    UnfocusedTwice(windows);
    RemoveWindowUnfocused(windows, id);
    RemoveWindowUnfocused(blind, id);
    FromRewriteUnfocused(windows, RemoveWindow(blind, id), RemoveWindow(windows, id), MissingWindow(id));
  }

  lemma RemovingNodeIsFocusBlind(windows: seq<WindowState>, id: ElementId)
    ensures FocusBlindAt(windows, NodeRemoved(id))
  {
    var blind := UnfocusedWindows(windows);
    UnfocusedTwice(windows);
    RemoveNodeUnfocused(windows, id);
    RemoveNodeUnfocused(blind, id);
    FromRewriteUnfocused(windows, RemoveNode(blind, id), RemoveNode(windows, id), MissingElement(id));
  }

  lemma ReplacingIsFocusBlind(windows: seq<WindowState>, id: ElementId, node: ElementNode)
    ensures FocusBlindAt(windows, NodeReplaced(id, node))
  {
    var blind := UnfocusedWindows(windows);
    UnfocusedTwice(windows);
    ReplaceNodeUnfocused(windows, id, node);
    ReplaceNodeUnfocused(blind, id, node);
    FromRewriteUnfocused(windows, ReplaceNode(blind, id, node), ReplaceNode(windows, id, node), MissingElement(id));
  }

  lemma EditingIsFocusBlind(windows: seq<WindowState>, op: DiffOp)
    requires op.NodeAdded? || op.PropertyChanged?
    ensures FocusBlindAt(windows, op)
  {
    if op.NodeAdded? { EditIsFocusBlind(windows, op.parentId, AttachChild(op.node)); }
    else { EditIsFocusBlind(windows, op.elementId, SetProperty(op.field, op.value)); }
  }

  lemma FocusingIsFocusBlind(windows: seq<WindowState>, op: DiffOp)
    requires op.FocusChanged? || op.SnapshotResync?
    ensures FocusBlindAt(windows, op)
  {
    UnfocusedTwice(windows);
    if op.FocusChanged? { ChangeFocusUnfocused(windows, op.windowId, op.focus); }
  }

  /** No operation reads focus. */
  lemma OpIsFocusBlind(windows: seq<WindowState>, op: DiffOp)
    ensures FocusBlindAt(windows, op)
  {
    match op
    case WindowAdded(window) => AddingIsFocusBlind(windows, window);
    case WindowRemoved(id) => RemovingIsFocusBlind(windows, id);
    case NodeRemoved(id) => RemovingNodeIsFocusBlind(windows, id);
    case NodeReplaced(id, node) => ReplacingIsFocusBlind(windows, id, node);
    case NodeAdded(_, _) => EditingIsFocusBlind(windows, op);
    case PropertyChanged(_, _, _) => EditingIsFocusBlind(windows, op);
    case FocusChanged(_, _) => FocusingIsFocusBlind(windows, op);
    case SnapshotResync(_) => FocusingIsFocusBlind(windows, op);
  }

  /** So caches that differ in focus only fail alike, and still differ in focus only. */
  lemma {:induction false} OpsAreFocusBlind(a: seq<WindowState>, b: seq<WindowState>, ops: seq<DiffOp>)
    requires SameUpToFocus(a, b)
    ensures ApplyOps(a, ops).error == ApplyOps(b, ops).error
    ensures SameUpToFocus(ApplyOps(a, ops).windows, ApplyOps(b, ops).windows)
    decreases ops
  {
    if ops != [] {
      OpIsFocusBlind(a, ops[0]);
      OpIsFocusBlind(b, ops[0]);
      OpsAreFocusBlind(ApplyOp(a, ops[0]).windows, ApplyOp(b, ops[0]).windows, ops[1..]);
    }
  }

  lemma {:induction false} InsertUnfocused(window: WindowState, windows: seq<WindowState>)
    ensures UnfocusedWindows(Sorting.Insert(WindowAtMost, window, windows))
      == Sorting.Insert(WindowAtMost, Unfocused(window), UnfocusedWindows(windows))
  {
    if windows != [] && !WindowAtMost(window, windows[0]) { InsertUnfocused(window, windows[1..]); }
  }

  lemma {:induction false} SortUnfocused(windows: seq<WindowState>)
    ensures UnfocusedWindows(SortWindows(windows)) == SortWindows(UnfocusedWindows(windows))
  {
    if windows != [] {
      SortUnfocused(windows[1..]);
      InsertUnfocused(windows[0], SortWindows(windows[1..]));
    }
  }

  // --------------------------------------------------------------------- batches

  /** Two stores that differ in focus, and in capture time, only. */
  ghost predicate StoresSameUpToFocus(a: Store, b: Store) {
    && a.rev == b.rev && a.resync == b.resync
    && a.snapshot.Some? && b.snapshot.Some?
    && SameUpToFocus(a.snapshot.value.windows, b.snapshot.value.windows)
  }

  /** They take a batch alike, whatever it does. */
  lemma DiffIsFocusBlind(a: Store, b: Store, diff: DiffBatch)
    requires StoresSameUpToFocus(a, b)
    ensures ApplyDiff(a, diff).1 == ApplyDiff(b, diff).1
    ensures StoresSameUpToFocus(ApplyDiff(a, diff).0, ApplyDiff(b, diff).0)
  {
    var x, y := a.snapshot.value.windows, b.snapshot.value.windows;
    OpsAreFocusBlind(x, y, diff.ops);
    SortUnfocused(ApplyOps(x, diff.ops).windows);
    SortUnfocused(ApplyOps(y, diff.ops).windows);
  }

  /** What the consumer is left with where a focus move is ambiguous differs in focus only. */
  lemma SettledUpToFocus(previous: seq<WindowState>, next: seq<WindowState>)
    ensures SameUpToFocus(RoundTrip.SettledWindows(previous, next), next)
    decreases next
  {
    if next != [] {
      SettledUpToFocus(previous, next[1..]);
      SettleKeepsRest(next[0].root);
      assert RoundTrip.SettledWindows(previous, next)[1..] == RoundTrip.SettledWindows(previous, next[1..]);
    }
  }

  lemma SettleKeepsRest(root: ElementNode)
    ensures ClearFocus(RoundTrip.Settle(root)) == ClearFocus(root)
  {
    var cleared, focus := ClearFocus(root), FocusedElementId(root);
    ClearTwice(root);
    if focus.Some? { SetFocusKeepsRest(cleared, focus.value); }
  }

  lemma {:induction false} SetFocusKeepsRest(node: ElementNode, id: ElementId)
    ensures EditNode(node, id, SetFocused).Edited? ==> ClearFocus(EditNode(node, id, SetFocused).value) == ClearFocus(node)
    decreases node, 1
  {
    if node.elementId == id {
      ClearedChildren(node);
      ClearedChildren(WithFocused(node, true));
    } else {
      SetFocusKeepsRestInForest(node.children, id);
      var r := EditForest(node.children, id, SetFocused);
      ClearedChildren(node);
      if r.Edited? { ClearedWithChildren(node, r.value); }
    }
  }

  lemma {:induction false} SetFocusKeepsRestInForest(nodes: seq<ElementNode>, id: ElementId)
    ensures EditForest(nodes, id, SetFocused).Edited? ==>
      ClearForest(EditForest(nodes, id, SetFocused).value) == ClearForest(nodes)
    decreases nodes, 0
  {
    if nodes != [] {
      SetFocusKeepsRest(nodes[0], id);
      SetFocusKeepsRestInForest(nodes[1..], id);
    }
  }
}
