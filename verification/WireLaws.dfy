/**
 Editing commutes with the wire: a cache that differs from another only by normalization,
 given the same operation in normal form, succeeds or fails alike and stays the same up to
 normalization.
 */
module WireLaws {
  import opened Wrappers
  import opened Domain
  import opened Trees
  import opened StateStore
  import opened Wire
  import Sorting

  // ------------------------------------------------------ equal up to the wire

  ghost predicate SameElement(a: ElementNode, b: ElementNode) {
    NormalElement(a) == NormalElement(b)
  }

  ghost predicate SameForest(a: seq<ElementNode>, b: seq<ElementNode>) {
    |a| == |b| && forall i | 0 <= i < |a| :: SameElement(a[i], b[i])
  }

  /** Equal up to the wire apart from the children. */
  ghost predicate SameShell(a: ElementNode, b: ElementNode) {
    SameElement(a.(children := []), b.(children := []))
  }

  ghost predicate SameWindow(a: WindowState, b: WindowState) {
    NormalWindow(a) == NormalWindow(b)
  }

  ghost predicate SameWindows(a: seq<WindowState>, b: seq<WindowState>) {
    |a| == |b| && forall i | 0 <= i < |a| :: SameWindow(a[i], b[i])
  }

  lemma SameParts(a: ElementNode, b: ElementNode)
    ensures SameElement(a, b) <==> SameShell(a, b) && SameForest(a.children, b.children)
    ensures SameElement(a, b) ==> a.elementId == b.elementId
  {
    var na, nb := NormalElement(a), NormalElement(b);
    assert na == NormalElement(a.(children := [])).(children := na.children);
    assert nb == NormalElement(b.(children := [])).(children := nb.children);
    assert NormalElement(a.(children := [])) == na.(children := []);
    assert NormalElement(b.(children := [])) == nb.(children := []);
    if SameElement(a, b) {
      forall i | 0 <= i < |a.children| ensures SameElement(a.children[i], b.children[i]) {
        assert na.children[i] == nb.children[i];
      }
    }
  }

  lemma SameWindowParts(a: WindowState, b: WindowState)
    requires SameWindow(a, b)
    ensures a.windowId == b.windowId && SameElement(a.root, b.root)
  {
    var na, nb := NormalWindow(a), NormalWindow(b);
    assert na.windowId == nb.windowId && na.root == nb.root;
  }

  lemma SameWithRoot(a: WindowState, b: WindowState, r: ElementNode, s: ElementNode)
    requires SameWindow(a, b) && SameElement(r, s)
    ensures SameWindow(a.(root := r), b.(root := s))
  {
    assert NormalWindow(a.(root := r)) == NormalWindow(a).(root := NormalElement(r));
    assert NormalWindow(b.(root := s)) == NormalWindow(b).(root := NormalElement(s));
  }

  lemma SameCons(x: WindowState, y: WindowState, a: seq<WindowState>, b: seq<WindowState>)
    requires SameWindow(x, y) && SameWindows(a, b)
    ensures SameWindows([x] + a, [y] + b)
  {
  }

  lemma SameForestCons(x: ElementNode, y: ElementNode, a: seq<ElementNode>, b: seq<ElementNode>)
    requires SameElement(x, y) && SameForest(a, b)
    ensures SameForest([x] + a, [y] + b)
  {
  }

  lemma NormalIsSame(n: ElementNode)
    ensures SameElement(n, NormalElement(n))
  {
    NormalElementIsIdempotent(n);
  }

  // ------------------------------------------------------------- element edits

  lemma {:induction false} ReparentSame(a: ElementNode, b: ElementNode, parentId: Option<ElementId>)
    requires SameElement(a, b)
    ensures SameElement(Reparent(a, parentId), Reparent(b, parentId))
    decreases a
  {
    SameParts(a, b);
    var ra, rb := Reparent(a, parentId), Reparent(b, parentId);
    forall i | 0 <= i < |a.children| ensures SameElement(ra.children[i], rb.children[i]) {
      ReparentSame(a.children[i], b.children[i], Some(a.elementId));
    }
    assert SameShell(ra, rb) by { ShellOf(a, b); }
    SameParts(ra, rb);
  }

  /** What two shells have in common. */
  lemma ShellOf(a: ElementNode, b: ElementNode)
    requires SameShell(a, b)
    ensures a.elementId == b.elementId && NormalText(a.parentId) == NormalText(b.parentId)
    ensures a.backend == b.backend && a.controlType == b.controlType && a.bounds == b.bounds
    ensures NormalText(a.className) == NormalText(b.className) && NormalText(a.name) == NormalText(b.name)
    ensures NormalText(a.automationId) == NormalText(b.automationId)
    ensures NormalNumber(a.nativeWindowHandle) == NormalNumber(b.nativeWindowHandle)
    ensures NormalLocator(a.locator) == NormalLocator(b.locator)
    ensures a.properties == b.properties && a.states == b.states && a.confidence == b.confidence
  {
    var na, nb := NormalElement(a.(children := [])), NormalElement(b.(children := []));
    assert na == nb;
    assert na.elementId == nb.elementId && na.parentId == nb.parentId && na.backend == nb.backend;
    assert na.controlType == nb.controlType && na.bounds == nb.bounds && na.className == nb.className;
    assert na.name == nb.name && na.automationId == nb.automationId;
    assert na.nativeWindowHandle == nb.nativeWindowHandle && na.locator == nb.locator;
    assert na.properties == nb.properties && na.states == nb.states && na.confidence == nb.confidence;
  }

  lemma {:induction false} ClearFocusSame(a: ElementNode, b: ElementNode)
    requires SameElement(a, b)
    ensures SameElement(ClearFocus(a), ClearFocus(b))
    decreases a
  {
    SameParts(a, b);
    var ca, cb := ClearFocus(a), ClearFocus(b);
    forall i | 0 <= i < |a.children| ensures SameElement(ca.children[i], cb.children[i]) {
      ClearFocusSame(a.children[i], b.children[i]);
    }
    assert SameShell(ca, cb) by { ShellOf(a, b); }
    SameParts(ca, cb);
  }

  lemma {:induction false} UpsertChildSame(a: seq<ElementNode>, b: seq<ElementNode>, x: ElementNode, y: ElementNode)
    requires SameForest(a, b) && SameElement(x, y)
    ensures SameForest(UpsertChild(a, x), UpsertChild(b, y))
  {
    SameParts(x, y);
    if a != [] {
      SameParts(a[0], b[0]);
      UpsertChildSame(a[1..], b[1..], x, y);
    }
  }

  function NormalEdit(edit: NodeEdit): NodeEdit {
    match edit
    case AttachChild(child) => AttachChild(NormalElement(child))
    case _ => edit
  }

  ghost predicate SameResult(a: Result<ElementNode, StateError>, b: Result<ElementNode, StateError>) {
    match (a, b)
    case (Ok(x), Ok(y)) => SameElement(x, y)
    case (Err(e), Err(f)) => e == f
    case _ => false
  }

  /** A property change touches one field of the shell. */
  lemma FieldSame(a: ElementNode, b: ElementNode, target: Field, name: string, value: PropertyValue)
    requires SameElement(a, b)
    ensures SameResult(ChangeField(a, target, name, value), ChangeField(b, target, name, value))
  {
    SameParts(a, b);
    ShellOf(a, b);
    var x, y := ChangeField(a, target, name, value), ChangeField(b, target, name, value);
    if x.Ok? {
      SameParts(x.value, y.value);
    }
  }

  lemma ApplyEditSame(edit: NodeEdit, a: ElementNode, b: ElementNode)
    requires SameElement(a, b)
    ensures SameResult(ApplyEdit(edit, a), ApplyEdit(NormalEdit(edit), b))
  {
    SameParts(a, b);
    match edit
    case SetFocused =>
      ShellOf(a, b);
      assert SameShell(WithFocused(a, true), WithFocused(b, true));
      SameParts(WithFocused(a, true), WithFocused(b, true));
    case SetProperty(field, value) => FieldSame(a, b, FieldOf(field), field, value);
    case AttachChild(child) =>
      NormalIsSame(child);
      var x, y := Reparent(child, Some(a.elementId)), Reparent(NormalElement(child), Some(a.elementId));
      ReparentSame(child, NormalElement(child), Some(a.elementId));
      UpsertChildSame(a.children, b.children, x, y);
      SameWithChildren(a, b, UpsertChild(a.children, x), UpsertChild(b.children, y));
  }

  lemma SameWithChildren(a: ElementNode, b: ElementNode, x: seq<ElementNode>, y: seq<ElementNode>)
    requires SameElement(a, b) && SameForest(x, y)
    ensures SameElement(a.(children := x), b.(children := y))
  {
    SameParts(a, b);
    SameParts(a.(children := x), b.(children := y));
    assert a.(children := x).(children := []) == a.(children := []);
    assert b.(children := y).(children := []) == b.(children := []);
  }

  ghost predicate SameNodeOutcome(a: EditOutcome<ElementNode>, b: EditOutcome<ElementNode>) {
    match (a, b)
    case (Absent, Absent) => true
    case (Edited(x), Edited(y)) => SameElement(x, y)
    case (Refused(e), Refused(f)) => e == f
    case _ => false
  }

  ghost predicate SameForestOutcome(a: EditOutcome<seq<ElementNode>>, b: EditOutcome<seq<ElementNode>>) {
    match (a, b)
    case (Absent, Absent) => true
    case (Edited(x), Edited(y)) => SameForest(x, y)
    case (Refused(e), Refused(f)) => e == f
    case _ => false
  }

  lemma {:induction false} EditNodeSame(a: ElementNode, b: ElementNode, id: ElementId, edit: NodeEdit)
    requires SameElement(a, b)
    ensures SameNodeOutcome(EditNode(a, id, edit), EditNode(b, id, NormalEdit(edit)))
    decreases a, 1
  {
    SameParts(a, b);
    if a.elementId == id {
      ApplyEditSame(edit, a, b);
    } else {
      EditForestSame(a.children, b.children, id, edit);
      var x, y := EditForest(a.children, id, edit), EditForest(b.children, id, NormalEdit(edit));
      if x.Edited? { SameWithChildren(a, b, x.value, y.value); }
    }
  }

  lemma {:induction false} EditForestSame(a: seq<ElementNode>, b: seq<ElementNode>, id: ElementId, edit: NodeEdit)
    requires SameForest(a, b)
    ensures SameForestOutcome(EditForest(a, id, edit), EditForest(b, id, NormalEdit(edit)))
    decreases a, 0
  {
    if a != [] {
      EditNodeSame(a[0], b[0], id, edit);
      var x, y := EditNode(a[0], id, edit), EditNode(b[0], id, NormalEdit(edit));
      if x.Edited? {
        SameForestCons(x.value, y.value, a[1..], b[1..]);
      } else if x.Absent? {
        EditForestSame(a[1..], b[1..], id, edit);
        var p, q := EditForest(a[1..], id, edit), EditForest(b[1..], id, NormalEdit(edit));
        if p.Edited? { SameForestCons(a[0], b[0], p.value, q.value); }
      }
    }
  }

  lemma {:induction false} ChildIndexSame(a: seq<ElementNode>, b: seq<ElementNode>, id: ElementId)
    requires SameForest(a, b)
    ensures ChildIndex(a, id) == ChildIndex(b, id)
  {
    if a != [] {
      SameParts(a[0], b[0]);
      ChildIndexSame(a[1..], b[1..], id);
    }
  }

  ghost predicate SameReplacement(x: Option<ElementNode>, y: Option<ElementNode>) {
    (x.None? && y.None?) || (x.Some? && y.Some? && SameElement(x.value, y.value))
  }

  ghost predicate SameRewrite(a: Option<seq<ElementNode>>, b: Option<seq<ElementNode>>) {
    (a.None? && b.None?) || (a.Some? && b.Some? && SameForest(a.value, b.value))
  }

  lemma {:induction false} RewriteChildSame(a: seq<ElementNode>, b: seq<ElementNode>, ownerId: ElementId, id: ElementId,
                                            x: Option<ElementNode>, y: Option<ElementNode>)
    requires SameForest(a, b) && SameReplacement(x, y)
    ensures SameRewrite(RewriteChild(a, ownerId, id, x), RewriteChild(b, ownerId, id, y))
    decreases a, 1
  {
    ChildIndexSame(a, b, id);
    ChildIndexInRange(a, id);
    if ChildIndex(a, id).None? { RewriteBelowSame(a, b, id, x, y); }
    else if x.Some? { ReparentSame(x.value, y.value, Some(ownerId)); }
  }

  lemma {:induction false} RewriteBelowSame(a: seq<ElementNode>, b: seq<ElementNode>, id: ElementId,
                                            x: Option<ElementNode>, y: Option<ElementNode>)
    requires SameForest(a, b) && SameReplacement(x, y)
    ensures SameRewrite(RewriteBelow(a, id, x), RewriteBelow(b, id, y))
    decreases a, 0
  {
    if a != [] {
      SameParts(a[0], b[0]);
      RewriteChildSame(a[0].children, b[0].children, a[0].elementId, id, x, y);
      var p := RewriteChild(a[0].children, a[0].elementId, id, x);
      var q := RewriteChild(b[0].children, b[0].elementId, id, y);
      if p.Some? {
        SameWithChildren(a[0], b[0], p.value, q.value);
        SameForestCons(a[0].(children := p.value), b[0].(children := q.value), a[1..], b[1..]);
      } else {
        RewriteBelowSame(a[1..], b[1..], id, x, y);
        var r, s := RewriteBelow(a[1..], id, x), RewriteBelow(b[1..], id, y);
        if r.Some? { SameForestCons(a[0], b[0], r.value, s.value); }
      }
    }
  }

  // -------------------------------------------------------------- window edits

  ghost predicate SameOutcome(a: OpOutcome, b: OpOutcome) {
    SameWindows(a.windows, b.windows) && a.error == b.error
  }

  lemma {:induction false} UpsertWindowSame(a: seq<WindowState>, b: seq<WindowState>, x: WindowState, y: WindowState)
    requires SameWindows(a, b) && SameWindow(x, y)
    ensures SameWindows(UpsertWindow(a, x), UpsertWindow(b, y))
  {
    SameWindowParts(x, y);
    if a != [] {
      SameWindowParts(a[0], b[0]);
      UpsertWindowSame(a[1..], b[1..], x, y);
    }
  }

  ghost predicate SameRewrittenWindows(a: Option<seq<WindowState>>, b: Option<seq<WindowState>>) {
    (a.None? && b.None?) || (a.Some? && b.Some? && SameWindows(a.value, b.value))
  }

  lemma {:induction false} RemoveWindowSame(a: seq<WindowState>, b: seq<WindowState>, id: WindowId)
    requires SameWindows(a, b)
    ensures SameRewrittenWindows(RemoveWindow(a, id), RemoveWindow(b, id))
  {
    if a != [] {
      SameWindowParts(a[0], b[0]);
      RemoveWindowSame(a[1..], b[1..], id);
    }
  }

  lemma RewriteInRootSame(a: ElementNode, b: ElementNode, id: ElementId, x: Option<ElementNode>, y: Option<ElementNode>)
    requires SameElement(a, b) && SameReplacement(x, y)
    ensures var p, q := RewriteChild(a.children, a.elementId, id, x), RewriteChild(b.children, b.elementId, id, y);
      && (p.Some? <==> q.Some?)
      && (p.Some? ==> SameElement(a.(children := p.value), b.(children := q.value)))
  {
    SameParts(a, b);
    RewriteChildSame(a.children, b.children, a.elementId, id, x, y);
    var p, q := RewriteChild(a.children, a.elementId, id, x), RewriteChild(b.children, b.elementId, id, y);
    if p.Some? { SameWithChildren(a, b, p.value, q.value); }
  }

  lemma {:induction false} RemoveNodeSame(a: seq<WindowState>, b: seq<WindowState>, id: ElementId)
    requires SameWindows(a, b)
    ensures SameRewrittenWindows(RemoveNode(a, id), RemoveNode(b, id))
  {
    if a != [] {
      SameWindowParts(a[0], b[0]);
      var r, s := a[0].root, b[0].root;
      RewriteInRootSame(r, s, id, None, None);
      var p, q := RewriteChild(r.children, r.elementId, id, None), RewriteChild(s.children, s.elementId, id, None);
      if p.Some? {
        SameWithRoot(a[0], b[0], r.(children := p.value), s.(children := q.value));
        SameCons(a[0].(root := r.(children := p.value)), b[0].(root := s.(children := q.value)), a[1..], b[1..]);
      } else {
        RemoveNodeSame(a[1..], b[1..], id);
        var v, w := RemoveNode(a[1..], id), RemoveNode(b[1..], id);
        if v.Some? { SameCons(a[0], b[0], v.value, w.value); }
      }
    }
  }

  lemma {:induction false} ReplaceNodeSame(a: seq<WindowState>, b: seq<WindowState>, id: ElementId, x: ElementNode, y: ElementNode)
    requires SameWindows(a, b) && SameElement(x, y)
    ensures SameRewrittenWindows(ReplaceNode(a, id, x), ReplaceNode(b, id, y))
  {
    if a != [] {
      SameWindowParts(a[0], b[0]);
      SameParts(a[0].root, b[0].root);
      if a[0].root.elementId == id {
        ReparentSame(x, y, None);
        SameWithRoot(a[0], b[0], Reparent(x, None), Reparent(y, None));
        SameCons(a[0].(root := Reparent(x, None)), b[0].(root := Reparent(y, None)), a[1..], b[1..]);
      } else {
        var r, s := a[0].root, b[0].root;
        RewriteInRootSame(r, s, id, Some(x), Some(y));
        var p := RewriteChild(r.children, r.elementId, id, Some(x));
        var q := RewriteChild(s.children, s.elementId, id, Some(y));
        if p.Some? {
          SameWithRoot(a[0], b[0], r.(children := p.value), s.(children := q.value));
          SameCons(a[0].(root := r.(children := p.value)), b[0].(root := s.(children := q.value)), a[1..], b[1..]);
        } else {
          ReplaceNodeSame(a[1..], b[1..], id, x, y);
          var v, w := ReplaceNode(a[1..], id, x), ReplaceNode(b[1..], id, y);
          if v.Some? { SameCons(a[0], b[0], v.value, w.value); }
        }
      }
    }
  }

  ghost predicate SameWindowsOutcome(a: EditOutcome<seq<WindowState>>, b: EditOutcome<seq<WindowState>>) {
    match (a, b)
    case (Absent, Absent) => true
    case (Edited(x), Edited(y)) => SameWindows(x, y)
    case (Refused(e), Refused(f)) => e == f
    case _ => false
  }

  lemma {:induction false} EditWindowsSame(a: seq<WindowState>, b: seq<WindowState>, id: ElementId, edit: NodeEdit)
    requires SameWindows(a, b)
    ensures SameWindowsOutcome(EditWindows(a, id, edit), EditWindows(b, id, NormalEdit(edit)))
  {
    if a != [] {
      SameWindowParts(a[0], b[0]);
      EditNodeSame(a[0].root, b[0].root, id, edit);
      var x, y := EditNode(a[0].root, id, edit), EditNode(b[0].root, id, NormalEdit(edit));
      if x.Edited? {
        SameWithRoot(a[0], b[0], x.value, y.value);
        SameCons(a[0].(root := x.value), b[0].(root := y.value), a[1..], b[1..]);
      } else if x.Absent? {
        EditWindowsSame(a[1..], b[1..], id, edit);
        var p, q := EditWindows(a[1..], id, edit), EditWindows(b[1..], id, NormalEdit(edit));
        if p.Edited? { SameCons(a[0], b[0], p.value, q.value); }
      }
    }
  }

  lemma FocusRootSame(a: ElementNode, b: ElementNode, focus: Option<ElementId>)
    requires SameElement(a, b)
    ensures SameElement(FocusRoot(a, focus).0, FocusRoot(b, focus).0)
    ensures FocusRoot(a, focus).1 == FocusRoot(b, focus).1
  {
    ClearFocusSame(a, b);
    if focus.Some? { EditNodeSame(ClearFocus(a), ClearFocus(b), focus.value, SetFocused); }
  }

  lemma {:induction false} ChangeFocusSame(a: seq<WindowState>, b: seq<WindowState>, id: WindowId, focus: Option<ElementId>)
    requires SameWindows(a, b)
    ensures SameOutcome(ChangeFocus(a, id, focus), ChangeFocus(b, id, focus))
  {
    if a != [] {
      SameWindowParts(a[0], b[0]);
      if a[0].windowId == id {
        FocusRootSame(a[0].root, b[0].root, focus);
        var r, s := FocusRoot(a[0].root, focus).0, FocusRoot(b[0].root, focus).0;
        SameWithRoot(a[0], b[0], r, s);
        SameCons(a[0].(root := r), b[0].(root := s), a[1..], b[1..]);
      } else {
        ChangeFocusSame(a[1..], b[1..], id, focus);
        SameCons(a[0], b[0], ChangeFocus(a[1..], id, focus).windows, ChangeFocus(b[1..], id, focus).windows);
      }
    }
  }

  /** The one operation the wire distorts is a focus move to an empty id. */
  predicate WireSafe(op: DiffOp) {
    op.FocusChanged? ==> op.focus != Some("")
  }

  /** An operation and its wire form do the same to caches that are equal up to the wire. */
  lemma ApplyOpSame(a: seq<WindowState>, b: seq<WindowState>, op: DiffOp)
    requires SameWindows(a, b) && WireSafe(op)
    ensures SameOutcome(ApplyOp(a, op), ApplyOp(b, NormalOp(op)))
  {
    match op
    case WindowAdded(window) =>
      NormalIsSame(window.root);
      UpsertWindowSame(a, b, window, NormalWindow(window));
    case WindowRemoved(id) => RemoveWindowSame(a, b, id);
    case NodeAdded(parentId, node) => EditWindowsSame(a, b, parentId, AttachChild(node));
    case NodeRemoved(id) => RemoveNodeSame(a, b, id);
    case NodeReplaced(id, node) =>
      NormalIsSame(node);
      ReplaceNodeSame(a, b, id, node, NormalElement(node));
    case PropertyChanged(id, field, value) => EditWindowsSame(a, b, id, SetProperty(field, value));
    case FocusChanged(id, focus) => ChangeFocusSame(a, b, id, focus);
    case SnapshotResync(_) =>
  }

  lemma {:induction false} ApplyOpsSame(a: seq<WindowState>, b: seq<WindowState>, ops: seq<DiffOp>)
    requires SameWindows(a, b) && forall i | 0 <= i < |ops| :: WireSafe(ops[i])
    ensures SameOutcome(ApplyOps(a, ops), ApplyOps(b, NormalOps(ops)))
    decreases ops
  {
    if ops != [] {
      ApplyOpSame(a, b, ops[0]);
      assert NormalOps(ops)[1..] == NormalOps(ops[1..]);
      if ApplyOp(a, ops[0]).error.None? {
        ApplyOpsSame(ApplyOp(a, ops[0]).windows, ApplyOp(b, NormalOps(ops)[0]).windows, ops[1..]);
      }
    }
  }

  lemma {:induction false} InsertSame(x: WindowState, y: WindowState, a: seq<WindowState>, b: seq<WindowState>)
    requires SameWindow(x, y) && SameWindows(a, b)
    ensures SameWindows(Sorting.Insert(WindowAtMost, x, a), Sorting.Insert(WindowAtMost, y, b))
  {
    SameWindowParts(x, y);
    if a != [] {
      SameWindowParts(a[0], b[0]);
      InsertSame(x, y, a[1..], b[1..]);
    }
  }

  lemma {:induction false} SortSame(a: seq<WindowState>, b: seq<WindowState>)
    requires SameWindows(a, b)
    ensures SameWindows(SortWindows(a), SortWindows(b))
  {
    if a != [] {
      SortSame(a[1..], b[1..]);
      InsertSame(a[0], b[0], SortWindows(a[1..]), SortWindows(b[1..]));
    }
  }

  // -------------------------------------------------------------------- stores

  /** The mirror shows what the session holds, up to the wire. */
  ghost predicate Mirrors(session: Store, mirror: Store) {
    && session.rev == mirror.rev
    && session.snapshot.Some? && mirror.snapshot.Some?
    && session.snapshot.value.rev == mirror.snapshot.value.rev
    && NormalTime(session.snapshot.value.capturedAt) == NormalTime(mirror.snapshot.value.capturedAt)
    && SameWindows(session.snapshot.value.windows, mirror.snapshot.value.windows)
  }

  lemma {:induction false} RequestedResyncSame(ops: seq<DiffOp>)
    ensures RequestedResync(NormalOps(ops)) == RequestedResync(ops)
  {
    if ops != [] {
      RequestedResyncSame(ops[1..]);
      assert NormalOps(ops)[1..] == NormalOps(ops[1..]);
    }
  }

  /** A batch accepted by the session is accepted by its mirror after crossing the wire. */
  lemma AcceptedDiffIsMirrored(session: Store, mirror: Store, diff: DiffBatch)
    requires Mirrors(session, mirror) && forall i | 0 <= i < |diff.ops| :: WireSafe(diff.ops[i])
    ensures ApplyDiff(mirror, NormalDiff(diff)).1 == ApplyDiff(session, diff).1
    ensures ApplyDiff(session, diff).1.None? ==> Mirrors(ApplyDiff(session, diff).0, ApplyDiff(mirror, NormalDiff(diff)).0)
  {
    ApplyOpsSame(session.snapshot.value.windows, mirror.snapshot.value.windows, diff.ops);
    RequestedResyncSame(diff.ops);
    if ApplyDiff(session, diff).1.None? {
      SortSame(ApplyOps(session.snapshot.value.windows, diff.ops).windows,
               ApplyOps(mirror.snapshot.value.windows, NormalOps(diff.ops)).windows);
    }
  }

  lemma SnapshotIsMirrored(snapshot: Snapshot)
    ensures Mirrors(ReplaceSnapshot(snapshot), ReplaceSnapshot(NormalSnapshot(snapshot)))
  {
    var normal := NormalSnapshot(snapshot);
    forall i | 0 <= i < |snapshot.windows| ensures SameWindow(snapshot.windows[i], normal.windows[i]) {
      NormalElementIsIdempotent(snapshot.windows[i].root);
    }
  }
}
