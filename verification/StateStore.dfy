/**
 The session store: a cached snapshot, its revision and a resync flag, changed by
 snapshots and diff batches. `UiStateStore` and `SessionRecord` are the mutable
 objects; `Store`, `ApplyDiff` and the tree editors are their specification.
 */
module StateStore {
  import opened Wrappers
  import opened Domain
  import Sorting
  import Text
  import Trees

  // ---------------------------------------------------------------- node edits

  /** What a found node undergoes. */
  datatype NodeEdit =
    | SetFocused
    | SetProperty(field: string, value: PropertyValue)
    | AttachChild(child: ElementNode)

  /** An edit that looks for its target first. */
  datatype EditOutcome<+T> = Absent | Edited(value: T) | Refused(error: StateError)

  function TextProperty(value: PropertyValue, field: string): Result<Option<string>, StateError> {
    match value
    case TextValue(text) => Ok(Some(text))
    case NullValue => Ok(None)
    case _ => Err(InvalidPropertyUpdate(field))
  }

  function HandleProperty(value: PropertyValue): Result<Option<nat>, StateError> {
    match value
    case IntValue(n) => if n >= 0 then Ok(Some(n)) else Err(InvalidPropertyUpdate("native_window_handle"))
    case NullValue => Ok(None)
    case _ => Err(InvalidPropertyUpdate("native_window_handle"))
  }

  datatype StateFlag = EnabledFlag | VisibleFlag | FocusedFlag | SelectedFlag | ExpandedFlag | ToggledFlag

  /** What a property name addresses; unknown names are free-form properties. */
  datatype Field =
    | NameField
    | ClassNameField
    | AutomationIdField
    | ControlTypeField
    | HandleField
    | BoundsField
    | ConfidenceField
    | StateField(flag: StateFlag)
    | FreeField

  function FieldOf(name: string): Field {
    if name == "name" then NameField
    else if name == "class_name" then ClassNameField
    else if name == "automation_id" then AutomationIdField
    else if name == "control_type" then ControlTypeField
    else if name == "native_window_handle" then HandleField
    else if name == "bounds" then BoundsField
    else if name == "confidence" then ConfidenceField
    else if name == "states.enabled" then StateField(EnabledFlag)
    else if name == "states.visible" then StateField(VisibleFlag)
    else if name == "states.focused" then StateField(FocusedFlag)
    else if name == "states.selected" then StateField(SelectedFlag)
    else if name == "states.expanded" then StateField(ExpandedFlag)
    else if name == "states.toggled" then StateField(ToggledFlag)
    else FreeField
  }

  function ChangeState(states: ElementStates, flag: StateFlag, value: bool): ElementStates {
    match flag
    case EnabledFlag => states.(enabled := value)
    case VisibleFlag => states.(visible := value)
    case FocusedFlag => states.(focused := value)
    case SelectedFlag => states.(selected := value)
    case ExpandedFlag => states.(expanded := value)
    case ToggledFlag => states.(toggled := value)
  }

  function ChangeField(node: ElementNode, target: Field, name: string, value: PropertyValue): Result<ElementNode, StateError>
  {
    match target
    case NameField =>
      (match TextProperty(value, name) case Ok(text) => Ok(node.(name := text)) case Err(e) => Err(e))
    case ClassNameField =>
      (match TextProperty(value, name) case Ok(text) => Ok(node.(className := text)) case Err(e) => Err(e))
    case AutomationIdField =>
      (match TextProperty(value, name) case Ok(text) => Ok(node.(automationId := text)) case Err(e) => Err(e))
    case ControlTypeField =>
      (match value
       case TextValue(text) => Ok(node.(controlType := text))
       case _ => Err(InvalidPropertyUpdate(name)))
    case HandleField =>
      (match HandleProperty(value) case Ok(h) => Ok(node.(nativeWindowHandle := h)) case Err(e) => Err(e))
    case BoundsField =>
      (match value
       case RectValue(rect) => Ok(node.(bounds := rect))
       case _ => Err(InvalidPropertyUpdate(name)))
    case ConfidenceField =>
      (match value
       case FloatValue(f) => Ok(node.(confidence := f))
       case IntValue(n) => Ok(node.(confidence := n as real))
       case _ => Err(InvalidPropertyUpdate(name)))
    case StateField(flag) =>
      (match value
       case BoolValue(b) => Ok(node.(states := ChangeState(node.states, flag, b)))
       case _ => Err(InvalidPropertyUpdate(name)))
    case FreeField => Ok(node.(properties := node.properties[name := value]))
  }

  /** Replaces the first child with the same id, or appends. */
  function UpsertChild(children: seq<ElementNode>, child: ElementNode): seq<ElementNode> {
    if children == [] then [child]
    else if children[0].elementId == child.elementId then [child] + children[1..]
    else [children[0]] + UpsertChild(children[1..], child)
  }

  function ApplyEdit(edit: NodeEdit, node: ElementNode): Result<ElementNode, StateError> {
    match edit
    case SetFocused => Ok(Trees.WithFocused(node, true))
    case SetProperty(field, value) => ChangeField(node, FieldOf(field), field, value)
    case AttachChild(child) =>
      Ok(node.(children := UpsertChild(node.children, Trees.Reparent(child, Some(node.elementId)))))
  }

  /** Edits the first node in preorder that has the id. */
  function EditNode(node: ElementNode, id: ElementId, edit: NodeEdit): EditOutcome<ElementNode>
    decreases node, 1
  {
    if node.elementId == id then
      match ApplyEdit(edit, node)
      case Ok(changed) => Edited(changed)
      case Err(e) => Refused(e)
    else
      match EditForest(node.children, id, edit)
      case Edited(children) => Edited(node.(children := children))
      case Refused(e) => Refused(e)
      case Absent => Absent
  }

  function EditForest(nodes: seq<ElementNode>, id: ElementId, edit: NodeEdit): EditOutcome<seq<ElementNode>>
    decreases nodes, 0
  {
    if nodes == [] then Absent
    else
      match EditNode(nodes[0], id, edit)
      case Edited(node) => Edited([node] + nodes[1..])
      case Refused(e) => Refused(e)
      case Absent =>
        match EditForest(nodes[1..], id, edit)
        case Edited(rest) => Edited([nodes[0]] + rest)
        case Refused(e) => Refused(e)
        case Absent => Absent
  }

  /** The position of the first child with the id. */
  function ChildIndex(nodes: seq<ElementNode>, id: ElementId): Option<nat> {
    if nodes == [] then None
    else if nodes[0].elementId == id then Some(0)
    else
      match ChildIndex(nodes[1..], id)
      case Some(i) => Some(i + 1)
      case None => None
  }

  lemma {:induction false} ChildIndexInRange(nodes: seq<ElementNode>, id: ElementId)
    ensures ChildIndex(nodes, id).Some? ==>
      ChildIndex(nodes, id).value < |nodes| && nodes[ChildIndex(nodes, id).value].elementId == id
  {
    if nodes != [] { ChildIndexInRange(nodes[1..], id); }
  }

  /**
   Replaces or removes the child with the id, looking at all direct children before
   descending, as `replace_node_in_tree` and `remove_node_from_children` do.
   */
  function RewriteChild(nodes: seq<ElementNode>, ownerId: ElementId, id: ElementId, replacement: Option<ElementNode>)
    : Option<seq<ElementNode>>
    decreases nodes, 1
  {
    ChildIndexInRange(nodes, id);
    match ChildIndex(nodes, id)
    case Some(i) =>
      (match replacement
       case Some(node) => Some(nodes[i := Trees.Reparent(node, Some(ownerId))])
       case None => Some(nodes[..i] + nodes[i + 1..]))
    case None => RewriteBelow(nodes, id, replacement)
  }

  function RewriteBelow(nodes: seq<ElementNode>, id: ElementId, replacement: Option<ElementNode>)
    : Option<seq<ElementNode>>
    decreases nodes, 0
  {
    if nodes == [] then None
    else
      match RewriteChild(nodes[0].children, nodes[0].elementId, id, replacement)
      case Some(children) => Some([nodes[0].(children := children)] + nodes[1..])
      case None =>
        match RewriteBelow(nodes[1..], id, replacement)
        case Some(rest) => Some([nodes[0]] + rest)
        case None => None
  }

  // ------------------------------------------------------------- window edits

  function UpsertWindow(windows: seq<WindowState>, window: WindowState): seq<WindowState> {
    if windows == [] then [window]
    else if windows[0].windowId == window.windowId then [window] + windows[1..]
    else [windows[0]] + UpsertWindow(windows[1..], window)
  }

  /** Removes the first window with the id. */
  function RemoveWindow(windows: seq<WindowState>, id: WindowId): Option<seq<WindowState>> {
    if windows == [] then None
    else if windows[0].windowId == id then Some(windows[1..])
    else
      match RemoveWindow(windows[1..], id)
      case Some(rest) => Some([windows[0]] + rest)
      case None => None
  }

  function EditWindows(windows: seq<WindowState>, id: ElementId, edit: NodeEdit): EditOutcome<seq<WindowState>> {
    if windows == [] then Absent
    else
      match EditNode(windows[0].root, id, edit)
      case Edited(root) => Edited([windows[0].(root := root)] + windows[1..])
      case Refused(e) => Refused(e)
      case Absent =>
        match EditWindows(windows[1..], id, edit)
        case Edited(rest) => Edited([windows[0]] + rest)
        case Refused(e) => Refused(e)
        case Absent => Absent
  }

  function RemoveNode(windows: seq<WindowState>, id: ElementId): Option<seq<WindowState>> {
    if windows == [] then None
    else
      var root := windows[0].root;
      match RewriteChild(root.children, root.elementId, id, None)
      case Some(children) => Some([windows[0].(root := root.(children := children))] + windows[1..])
      case None =>
        match RemoveNode(windows[1..], id)
        case Some(rest) => Some([windows[0]] + rest)
        case None => None
  }

  /** In each window the root itself is tried before its descendants. */
  function ReplaceNode(windows: seq<WindowState>, id: ElementId, node: ElementNode): Option<seq<WindowState>> {
    if windows == [] then None
    else
      var root := windows[0].root;
      if root.elementId == id then Some([windows[0].(root := Trees.Reparent(node, None))] + windows[1..])
      else
        match RewriteChild(root.children, root.elementId, id, Some(node))
        case Some(children) => Some([windows[0].(root := root.(children := children))] + windows[1..])
        case None =>
          match ReplaceNode(windows[1..], id, node)
          case Some(rest) => Some([windows[0]] + rest)
          case None => None
  }

  /** Focus is cleared first, so a missing target still leaves the window unfocused. */
  function FocusRoot(root: ElementNode, focus: Option<ElementId>): (ElementNode, Option<StateError>) {
    var cleared := Trees.ClearFocus(root);
    match focus
    case None => (cleared, None)
    case Some(id) =>
      match EditNode(cleared, id, SetFocused)
      case Edited(focused) => (focused, None)
      case Refused(e) => (cleared, Some(e))
      case Absent => (cleared, Some(MissingElement(id)))
  }

  /** The windows after an operation, which may have been edited even when it failed. */
  datatype OpOutcome = OpOutcome(windows: seq<WindowState>, error: Option<StateError>)

  function ChangeFocus(windows: seq<WindowState>, id: WindowId, focus: Option<ElementId>): OpOutcome {
    if windows == [] then OpOutcome([], Some(MissingWindow(id)))
    else if windows[0].windowId == id then
      var (root, error) := FocusRoot(windows[0].root, focus);
      OpOutcome([windows[0].(root := root)] + windows[1..], error)
    else
      var rest := ChangeFocus(windows[1..], id, focus);
      OpOutcome([windows[0]] + rest.windows, rest.error)
  }

  function FromEdit(windows: seq<WindowState>, outcome: EditOutcome<seq<WindowState>>, id: ElementId): OpOutcome {
    match outcome
    case Edited(changed) => OpOutcome(changed, None)
    case Refused(e) => OpOutcome(windows, Some(e))
    case Absent => OpOutcome(windows, Some(MissingElement(id)))
  }

  function FromRewrite(windows: seq<WindowState>, outcome: Option<seq<WindowState>>, error: StateError): OpOutcome {
    match outcome
    case Some(changed) => OpOutcome(changed, None)
    case None => OpOutcome(windows, Some(error))
  }

  function ApplyOp(windows: seq<WindowState>, op: DiffOp): OpOutcome {
    match op
    case WindowAdded(window) => OpOutcome(UpsertWindow(windows, window), None)
    case WindowRemoved(id) => FromRewrite(windows, RemoveWindow(windows, id), MissingWindow(id))
    case NodeAdded(parentId, node) => FromEdit(windows, EditWindows(windows, parentId, AttachChild(node)), parentId)
    case NodeRemoved(id) => FromRewrite(windows, RemoveNode(windows, id), MissingElement(id))
    case NodeReplaced(id, node) => FromRewrite(windows, ReplaceNode(windows, id, node), MissingElement(id))
    case PropertyChanged(id, field, value) =>
      FromEdit(windows, EditWindows(windows, id, SetProperty(field, value)), id)
    case FocusChanged(id, focus) => ChangeFocus(windows, id, focus)
    case SnapshotResync(_) => OpOutcome(windows, None)
  }

  /** Operations in order, stopping at the first that fails. */
  function ApplyOps(windows: seq<WindowState>, ops: seq<DiffOp>): OpOutcome
    decreases ops
  {
    if ops == [] then OpOutcome(windows, None)
    else
      var first := ApplyOp(windows, ops[0]);
      if first.error.Some? then first else ApplyOps(first.windows, ops[1..])
  }

  predicate WindowAtMost(a: WindowState, b: WindowState) {
    Text.AtMost(a.windowId, b.windowId)
  }

  function SortWindows(windows: seq<WindowState>): seq<WindowState> {
    Sorting.SortBy(WindowAtMost, windows)
  }

  // -------------------------------------------------------------------- store

  datatype Store = Store(snapshot: Option<Snapshot>, rev: Revision, resync: Option<ResyncReason>)

  const EMPTY_STORE := Store(None, 0, None)

  function ReplaceSnapshot(snapshot: Snapshot): Store {
    Store(Some(snapshot), snapshot.rev, None)
  }

  /** The reason of the first explicit resync request in a batch. */
  function RequestedResync(ops: seq<DiffOp>): Option<ResyncReason> {
    if ops == [] then None
    else if ops[0].SnapshotResync? then Some(ops[0].reason)
    else RequestedResync(ops[1..])
  }

  function ApplyDiff(store: Store, diff: DiffBatch): (Store, Option<StateError>) {
    if store.snapshot.None? then (store, Some(MissingSnapshot))
    else if diff.baseRev != store.rev then
      (store.(resync := Some(BaseMismatch(store.rev, diff.baseRev))), Some(StaleDiff(store.rev, diff.baseRev)))
    else if diff.newRev <= diff.baseRev then
      (store.(resync := Some(NonMonotonicRevision)), Some(NonMonotonicDiff(store.rev, diff.newRev)))
    else
      var resync := if RequestedResync(diff.ops).Some? then RequestedResync(diff.ops) else store.resync;
      var snapshot := store.snapshot.value;
      var outcome := ApplyOps(snapshot.windows, diff.ops);
      if outcome.error.Some? then
        (Store(Some(snapshot.(windows := outcome.windows)), store.rev, resync), outcome.error)
      else
        (Store(Some(Snapshot(diff.newRev, diff.emittedAt, SortWindows(outcome.windows))), diff.newRev, resync), None)
  }

  class UiStateStore {
    var snapshot: Option<Snapshot>
    var rev: Revision
    var resyncRequired: Option<ResyncReason>

    function View(): Store
      reads this
    {
      Store(snapshot, rev, resyncRequired)
    }

    constructor ()
      ensures View() == EMPTY_STORE
    {
      snapshot, rev, resyncRequired := None, 0, None;
    }

    method Replace(newSnapshot: Snapshot)
      modifies this
      ensures View() == ReplaceSnapshot(newSnapshot)
    {
      rev := newSnapshot.rev;
      snapshot := Some(newSnapshot);
      resyncRequired := None;
    }

    method MarkResyncRequired(reason: ResyncReason)
      modifies this`resyncRequired
      ensures View() == old(View()).(resync := Some(reason))
    {
      resyncRequired := Some(reason);
    }

    /** Applies a batch operation by operation; a failing one leaves the edits made before it. */
    method Apply(diff: DiffBatch) returns (error: Option<StateError>)
      modifies this
      ensures (View(), error) == ApplyDiff(old(View()), diff)
    {
      if snapshot.None? {
        return Some(MissingSnapshot);
      }
      if diff.baseRev != rev {
        MarkResyncRequired(BaseMismatch(rev, diff.baseRev));
        return Some(StaleDiff(rev, diff.baseRev));
      }
      if diff.newRev <= diff.baseRev {
        MarkResyncRequired(NonMonotonicRevision);
        return Some(NonMonotonicDiff(rev, diff.newRev));
      }
      var requested := RequestedResync(diff.ops);
      if requested.Some? {
        MarkResyncRequired(requested.value);
      }

      var current := snapshot.value;
      ghost var before := current;
      var i := 0;
      while i < |diff.ops|
        invariant 0 <= i <= |diff.ops|
        invariant current == before.(windows := current.windows)
        invariant snapshot == Some(current)
        invariant ApplyOps(before.windows, diff.ops) == ApplyOps(current.windows, diff.ops[i..])
        invariant rev == old(rev)
        invariant resyncRequired == if requested.Some? then requested else old(resyncRequired)
      {
        var outcome := ApplyOp(current.windows, diff.ops[i]);
        current := current.(windows := outcome.windows);
        snapshot := Some(current);
        if outcome.error.Some? {
          return outcome.error;
        }
        assert diff.ops[i..][1..] == diff.ops[i + 1..];
        i := i + 1;
      }

      snapshot := Some(Snapshot(diff.newRev, diff.emittedAt, SortWindows(current.windows)));
      rev := diff.newRev;
      return None;
    }
  }

  // ------------------------------------------------------------ session record

  const MAX_RECENT_DIFFS: nat := 16

  /** A session's store with the ring of the diffs it accepted lately. */
  datatype Record = Record(store: Store, recentDiffs: seq<DiffBatch>, lastRevision: Option<Revision>)

  const FRESH_RECORD := Record(EMPTY_STORE, [], None)

  function RecordSnapshot(snapshot: Snapshot): Record {
    Record(ReplaceSnapshot(snapshot), [], Some(snapshot.rev))
  }

  function PushRecent(ring: seq<DiffBatch>, diff: DiffBatch): seq<DiffBatch> {
    (if |ring| == MAX_RECENT_DIFFS then ring[1..] else ring) + [diff]
  }

  function RecordDiff(record: Record, diff: DiffBatch): (Record, Option<StateError>) {
    var (store, error) := ApplyDiff(record.store, diff);
    if error.Some? then (record.(store := store), error)
    else (Record(store, PushRecent(record.recentDiffs, diff), Some(store.rev)), None)
  }

  class SessionRecord {
    const state: UiStateStore
    var recentDiffs: seq<DiffBatch>
    var lastRevision: Option<Revision>

    function View(): Record
      reads this, state
    {
      Record(state.View(), recentDiffs, lastRevision)
    }

    constructor ()
      ensures View() == FRESH_RECORD
      ensures fresh(state)
    {
      state := new UiStateStore();
      recentDiffs, lastRevision := [], None;
    }

    method ApplySnapshot(snapshot: Snapshot)
      modifies this, state
      ensures View() == RecordSnapshot(snapshot)
    {
      lastRevision := Some(snapshot.rev);
      state.Replace(snapshot);
      recentDiffs := [];
    }

    method ApplyBatch(diff: DiffBatch) returns (error: Option<StateError>)
      modifies this, state
      ensures (View(), error) == RecordDiff(old(View()), diff)
    {
      error := state.Apply(diff);
      if error.Some? {
        return;
      }
      lastRevision := Some(state.rev);
      if |recentDiffs| == MAX_RECENT_DIFFS {
        recentDiffs := recentDiffs[1..];
      }
      recentDiffs := recentDiffs + [diff];
    }
  }
}
