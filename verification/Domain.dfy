/**
 The cached desktop: element trees, windows, snapshots and the diff batches that move
 a cache from one revision to the next.
 */
module Domain {
  import opened Wrappers

  type ElementId = string
  type WindowId = string

  /** Revisions are `u64`; the code only ever increments them with saturation. */
  type Revision = nat
  const MAX_REVISION: Revision := 0xFFFF_FFFF_FFFF_FFFF

  function NextRevision(rev: Revision): Revision {
    if rev < MAX_REVISION then rev + 1 else rev
  }

  datatype BackendKind = Uia | Msaa | Ocr | Mixed

  datatype Rect = Rect(left: int, top: int, width: int, height: int)

  datatype PropertyValue =
    | BoolValue(flag: bool)
    | IntValue(number: int)
    | FloatValue(float: real)
    | TextValue(text: string)
    | TextListValue(texts: seq<string>)
    | RectValue(rect: Rect)
    | NullValue

  datatype ElementStates =
    ElementStates(enabled: bool, visible: bool, focused: bool, selected: bool, expanded: bool, toggled: bool)

  datatype LocatorSegment = LocatorSegment(
    controlType: string,
    className: Option<string>,
    automationId: Option<string>,
    name: Option<string>,
    siblingOrdinal: Option<nat>)

  datatype Locator = Locator(windowFingerprint: string, path: seq<LocatorSegment>)

  datatype ElementNode = ElementNode(
    elementId: ElementId,
    parentId: Option<ElementId>,
    backend: BackendKind,
    controlType: string,
    className: Option<string>,
    name: Option<string>,
    automationId: Option<string>,
    nativeWindowHandle: Option<nat>,
    bounds: Rect,
    locator: Locator,
    properties: map<string, PropertyValue>,
    states: ElementStates,
    children: seq<ElementNode>,
    confidence: real)

  datatype WindowState = WindowState(
    windowId: WindowId,
    pid: nat,
    processName: Option<string>,
    title: string,
    bounds: Rect,
    backend: BackendKind,
    confidence: real,
    root: ElementNode)

  /** `capturedAt` counts nanoseconds. */
  datatype Snapshot = Snapshot(rev: Revision, capturedAt: int, windows: seq<WindowState>)

  datatype StateError =
    | MissingSnapshot
    | StaleDiff(expectedBase: Revision, actualBase: Revision)
    | NonMonotonicDiff(currentRev: Revision, nextRev: Revision)
    | MissingWindow(windowId: WindowId)
    | MissingElement(elementId: ElementId)
    | InvalidPropertyUpdate(field: string)

  /** Why a cache asks for a resync; the code formats these as text. */
  datatype ResyncReason =
    | BaseMismatch(expected: Revision, actual: Revision)
    | NonMonotonicRevision
    | Rejected(error: StateError)
    | Requested(text: string)

  datatype DiffOp =
    | WindowAdded(window: WindowState)
    | WindowRemoved(windowId: WindowId)
    | NodeAdded(parentId: ElementId, node: ElementNode)
    | NodeRemoved(elementId: ElementId)
    | NodeReplaced(elementId: ElementId, node: ElementNode)
    | PropertyChanged(elementId: ElementId, field: string, value: PropertyValue)
    | FocusChanged(windowId: WindowId, focus: Option<ElementId>)
    | SnapshotResync(reason: ResyncReason)

  datatype DiffBatch = DiffBatch(baseRev: Revision, newRev: Revision, emittedAt: int, ops: seq<DiffOp>)
}
