/**
 The wire form of snapshots and diff batches. Absent values travel as empty strings and
 zeros, so decoding what was encoded yields a normal form rather than the original.
 Property values travel as JSON text, which is exact; the JSON text is not spelled out.
 */
module Wire {
  import opened Wrappers
  import opened Domain
  import Sorting

  // ------------------------------------------------------------ message types

  datatype PbSegment = PbSegment(
    controlType: string, className: string, automationId: string, name: string, siblingOrdinal: nat)

  datatype PbLocator = PbLocator(windowFingerprint: string, path: seq<PbSegment>)

  datatype PbProperty = PbProperty(key: string, value: PropertyValue)

  datatype PbElement = PbElement(
    elementId: string,
    parentId: string,
    backend: string,
    controlType: string,
    className: string,
    name: string,
    automationId: string,
    nativeWindowHandle: nat,
    bounds: Option<Rect>,
    locator: Option<PbLocator>,
    properties: seq<PbProperty>,
    states: Option<ElementStates>,
    children: seq<PbElement>,
    confidence: real)

  datatype PbWindow = PbWindow(
    windowId: string,
    pid: nat,
    processName: string,
    title: string,
    bounds: Option<Rect>,
    root: Option<PbElement>,
    backend: string,
    confidence: real)

  datatype PbSnapshot = PbSnapshot(rev: Revision, capturedAtMillis: int, windows: seq<PbWindow>)

  datatype PbOp = PbOp(
    op: string,
    elementId: string,
    parentId: string,
    field: string,
    value: Option<PropertyValue>,
    node: Option<PbElement>,
    window: Option<PbWindow>,
    windowId: string,
    reason: ResyncReason)

  datatype PbDiff = PbDiff(baseRev: Revision, newRev: Revision, emittedAtMillis: int, ops: seq<PbOp>)

  datatype ConvertError = MissingField(field: string) | UnsupportedDiffOp(op: string)

  // ------------------------------------------------------------------ encoding

  function TextOrEmpty(value: Option<string>): string {
    if value.Some? then value.value else ""
  }

  function NumberOrZero(value: Option<nat>): nat {
    if value.Some? then value.value else 0
  }

  function EncodeBackend(backend: BackendKind): string {
    match backend case Uia => "uia" case Msaa => "msaa" case Ocr => "ocr" case Mixed => "mixed"
  }

  function EncodeSegment(s: LocatorSegment): PbSegment {
    PbSegment(s.controlType, TextOrEmpty(s.className), TextOrEmpty(s.automationId), TextOrEmpty(s.name),
              NumberOrZero(s.siblingOrdinal))
  }

  function EncodeLocator(l: Locator): PbLocator {
    PbLocator(l.windowFingerprint, seq(|l.path|, i requires 0 <= i < |l.path| => EncodeSegment(l.path[i])))
  }

  /** Properties travel as a list in key order. */
  ghost function EncodeProperties(properties: map<string, PropertyValue>): seq<PbProperty> {
    var keys := Sorting.SortedKeys(properties.Keys);
    seq(|keys|, i requires 0 <= i < |keys| => (assert keys[i] in keys; PbProperty(keys[i], properties[keys[i]])))
  }

  ghost function EncodeElement(n: ElementNode): PbElement {
    PbElement(n.elementId, TextOrEmpty(n.parentId), EncodeBackend(n.backend), n.controlType, TextOrEmpty(n.className),
      TextOrEmpty(n.name), TextOrEmpty(n.automationId), NumberOrZero(n.nativeWindowHandle), Some(n.bounds),
      Some(EncodeLocator(n.locator)), EncodeProperties(n.properties), Some(n.states),
      seq(|n.children|, i requires 0 <= i < |n.children| => EncodeElement(n.children[i])), n.confidence)
  }

  ghost function EncodeWindow(w: WindowState): PbWindow {
    PbWindow(w.windowId, w.pid, TextOrEmpty(w.processName), w.title, Some(w.bounds), Some(EncodeElement(w.root)),
             EncodeBackend(w.backend), w.confidence)
  }

  const NANOS_PER_MILLI: int := 1_000_000

  ghost function EncodeSnapshot(s: Snapshot): PbSnapshot {
    PbSnapshot(s.rev, s.capturedAt / NANOS_PER_MILLI,
               seq(|s.windows|, i requires 0 <= i < |s.windows| => EncodeWindow(s.windows[i])))
  }

  const BLANK_OP := PbOp("", "", "", "", None, None, None, "", Requested(""))

  ghost function EncodeOp(op: DiffOp): PbOp {
    match op
    case WindowAdded(window) => BLANK_OP.(op := "window_added", window := Some(EncodeWindow(window)))
    case WindowRemoved(id) => BLANK_OP.(op := "window_removed", windowId := id)
    case NodeAdded(parentId, node) =>
      BLANK_OP.(op := "node_added", parentId := parentId, node := Some(EncodeElement(node)))
    case NodeRemoved(id) => BLANK_OP.(op := "node_removed", elementId := id)
    case NodeReplaced(id, node) =>
      BLANK_OP.(op := "node_replaced", elementId := id, node := Some(EncodeElement(node)))
    case PropertyChanged(id, field, value) =>
      BLANK_OP.(op := "property_changed", elementId := id, field := field, value := Some(value))
    case FocusChanged(id, focus) =>
      BLANK_OP.(op := "focus_changed", windowId := id, elementId := TextOrEmpty(focus))
    case SnapshotResync(reason) => BLANK_OP.(op := "snapshot_resync", reason := reason)
  }

  ghost function EncodeDiff(d: DiffBatch): PbDiff {
    PbDiff(d.baseRev, d.newRev, d.emittedAt / NANOS_PER_MILLI,
           seq(|d.ops|, i requires 0 <= i < |d.ops| => EncodeOp(d.ops[i])))
  }

  // ------------------------------------------------------------------ decoding

  function NoneIfEmpty(value: string): Option<string> {
    if value == "" then None else Some(value)
  }

  function NoneIfZero(value: nat): Option<nat> {
    if value == 0 then None else Some(value)
  }

  function DecodeBackend(code: string): Result<BackendKind, ConvertError> {
    if code == "uia" then Ok(Uia)
    else if code == "msaa" then Ok(Msaa)
    else if code == "ocr" then Ok(Ocr)
    else if code == "mixed" then Ok(Mixed)
    else Err(MissingField("backend"))
  }

  function DecodeSegment(s: PbSegment): LocatorSegment {
    LocatorSegment(s.controlType, NoneIfEmpty(s.className), NoneIfEmpty(s.automationId), NoneIfEmpty(s.name),
                   NoneIfZero(s.siblingOrdinal))
  }

  function DecodeLocator(l: PbLocator): Locator {
    Locator(l.windowFingerprint, seq(|l.path|, i requires 0 <= i < |l.path| => DecodeSegment(l.path[i])))
  }

  /** Collecting into a map: a later entry overwrites an earlier one. */
  function DecodeProperties(properties: seq<PbProperty>): map<string, PropertyValue> {
    if properties == [] then map[]
    else
      var last := properties[|properties| - 1];
      DecodeProperties(properties[..|properties| - 1])[last.key := last.value]
  }

  const DEFAULT_STATES := ElementStates(false, false, false, false, false, false)

  function DecodeElement(n: PbElement): Result<ElementNode, ConvertError>
    decreases n, 1
  {
    match DecodeBackend(n.backend)
    case Err(e) => Err(e)
    case Ok(backend) =>
      if n.bounds.None? then Err(MissingField("element.bounds"))
      else if n.locator.None? then Err(MissingField("element.locator"))
      else
        match DecodeElements(n.children)
        case Err(e) => Err(e)
        case Ok(children) =>
          Ok(ElementNode(n.elementId, NoneIfEmpty(n.parentId), backend, n.controlType, NoneIfEmpty(n.className),
            NoneIfEmpty(n.name), NoneIfEmpty(n.automationId), NoneIfZero(n.nativeWindowHandle), n.bounds.value,
            DecodeLocator(n.locator.value), DecodeProperties(n.properties),
            if n.states.Some? then n.states.value else DEFAULT_STATES, children, n.confidence))
  }

  function DecodeElements(nodes: seq<PbElement>): Result<seq<ElementNode>, ConvertError>
    decreases nodes, 0
  {
    if nodes == [] then Ok([])
    else
      match DecodeElement(nodes[0])
      case Err(e) => Err(e)
      case Ok(first) =>
        match DecodeElements(nodes[1..])
        case Err(e) => Err(e)
        case Ok(rest) => Ok([first] + rest)
  }

  function DecodeWindow(w: PbWindow): Result<WindowState, ConvertError> {
    if w.bounds.None? then Err(MissingField("window.bounds"))
    else
      match DecodeBackend(w.backend)
      case Err(e) => Err(e)
      case Ok(backend) =>
        if w.root.None? then Err(MissingField("window.root"))
        else
          match DecodeElement(w.root.value)
          case Err(e) => Err(e)
          case Ok(root) =>
            Ok(WindowState(w.windowId, w.pid, NoneIfEmpty(w.processName), w.title, w.bounds.value, backend,
                           w.confidence, root))
  }

  /** Collecting results: the first error, or all the values. */
  function DecodeAll<P, D>(decode: P -> Result<D, ConvertError>, items: seq<P>): Result<seq<D>, ConvertError> {
    if items == [] then Ok([])
    else
      match decode(items[0])
      case Err(e) => Err(e)
      case Ok(first) =>
        match DecodeAll(decode, items[1..])
        case Err(e) => Err(e)
        case Ok(rest) => Ok([first] + rest)
  }

  function DecodeSnapshot(s: PbSnapshot): Result<Snapshot, ConvertError> {
    match DecodeAll(DecodeWindow, s.windows)
    case Err(e) => Err(e)
    case Ok(windows) => Ok(Snapshot(s.rev, s.capturedAtMillis * NANOS_PER_MILLI, windows))
  }

  function DecodeOp(p: PbOp): Result<DiffOp, ConvertError> {
    if p.op == "window_added" then
      if p.window.None? then Err(MissingField("diff.window"))
      else (match DecodeWindow(p.window.value) case Ok(window) => Ok(WindowAdded(window)) case Err(e) => Err(e))
    else if p.op == "window_removed" then Ok(WindowRemoved(p.windowId))
    else if p.op == "node_added" then
      if p.node.None? then Err(MissingField("diff.node"))
      else (match DecodeElement(p.node.value) case Ok(node) => Ok(NodeAdded(p.parentId, node)) case Err(e) => Err(e))
    else if p.op == "node_removed" then Ok(NodeRemoved(p.elementId))
    else if p.op == "node_replaced" then
      if p.node.None? then Err(MissingField("diff.node"))
      else (match DecodeElement(p.node.value) case Ok(node) => Ok(NodeReplaced(p.elementId, node)) case Err(e) => Err(e))
    else if p.op == "property_changed" then
      if p.value.None? then Err(MissingField("diff.value_json"))
      else Ok(PropertyChanged(p.elementId, p.field, p.value.value))
    else if p.op == "focus_changed" then Ok(FocusChanged(p.windowId, NoneIfEmpty(p.elementId)))
    else if p.op == "snapshot_resync" then
      Ok(SnapshotResync(p.reason))
    else Err(UnsupportedDiffOp(p.op))
  }

  function DecodeDiff(d: PbDiff): Result<DiffBatch, ConvertError> {
    match DecodeAll(DecodeOp, d.ops)
    case Err(e) => Err(e)
    case Ok(ops) => Ok(DiffBatch(d.baseRev, d.newRev, d.emittedAtMillis * NANOS_PER_MILLI, ops))
  }

  // --------------------------------------------------------------- normal form

  /** Empty text means absent. */
  function NormalText(value: Option<string>): Option<string> {
    if value == Some("") then None else value
  }

  /** Zero means absent. */
  function NormalNumber(value: Option<nat>): Option<nat> {
    if value == Some(0) then None else value
  }

  function NormalSegment(s: LocatorSegment): LocatorSegment {
    s.(className := NormalText(s.className), automationId := NormalText(s.automationId), name := NormalText(s.name),
       siblingOrdinal := NormalNumber(s.siblingOrdinal))
  }

  function NormalLocator(l: Locator): Locator {
    l.(path := seq(|l.path|, i requires 0 <= i < |l.path| => NormalSegment(l.path[i])))
  }

  function NormalElement(n: ElementNode): ElementNode {
    n.(parentId := NormalText(n.parentId), className := NormalText(n.className), name := NormalText(n.name),
       automationId := NormalText(n.automationId), nativeWindowHandle := NormalNumber(n.nativeWindowHandle),
       locator := NormalLocator(n.locator),
       children := seq(|n.children|, i requires 0 <= i < |n.children| => NormalElement(n.children[i])))
  }

  function NormalWindow(w: WindowState): WindowState {
    w.(processName := NormalText(w.processName), root := NormalElement(w.root))
  }

  function NormalWindows(windows: seq<WindowState>): seq<WindowState> {
    seq(|windows|, i requires 0 <= i < |windows| => NormalWindow(windows[i]))
  }

  /** Whole milliseconds. */
  function NormalTime(nanos: int): int {
    nanos - nanos % NANOS_PER_MILLI
  }

  function NormalSnapshot(s: Snapshot): Snapshot {
    Snapshot(s.rev, NormalTime(s.capturedAt), NormalWindows(s.windows))
  }

  function NormalOp(op: DiffOp): DiffOp {
    match op
    case WindowAdded(window) => WindowAdded(NormalWindow(window))
    case NodeAdded(parentId, node) => NodeAdded(parentId, NormalElement(node))
    case NodeReplaced(id, node) => NodeReplaced(id, NormalElement(node))
    case FocusChanged(id, focus) => FocusChanged(id, NormalText(focus))
    case _ => op
  }

  function NormalOps(ops: seq<DiffOp>): seq<DiffOp> {
    seq(|ops|, i requires 0 <= i < |ops| => NormalOp(ops[i]))
  }

  function NormalDiff(d: DiffBatch): DiffBatch {
    DiffBatch(d.baseRev, d.newRev, NormalTime(d.emittedAt), NormalOps(d.ops))
  }

  // --------------------------------------------------------- decode after encode

  lemma {:induction false} PropertiesRoundTrip(keys: seq<string>, properties: map<string, PropertyValue>, encoded: seq<PbProperty>)
    requires |encoded| == |keys|
    requires forall i | 0 <= i < |keys| ::
      keys[i] in properties && encoded[i] == PbProperty(keys[i], properties[keys[i]])
    ensures forall k :: k in DecodeProperties(encoded) <==> k in keys
    ensures forall k | k in keys :: DecodeProperties(encoded)[k] == properties[k]
    decreases |keys|
  {
    if keys != [] {
      var n := |keys| - 1;
      PropertiesRoundTrip(keys[..n], properties, encoded[..n]);
      assert keys == keys[..n] + [keys[n]];
    }
  }

  lemma LocatorRoundTrip(l: Locator)
    ensures DecodeLocator(EncodeLocator(l)) == NormalLocator(l)
  {
  }

  lemma MapRoundTrip(properties: map<string, PropertyValue>)
    ensures DecodeProperties(EncodeProperties(properties)) == properties
  {
    PropertiesRoundTrip(Sorting.SortedKeys(properties.Keys), properties, EncodeProperties(properties));
  }

  lemma {:induction false} DecodesAll<P, D>(decode: P -> Result<D, ConvertError>, items: seq<P>, values: seq<D>)
    requires |items| == |values| && forall i | 0 <= i < |items| :: decode(items[i]) == Ok(values[i])
    ensures DecodeAll(decode, items) == Ok(values)
  {
    if items != [] {
      DecodesAll(decode, items[1..], values[1..]);
      assert values == [values[0]] + values[1..];
    }
  }

  lemma {:induction false} DecodesForest(encoded: seq<PbElement>, nodes: seq<ElementNode>)
    requires |encoded| == |nodes| && forall i | 0 <= i < |nodes| :: DecodeElement(encoded[i]) == Ok(nodes[i])
    ensures DecodeElements(encoded) == Ok(nodes)
  {
    if nodes != [] {
      DecodesForest(encoded[1..], nodes[1..]);
      assert nodes == [nodes[0]] + nodes[1..];
    }
  }

  /** Decoding an encoded tree succeeds and yields its normal form. */
  lemma {:induction false} ElementRoundTrip(n: ElementNode)
    ensures DecodeElement(EncodeElement(n)) == Ok(NormalElement(n))
  {
    var encoded := EncodeElement(n).children;
    forall i | 0 <= i < |n.children| ensures DecodeElement(encoded[i]) == Ok(NormalElement(n).children[i]) {
      ElementRoundTrip(n.children[i]);
    }
    DecodesForest(encoded, NormalElement(n).children);
    ShellRoundTrip(n, EncodeElement(n));
  }

  lemma ShellRoundTrip(n: ElementNode, encoded: PbElement)
    requires encoded == EncodeElement(n)
    requires DecodeElements(encoded.children) == Ok(NormalElement(n).children)
    ensures DecodeElement(encoded) == Ok(NormalElement(n))
  {
    MapRoundTrip(n.properties);
    LocatorRoundTrip(n.locator);
    BackendRoundTrip(n.backend);
  }

  lemma BackendRoundTrip(backend: BackendKind)
    ensures DecodeBackend(EncodeBackend(backend)) == Ok(backend)
  {
  }

  lemma WindowRoundTrip(w: WindowState)
    ensures DecodeWindow(EncodeWindow(w)) == Ok(NormalWindow(w))
  {
    ElementRoundTrip(w.root);
    BackendRoundTrip(w.backend);
  }

  /** A snapshot crosses the wire as its normal form. */
  lemma SnapshotRoundTrip(s: Snapshot)
    ensures DecodeSnapshot(EncodeSnapshot(s)) == Ok(NormalSnapshot(s))
  {
    var encoded := EncodeSnapshot(s).windows;
    forall i | 0 <= i < |s.windows| ensures DecodeWindow(encoded[i]) == Ok(NormalWindows(s.windows)[i]) {
      WindowRoundTrip(s.windows[i]);
    }
    DecodesAll(DecodeWindow, encoded, NormalWindows(s.windows));
  }

  lemma OpRoundTrip(op: DiffOp)
    ensures DecodeOp(EncodeOp(op)) == Ok(NormalOp(op))
  {
    match op
    case WindowAdded(window) => WindowRoundTrip(window);
    case NodeAdded(_, node) => ElementRoundTrip(node);
    case NodeReplaced(_, node) => ElementRoundTrip(node);
    case _ =>
  }

  /** A diff batch crosses the wire as its normal form. */
  lemma DiffRoundTrip(d: DiffBatch)
    ensures DecodeDiff(EncodeDiff(d)) == Ok(NormalDiff(d))
  {
    var encoded := EncodeDiff(d).ops;
    forall i | 0 <= i < |d.ops| ensures DecodeOp(encoded[i]) == Ok(NormalOps(d.ops)[i]) {
      OpRoundTrip(d.ops[i]);
    }
    DecodesAll(DecodeOp, encoded, NormalOps(d.ops));
  }

  /** The normal form is reached after one crossing. */
  lemma {:induction false} NormalElementIsIdempotent(n: ElementNode)
    ensures NormalElement(NormalElement(n)) == NormalElement(n)
  {
    forall i | 0 <= i < |n.children|
      ensures NormalElement(NormalElement(n.children[i])) == NormalElement(n.children[i])
    {
      NormalElementIsIdempotent(n.children[i]);
    }
    var once := NormalElement(n);
    assert NormalElement(once).children == once.children;
    assert NormalLocator(NormalLocator(n.locator)) == NormalLocator(n.locator);
  }

  lemma NormalSnapshotIsIdempotent(s: Snapshot)
    ensures NormalSnapshot(NormalSnapshot(s)) == NormalSnapshot(s)
  {
    forall i | 0 <= i < |s.windows|
      ensures NormalWindow(NormalWindow(s.windows[i])) == NormalWindow(s.windows[i])
    {
      NormalElementIsIdempotent(s.windows[i].root);
    }
    assert NormalWindows(NormalWindows(s.windows)) == NormalWindows(s.windows);
  }

  // ------------------------------------------------------ what normalizing means

  /** Absent, or present without saying anything. */
  predicate SaysNothing(text: Option<string>) {
    text == None || text == Some("")
  }

  predicate AlikeText(a: Option<string>, b: Option<string>) {
    a == b || (SaysNothing(a) && SaysNothing(b))
  }

  predicate AlikeNumber(a: Option<nat>, b: Option<nat>) {
    a == b || (a in {None, Some(0)} && b in {None, Some(0)})
  }

  predicate AlikeSegment(a: LocatorSegment, b: LocatorSegment) {
    && a.controlType == b.controlType
    && AlikeText(a.className, b.className)
    && AlikeText(a.automationId, b.automationId)
    && AlikeText(a.name, b.name)
    && AlikeNumber(a.siblingOrdinal, b.siblingOrdinal)
  }

  ghost predicate AlikeLocator(a: Locator, b: Locator) {
    && a.windowFingerprint == b.windowFingerprint
    && |a.path| == |b.path|
    && forall i | 0 <= i < |a.path| :: AlikeSegment(a.path[i], b.path[i])
  }

  /** What a node shows without its parent, its children and the six fields that may be absent. */
  predicate SameMandatory(a: ElementNode, b: ElementNode) {
    && a.elementId == b.elementId
    && a.backend == b.backend
    && a.controlType == b.controlType
    && a.bounds == b.bounds
    && a.properties == b.properties
    && a.states == b.states
    && a.confidence == b.confidence
  }

  /** The same tree to a reader who takes empty texts and zero handles and ordinals for absent. */
  ghost predicate ReadsAlike(a: ElementNode, b: ElementNode) {
    && SameMandatory(a, b)
    && AlikeText(a.parentId, b.parentId)
    && AlikeText(a.className, b.className)
    && AlikeText(a.name, b.name)
    && AlikeText(a.automationId, b.automationId)
    && AlikeNumber(a.nativeWindowHandle, b.nativeWindowHandle)
    && AlikeLocator(a.locator, b.locator)
    && |a.children| == |b.children|
    && forall i | 0 <= i < |a.children| :: ReadsAlike(a.children[i], b.children[i])
  }

  predicate ExplicitSegment(s: LocatorSegment) {
    s.className != Some("") && s.automationId != Some("") && s.name != Some("") && s.siblingOrdinal != Some(0)
  }

  /** What is present says something, in the whole tree. */
  ghost predicate Explicit(n: ElementNode) {
    && n.parentId != Some("") && n.className != Some("") && n.name != Some("") && n.automationId != Some("")
    && n.nativeWindowHandle != Some(0)
    && (forall i | 0 <= i < |n.locator.path| :: ExplicitSegment(n.locator.path[i]))
    && forall i | 0 <= i < |n.children| :: Explicit(n.children[i])
  }

  lemma AlikeExplicitSegments(s: LocatorSegment, t: LocatorSegment)
    ensures t == NormalSegment(s) <==> ExplicitSegment(t) && AlikeSegment(t, s)
  {
  }

  lemma AlikeExplicitLocators(l: Locator, m: Locator)
    ensures m == NormalLocator(l) <==>
      AlikeLocator(m, l) && forall i | 0 <= i < |m.path| :: ExplicitSegment(m.path[i])
  {
    if |m.path| == |l.path| {
      forall i | 0 <= i < |l.path|
        ensures m.path[i] == NormalSegment(l.path[i]) <==> ExplicitSegment(m.path[i]) && AlikeSegment(m.path[i], l.path[i])
      {
        AlikeExplicitSegments(l.path[i], m.path[i]);
      }
    }
  }

  /** The tree that arrives is the one tree that reads like the one sent and is explicit throughout. */
  lemma {:induction false} NormalElementIsTheExplicitOne(n: ElementNode, m: ElementNode)
    ensures m == NormalElement(n) <==> Explicit(m) && ReadsAlike(m, n)
    decreases n
  {
    AlikeExplicitLocators(n.locator, m.locator);
    if |m.children| == |n.children| {
      forall i | 0 <= i < |n.children|
        ensures m.children[i] == NormalElement(n.children[i]) <==>
          Explicit(m.children[i]) && ReadsAlike(m.children[i], n.children[i])
      {
        NormalElementIsTheExplicitOne(n.children[i], m.children[i]);
      }
      assert m.children == NormalElement(n).children <==>
        forall i | 0 <= i < |n.children| :: m.children[i] == NormalElement(n.children[i]);
    }
  }

  /** So exactly the explicit trees cross the wire unchanged. */
  lemma CrossesUnchangedIff(n: ElementNode)
    ensures DecodeElement(EncodeElement(n)) == Ok(n) <==> Explicit(n)
  {
    ElementRoundTrip(n);
    NormalElementIsTheExplicitOne(n, n);
    ReadsLikeItself(n);
  }

  lemma {:induction false} ReadsLikeItself(n: ElementNode)
    ensures ReadsAlike(n, n)
  {
    forall i | 0 <= i < |n.children| ensures ReadsAlike(n.children[i], n.children[i]) {
      ReadsLikeItself(n.children[i]);
    }
  }
}
