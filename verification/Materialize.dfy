/**
 Turning a raw observation into an element tree: every node gets a locator path whose
 segments tell siblings apart. String normalization and the id hash are parameters.
 */
module Materialize {
  import opened Wrappers
  import opened Domain
  import opened Stabilization
  import Trees

  datatype RawNode = RawNode(
    backend: BackendKind,
    controlType: string,
    className: Option<string>,
    name: Option<string>,
    automationId: Option<string>,
    nativeWindowHandle: Option<nat>,
    bounds: Rect,
    properties: map<string, PropertyValue>,
    states: ElementStates,
    children: seq<RawNode>,
    confidence: real)

  type Normalizer = string -> string
  type Signer = RawNode -> string
  type IdSource = (string, seq<LocatorSegment>) -> ElementId

  function NormalizeOptional(normalize: Normalizer, value: Option<string>): string {
    if value.Some? && normalize(value.value) != "" then normalize(value.value) else "-"
  }

  /** The text that groups siblings: their normalized semantic fields. */
  function LocatorSignature(normalize: Normalizer): Signer {
    (node: RawNode) =>
      "type=" + normalize(node.controlType)
      + "|class=" + NormalizeOptional(normalize, node.className)
      + "|auto=" + NormalizeOptional(normalize, node.automationId)
      + "|name=" + NormalizeOptional(normalize, node.name)
  }

  predicate SameSemantics(a: RawNode, b: RawNode) {
    a.controlType == b.controlType && a.className == b.className && a.automationId == b.automationId && a.name == b.name
  }

  /** All that the locators need of a signature. */
  ghost predicate ReadsSemanticsOnly(signatureOf: Signer) {
    forall a, b | SameSemantics(a, b) :: signatureOf(a) == signatureOf(b)
  }

  lemma LocatorSignatureReadsSemantics(normalize: Normalizer)
    ensures ReadsSemanticsOnly(LocatorSignature(normalize))
  {
    forall a, b | SameSemantics(a, b) ensures LocatorSignature(normalize)(a) == LocatorSignature(normalize)(b) {
    }
  }

  /** How many of the first `n` nodes have the signature. */
  function Occurrences(signatureOf: Signer, nodes: seq<RawNode>, n: nat, signature: string): nat
    requires n <= |nodes|
  {
    if n == 0 then 0
    else Occurrences(signatureOf, nodes, n - 1, signature) + if signatureOf(nodes[n - 1]) == signature then 1 else 0
  }

  /** The segment of child `i`: an ordinal appears only where siblings share a signature. */
  function SegmentAt(signatureOf: Signer, children: seq<RawNode>, i: nat): LocatorSegment
    requires i < |children|
  {
    var child := children[i];
    var signature := signatureOf(child);
    LocatorSegment(child.controlType, child.className, child.automationId, child.name,
      if Occurrences(signatureOf, children, |children|, signature) > 1
      then Some(Occurrences(signatureOf, children, i, signature) % 0x1_0000_0000)
      else None)
  }

  function ChildSegments(signatureOf: Signer, children: seq<RawNode>): seq<LocatorSegment> {
    seq(|children|, i requires 0 <= i < |children| => SegmentAt(signatureOf, children, i))
  }

  function CountOf(counts: map<string, nat>, key: string): nat {
    if key in counts then counts[key] else 0
  }

  /** Counts signatures over all children, then numbers repeated ones in order. */
  method BuildChildLocatorSegments(signatureOf: Signer, children: seq<RawNode>) returns (segments: seq<LocatorSegment>)
    ensures segments == ChildSegments(signatureOf, children)
  {
    var counts: map<string, nat> := map[];
    for i := 0 to |children|
      invariant forall s :: CountOf(counts, s) == Occurrences(signatureOf, children, i, s)
    {
      var signature := signatureOf(children[i]);
      counts := counts[signature := CountOf(counts, signature) + 1];
    }

    var seen: map<string, nat> := map[];
    segments := [];
    for i := 0 to |children|
      invariant forall s | CountOf(counts, s) > 1 :: CountOf(seen, s) == Occurrences(signatureOf, children, i, s)
      invariant segments == ChildSegments(signatureOf, children)[..i]
    {
      var child := children[i];
      var signature := signatureOf(child);
      var ordinal := None;
      if CountOf(counts, signature) > 1 {
        ordinal := Some(CountOf(seen, signature) % 0x1_0000_0000);
        seen := seen[signature := CountOf(seen, signature) + 1];
      }
      segments := segments
        + [LocatorSegment(child.controlType, child.className, child.automationId, child.name, ordinal)];
    }
  }

  function MaterializeNode(signatureOf: Signer, idOf: IdSource, fingerprint: string, raw: RawNode,
                           parentId: Option<ElementId>, path: seq<LocatorSegment>): ElementNode
    decreases raw
  {
    var id := idOf(fingerprint, path);
    ElementNode(id, parentId, raw.backend, raw.controlType, raw.className, raw.name, raw.automationId,
      raw.nativeWindowHandle, raw.bounds, Locator(fingerprint, path), raw.properties, raw.states,
      seq(|raw.children|, i requires 0 <= i < |raw.children| =>
        MaterializeNode(signatureOf, idOf, fingerprint, raw.children[i], Some(id),
                        path + [SegmentAt(signatureOf, raw.children, i)])),
      raw.confidence)
  }

  /** Builds the tree top down: the child segments first, then one child after the other. */
  method Materialize(signatureOf: Signer, idOf: IdSource, fingerprint: string, raw: RawNode,
                     parentId: Option<ElementId>, path: seq<LocatorSegment>) returns (node: ElementNode)
    ensures node == MaterializeNode(signatureOf, idOf, fingerprint, raw, parentId, path)
    decreases raw
  {
    var id := idOf(fingerprint, path);
    var segments := BuildChildLocatorSegments(signatureOf, raw.children);
    ghost var whole := MaterializeNode(signatureOf, idOf, fingerprint, raw, parentId, path);
    var children := [];
    for i := 0 to |raw.children|
      invariant children == whole.children[..i]
    {
      var child := Materialize(signatureOf, idOf, fingerprint, raw.children[i], Some(id), path + [segments[i]]);
      children := children + [child];
    }
    node := ElementNode(id, parentId, raw.backend, raw.controlType, raw.className, raw.name, raw.automationId,
      raw.nativeWindowHandle, raw.bounds, Locator(fingerprint, path), raw.properties, raw.states, children,
      raw.confidence);
  }

  function MaterializeRoot(signatureOf: Signer, idOf: IdSource, fingerprint: string, raw: RawNode): ElementNode {
    MaterializeNode(signatureOf, idOf, fingerprint, raw, None, [])
  }

  // ------------------------------------------------------------ siblings differ

  /** Fewer children than a 32-bit ordinal can number, at every level. */
  ghost predicate Countable(raw: RawNode) {
    |raw.children| <= 0x1_0000_0000 && forall i | 0 <= i < |raw.children| :: Countable(raw.children[i])
  }

  lemma {:induction false} OccurrencesGrow(signatureOf: Signer, nodes: seq<RawNode>, i: nat, j: nat, signature: string)
    requires i <= j <= |nodes|
    ensures Occurrences(signatureOf, nodes, i, signature) <= Occurrences(signatureOf, nodes, j, signature)
    ensures Occurrences(signatureOf, nodes, j, signature)
         <= Occurrences(signatureOf, nodes, i, signature) + (j - i)
    decreases j
  {
    if i < j { OccurrencesGrow(signatureOf, nodes, i, j - 1, signature); }
  }

  /** Siblings that share a signature are numbered apart. */
  lemma SameSignatureOtherOrdinal(signatureOf: Signer, children: seq<RawNode>, i: nat, j: nat)
    requires i < j < |children| <= 0x1_0000_0000 && signatureOf(children[i]) == signatureOf(children[j])
    ensures SegmentAt(signatureOf, children, i).siblingOrdinal != SegmentAt(signatureOf, children, j).siblingOrdinal
  {
    var s := signatureOf(children[i]);
    OccurrencesGrow(signatureOf, children, i + 1, j, s);
    OccurrencesGrow(signatureOf, children, j + 1, |children|, s);
    OccurrencesGrow(signatureOf, children, 0, i, s);
    OccurrencesGrow(signatureOf, children, 0, j, s);
  }

  /** Siblings always get different segments, whatever the normalization does. */
  lemma SegmentsAreDistinct(signatureOf: Signer, children: seq<RawNode>, i: nat, j: nat)
    requires ReadsSemanticsOnly(signatureOf) && i < j < |children| <= 0x1_0000_0000
    ensures SegmentAt(signatureOf, children, i) != SegmentAt(signatureOf, children, j)
  {
    if SameSemantics(children[i], children[j]) {
      SameSignatureOtherOrdinal(signatureOf, children, i, j);
    }
  }

  /** Each locator extends its parent's by one segment, and siblings' segments differ. */
  ghost predicate LocatedTree(node: ElementNode, fingerprint: string, path: seq<LocatorSegment>) {
    && node.locator == Locator(fingerprint, path)
    && (forall i, j | 0 <= i < j < |node.children| ::
      LastSegment(node.children[i]) != LastSegment(node.children[j]))
    && forall i | 0 <= i < |node.children| ::
      && LastSegment(node.children[i]).Some?
      && LocatedTree(node.children[i], fingerprint, path + [LastSegment(node.children[i]).value])
  }

  lemma {:induction false} MaterializedIsLocated(signatureOf: Signer, idOf: IdSource, fingerprint: string,
                                                 raw: RawNode, parentId: Option<ElementId>, path: seq<LocatorSegment>)
    requires ReadsSemanticsOnly(signatureOf) && Countable(raw)
    ensures LocatedTree(MaterializeNode(signatureOf, idOf, fingerprint, raw, parentId, path), fingerprint, path)
    ensures Trees.WellParented(MaterializeNode(signatureOf, idOf, fingerprint, raw, parentId, path), parentId)
    decreases raw
  {
    var node := MaterializeNode(signatureOf, idOf, fingerprint, raw, parentId, path);
    forall i | 0 <= i < |raw.children|
      ensures LastSegment(node.children[i]) == Some(SegmentAt(signatureOf, raw.children, i))
      ensures LocatedTree(node.children[i], fingerprint, path + [SegmentAt(signatureOf, raw.children, i)])
      ensures Trees.WellParented(node.children[i], Some(node.elementId))
    {
      MaterializedIsLocated(signatureOf, idOf, fingerprint, raw.children[i], Some(node.elementId),
                            path + [SegmentAt(signatureOf, raw.children, i)]);
    }
    forall i, j | 0 <= i < j < |raw.children|
      ensures LastSegment(node.children[i]) != LastSegment(node.children[j])
    {
      SegmentsAreDistinct(signatureOf, raw.children, i, j);
    }
  }

  lemma {:induction false} LocatedHasDistinctSiblings(node: ElementNode, fingerprint: string, path: seq<LocatorSegment>)
    requires LocatedTree(node, fingerprint, path)
    ensures DistinctSiblings(node)
    decreases node
  {
    forall i | 0 <= i < |node.children| ensures DistinctSiblings(node.children[i]) {
      LocatedHasDistinctSiblings(node.children[i], fingerprint, path + [LastSegment(node.children[i]).value]);
    }
  }

  /** A materialized tree meets what stabilization needs, so refreshing it unchanged changes nothing. */
  lemma MaterializedRefreshIsFixpoint(signatureOf: Signer, idOf: IdSource, fingerprint: string, raw: RawNode,
                                      earlier: ElementNode)
    requires ReadsSemanticsOnly(signatureOf) && Countable(raw)
    ensures var capture := MaterializeRoot(signatureOf, idOf, fingerprint, raw);
      var once := StabilizedElement(earlier, capture, None);
      && StabilizedElement(once, capture, None) == once
      && StabilizedElement(capture, capture, None) == capture
  {
    var capture := MaterializeRoot(signatureOf, idOf, fingerprint, raw);
    MaterializedIsLocated(signatureOf, idOf, fingerprint, raw, None, []);
    LocatedHasDistinctSiblings(capture, fingerprint, []);
    StabilizationIsFixpoint(earlier, capture, None);
    CaptureIsFixed(capture, None);
  }

  // ------------------------------------------------------ resolving by locator

  /** The first node in preorder with the locator. */
  function FindByLocator(node: ElementNode, locator: Locator): Option<ElementNode>
    decreases node, 1
  {
    if node.locator == locator then Some(node) else FindInForest(node.children, locator)
  }

  function FindInForest(nodes: seq<ElementNode>, locator: Locator): Option<ElementNode>
    decreases nodes, 0
  {
    if nodes == [] then None
    else if FindByLocator(nodes[0], locator).Some? then FindByLocator(nodes[0], locator)
    else FindInForest(nodes[1..], locator)
  }

  /** Windows are tried in order, skipping those with another fingerprint. */
  function FindElementByLocator(windows: seq<WindowState>, locator: Locator): Option<(WindowState, ElementNode)> {
    if windows == [] then None
    else if windows[0].root.locator.windowFingerprint == locator.windowFingerprint
      && FindByLocator(windows[0].root, locator).Some?
    then Some((windows[0], FindByLocator(windows[0].root, locator).value))
    else FindElementByLocator(windows[1..], locator)
  }

  function FindById(node: ElementNode, id: ElementId): Option<ElementNode>
    decreases node, 1
  {
    if node.elementId == id then Some(node) else FindByIdInForest(node.children, id)
  }

  function FindByIdInForest(nodes: seq<ElementNode>, id: ElementId): Option<ElementNode>
    decreases nodes, 0
  {
    if nodes == [] then None
    else if FindById(nodes[0], id).Some? then FindById(nodes[0], id)
    else FindByIdInForest(nodes[1..], id)
  }

  function FindElementById(windows: seq<WindowState>, id: ElementId): Option<(WindowState, ElementNode)> {
    if windows == [] then None
    else if FindById(windows[0].root, id).Some? then Some((windows[0], FindById(windows[0].root, id).value))
    else FindElementById(windows[1..], id)
  }

  /** The live id is tried first, the locator only when no element has that id. */
  function ResolveElement(windows: seq<WindowState>, id: Option<ElementId>, locator: Option<Locator>)
    : Option<(WindowState, ElementNode)>
  {
    if id.Some? && FindElementById(windows, id.value).Some? then FindElementById(windows, id.value)
    else if locator.Some? then FindElementByLocator(windows, locator.value)
    else None
  }

  lemma {:induction false} StaleIdFindsNothing(windows: seq<WindowState>, id: ElementId)
    requires forall w | w in windows :: !Trees.Contains(w.root, id)
    ensures FindElementById(windows, id).None?
  {
    if windows != [] {
      AbsentIdFindsNothing(windows[0].root, id);
      StaleIdFindsNothing(windows[1..], id);
    }
  }

  lemma {:induction false} AbsentIdFindsNothing(node: ElementNode, id: ElementId)
    requires !Trees.Contains(node, id)
    ensures FindById(node, id).None?
    decreases node, 1
  {
    AbsentIdInForest(node.children, id);
  }

  lemma {:induction false} AbsentIdInForest(nodes: seq<ElementNode>, id: ElementId)
    requires forall i | 0 <= i < |nodes| :: !Trees.Contains(nodes[i], id)
    ensures FindByIdInForest(nodes, id).None?
    decreases nodes, 0
  {
    if nodes != [] {
      AbsentIdFindsNothing(nodes[0], id);
      AbsentIdInForest(nodes[1..], id);
    }
  }

  /** The node reached by following child positions from the root. */
  function NodeAt(node: ElementNode, position: seq<nat>): Option<ElementNode>
    decreases position
  {
    if position == [] then Some(node)
    else if position[0] < |node.children| then NodeAt(node.children[position[0]], position[1..])
    else None
  }

  predicate ExtendsPath(path: seq<LocatorSegment>, prefix: seq<LocatorSegment>) {
    |prefix| <= |path| && path[..|prefix|] == prefix
  }

  lemma {:induction false} LocatorsExtend(node: ElementNode, fingerprint: string, path: seq<LocatorSegment>,
                                          position: seq<nat>)
    requires LocatedTree(node, fingerprint, path) && NodeAt(node, position).Some?
    ensures ExtendsPath(NodeAt(node, position).value.locator.path, path)
    ensures |NodeAt(node, position).value.locator.path| == |path| + |position|
    ensures NodeAt(node, position).value.locator.windowFingerprint == fingerprint
    decreases position
  {
    if position != [] {
      var child := node.children[position[0]];
      LocatorsExtend(child, fingerprint, path + [LastSegment(child).value], position[1..]);
      var found := NodeAt(node, position).value.locator.path;
      assert found[..|path|] == found[..|path| + 1][..|path|];
    }
  }

  lemma LongerPrefix(path: seq<LocatorSegment>, longer: seq<LocatorSegment>, shorter: seq<LocatorSegment>)
    requires ExtendsPath(longer, shorter)
    ensures ExtendsPath(path, longer) ==> ExtendsPath(path, shorter)
  {
    if ExtendsPath(path, longer) {
      assert path[..|shorter|] == path[..|longer|][..|shorter|];
    }
  }

  /** A search below one path never finds a locator that leaves it. */
  lemma {:induction false} SearchStaysBelow(node: ElementNode, fingerprint: string, path: seq<LocatorSegment>, locator: Locator)
    requires LocatedTree(node, fingerprint, path) && !ExtendsPath(locator.path, path)
    ensures FindByLocator(node, locator).None?
    decreases node, 1
  {
    forall i | 0 <= i < |node.children| ensures FindByLocator(node.children[i], locator).None? {
      var child := path + [LastSegment(node.children[i]).value];
      LongerPrefix(locator.path, child, path);
      SearchStaysBelow(node.children[i], fingerprint, child, locator);
    }
    NoneInForest(node.children, locator);
  }

  lemma {:induction false} NoneInForest(nodes: seq<ElementNode>, locator: Locator)
    requires forall i | 0 <= i < |nodes| :: FindByLocator(nodes[i], locator).None?
    ensures FindInForest(nodes, locator).None?
  {
    if nodes != [] { NoneInForest(nodes[1..], locator); }
  }

  lemma {:induction false} FirstInForest(nodes: seq<ElementNode>, locator: Locator, k: nat)
    requires k < |nodes| && FindByLocator(nodes[k], locator).Some?
    requires forall i | 0 <= i < k :: FindByLocator(nodes[i], locator).None?
    ensures FindInForest(nodes, locator) == FindByLocator(nodes[k], locator)
  {
    if k > 0 { FirstInForest(nodes[1..], locator, k - 1); }
  }

  /** Resolving any node's own locator in its tree returns that very node. */
  lemma {:induction false} OwnLocatorResolves(node: ElementNode, fingerprint: string, path: seq<LocatorSegment>,
                                              position: seq<nat>)
    requires LocatedTree(node, fingerprint, path) && NodeAt(node, position).Some?
    ensures FindByLocator(node, NodeAt(node, position).value.locator) == NodeAt(node, position)
    decreases position
  {
    LocatorsExtend(node, fingerprint, path, position);
    if position != [] {
      var locator := NodeAt(node, position).value.locator;
      var k := position[0];
      var prefix := path + [LastSegment(node.children[k]).value];
      OwnLocatorResolves(node.children[k], fingerprint, prefix, position[1..]);
      LocatorsExtend(node.children[k], fingerprint, prefix, position[1..]);
      forall i | 0 <= i < k ensures FindByLocator(node.children[i], locator).None? {
        var other := path + [LastSegment(node.children[i]).value];
        assert locator.path[..|path| + 1][|path|] == prefix[|path|];
        assert LastSegment(node.children[i]) != LastSegment(node.children[k]);
        SearchStaysBelow(node.children[i], fingerprint, other, locator);
      }
      FirstInForest(node.children, locator, k);
    }
  }

  /** The same shape with the same locators; everything else may differ. */
  ghost predicate SameLocators(a: ElementNode, b: ElementNode) {
    && a.locator == b.locator
    && |a.children| == |b.children|
    && forall i | 0 <= i < |a.children| :: SameLocators(a.children[i], b.children[i])
  }

  lemma {:induction false} SameLocatorsAsItself(node: ElementNode)
    ensures SameLocators(node, node)
  {
    forall i | 0 <= i < |node.children| ensures SameLocators(node.children[i], node.children[i]) {
      SameLocatorsAsItself(node.children[i]);
    }
  }

  lemma {:induction false} SameLocatorsKeepsLocated(a: ElementNode, b: ElementNode, fingerprint: string,
                                                    path: seq<LocatorSegment>)
    requires SameLocators(a, b) && LocatedTree(b, fingerprint, path)
    ensures LocatedTree(a, fingerprint, path)
    decreases b
  {
    forall i | 0 <= i < |b.children|
      ensures LastSegment(a.children[i]) == LastSegment(b.children[i])
      ensures LocatedTree(a.children[i], fingerprint, path + [LastSegment(b.children[i]).value])
    {
      SameLocatorsKeepsLocated(a.children[i], b.children[i], fingerprint, path + [LastSegment(b.children[i]).value]);
    }
  }

  /** Relabelling ids keeps every locator. */
  lemma {:induction false} RelabellingKeepsLocators(labelled: ElementNode, capture: ElementNode)
    requires Relabels(labelled, capture)
    ensures SameLocators(labelled, capture)
    decreases capture
  {
    forall i | 0 <= i < |capture.children| ensures SameLocators(labelled.children[i], capture.children[i]) {
      ReparentRelabels(capture.children[i], Some(labelled.elementId));
      RelabellingKeepsLocators(labelled.children[i], capture.children[i]);
    }
  }

  lemma {:induction false} AnnotatingKeepsLocators(a: ElementNode, b: ElementNode)
    requires Trees.SameButProperties(a, b)
    ensures SameLocators(a, b)
  {
    Trees.SameButPropertiesParts(a, b);
    forall i | 0 <= i < |a.children| ensures SameLocators(a.children[i], b.children[i]) {
      AnnotatingKeepsLocators(a.children[i], b.children[i]);
    }
  }

  lemma {:induction false} SameLocatorsChain(a: ElementNode, b: ElementNode, c: ElementNode)
    requires SameLocators(a, b) && SameLocators(b, c)
    ensures SameLocators(a, c)
  {
    forall i | 0 <= i < |a.children| ensures SameLocators(a.children[i], c.children[i]) {
      SameLocatorsChain(a.children[i], b.children[i], c.children[i]);
    }
  }

  ghost predicate DistinctFingerprints(windows: seq<WindowState>) {
    forall i, j | 0 <= i < j < |windows| ::
      windows[i].root.locator.windowFingerprint != windows[j].root.locator.windowFingerprint
  }

  lemma {:induction false} ResolvesInOwnWindow(windows: seq<WindowState>, k: nat, locator: Locator)
    requires DistinctFingerprints(windows) && k < |windows|
    requires windows[k].root.locator.windowFingerprint == locator.windowFingerprint
    requires FindByLocator(windows[k].root, locator).Some?
    ensures FindElementByLocator(windows, locator)
      == Some((windows[k], FindByLocator(windows[k].root, locator).value))
  {
    if k > 0 {
      ResolvesInOwnWindow(windows[1..], k - 1, locator);
    }
  }

  /** A tree with the locators of a materialized one: captured, relabelled, annotated or edited in place. */
  ghost predicate FromMaterialize(signatureOf: Signer, idOf: IdSource, root: ElementNode) {
    exists raw :: ComesFrom(signatureOf, idOf, root, raw)
  }

  ghost predicate ComesFrom(signatureOf: Signer, idOf: IdSource, root: ElementNode, raw: RawNode) {
    Countable(raw) && SameLocators(root, MaterializeRoot(signatureOf, idOf, root.locator.windowFingerprint, raw))
  }

  /** Stabilizing a capture against any tree and annotating the result keeps its locators. */
  lemma RelabelledAndAnnotatedComesFrom(signatureOf: Signer, idOf: IdSource, fingerprint: string, raw: RawNode,
                                        earlier: ElementNode, root: ElementNode)
    requires Countable(raw)
    requires var capture := MaterializeRoot(signatureOf, idOf, fingerprint, raw);
      Trees.SameButProperties(root, StabilizedElement(earlier, capture, None))
    ensures FromMaterialize(signatureOf, idOf, root)
  {
    var capture := MaterializeRoot(signatureOf, idOf, fingerprint, raw);
    var labelled := StabilizedElement(earlier, capture, None);
    StabilizeRelabels(earlier, capture, None);
    RelabellingKeepsLocators(labelled, capture);
    AnnotatingKeepsLocators(root, labelled);
    SameLocatorsChain(root, labelled, capture);
    assert ComesFrom(signatureOf, idOf, root, raw);
  }

  /**
   Locators identify nodes: in a desktop with distinct fingerprints the locator of any node of
   a materialized window, relabelled, annotated or changed in any field but its locators,
   resolves to that node in its window, on its own or as the fallback for an id that went
   stale.
   */
  lemma LocatorsIdentifyNodes(signatureOf: Signer, idOf: IdSource, windows: seq<WindowState>, k: nat, position: seq<nat>)
    requires ReadsSemanticsOnly(signatureOf) && DistinctFingerprints(windows) && k < |windows|
    requires FromMaterialize(signatureOf, idOf, windows[k].root)
    requires NodeAt(windows[k].root, position).Some?
    ensures var node := NodeAt(windows[k].root, position).value;
      && ResolveElement(windows, None, Some(node.locator)) == Some((windows[k], node))
      && forall id | forall w | w in windows :: !Trees.Contains(w.root, id) ::
        ResolveElement(windows, Some(id), Some(node.locator)) == Some((windows[k], node))
  {
    var root := windows[k].root;
    LocatedFromMaterialize(signatureOf, idOf, root);
    LocatorsExtend(root, root.locator.windowFingerprint, [], position);
    OwnLocatorResolves(root, root.locator.windowFingerprint, [], position);
    ResolvesInOwnWindow(windows, k, NodeAt(root, position).value.locator);
    forall id | forall w | w in windows :: !Trees.Contains(w.root, id) ensures FindElementById(windows, id).None? {
      StaleIdFindsNothing(windows, id);
    }
  }

  lemma LocatedFromMaterialize(signatureOf: Signer, idOf: IdSource, root: ElementNode)
    requires ReadsSemanticsOnly(signatureOf) && FromMaterialize(signatureOf, idOf, root)
    ensures LocatedTree(root, root.locator.windowFingerprint, [])
  {
    var raw :| ComesFrom(signatureOf, idOf, root, raw);
    var fingerprint := root.locator.windowFingerprint;
    MaterializedIsLocated(signatureOf, idOf, fingerprint, raw, None, []);
    SameLocatorsKeepsLocated(root, MaterializeRoot(signatureOf, idOf, fingerprint, raw), fingerprint, []);
  }

  // ------------------------------------------------------- what a node carries

  /** The raw node reached by following child positions. */
  function RawAt(raw: RawNode, position: seq<nat>): Option<RawNode>
    decreases position
  {
    if position == [] then Some(raw)
    else if position[0] < |raw.children| then RawAt(raw.children[position[0]], position[1..])
    else None
  }

  /** Everything but ids, locator and children is the observed node's. */
  predicate Carries(node: ElementNode, raw: RawNode) {
    && node.backend == raw.backend
    && node.controlType == raw.controlType
    && node.className == raw.className
    && node.name == raw.name
    && node.automationId == raw.automationId
    && node.nativeWindowHandle == raw.nativeWindowHandle
    && node.bounds == raw.bounds
    && node.properties == raw.properties
    && node.states == raw.states
    && node.confidence == raw.confidence
  }

  predicate Describes(segment: LocatorSegment, raw: RawNode) {
    && segment.controlType == raw.controlType
    && segment.className == raw.className
    && segment.automationId == raw.automationId
    && segment.name == raw.name
  }

  /**
   At every position the tree has a node if and only if the observation has one. It carries
   what was observed there, its last segment describes it, and its id is made from its path.
   */
  lemma {:induction false} MaterializedCarries(signatureOf: Signer, idOf: IdSource, fingerprint: string, raw: RawNode,
                                               parentId: Option<ElementId>, path: seq<LocatorSegment>,
                                               position: seq<nat>)
    ensures var found := NodeAt(MaterializeNode(signatureOf, idOf, fingerprint, raw, parentId, path), position);
      var seen := RawAt(raw, position);
      && (found.Some? <==> seen.Some?)
      && (seen.Some? ==>
            && Carries(found.value, seen.value)
            && |found.value.locator.path| == |path| + |position|
            && found.value.elementId == idOf(fingerprint, found.value.locator.path)
            && (position != [] ==> Describes(LastSegment(found.value).value, seen.value)))
    decreases position
  {
    if position != [] && position[0] < |raw.children| {
      var node := MaterializeNode(signatureOf, idOf, fingerprint, raw, parentId, path);
      var k := position[0];
      var segment := SegmentAt(signatureOf, raw.children, k);
      assert Describes(segment, raw.children[k]);
      MaterializedCarries(signatureOf, idOf, fingerprint, raw.children[k], Some(node.elementId), path + [segment],
                          position[1..]);
    }
  }

  /** The earlier siblings with the signature. */
  function EarlierTwins(signatureOf: Signer, nodes: seq<RawNode>, n: nat, signature: string): set<nat>
    requires n <= |nodes|
  {
    set j: nat | j < n && signatureOf(nodes[j]) == signature
  }

  lemma {:induction false} OccurrencesCountTwins(signatureOf: Signer, nodes: seq<RawNode>, n: nat, signature: string)
    requires n <= |nodes|
    ensures Occurrences(signatureOf, nodes, n, signature) == |EarlierTwins(signatureOf, nodes, n, signature)|
  {
    if n == 0 {
      assert EarlierTwins(signatureOf, nodes, 0, signature) == {};
    } else {
      OccurrencesCountTwins(signatureOf, nodes, n - 1, signature);
      var before := EarlierTwins(signatureOf, nodes, n - 1, signature);
      var twin := signatureOf(nodes[n - 1]) == signature;
      assert EarlierTwins(signatureOf, nodes, n, signature) == before + if twin then {n - 1} else {};
    }
  }

  /** A child is numbered if and only if a sibling shares its signature, by how many of those come before it. */
  lemma OrdinalCountsTwins(signatureOf: Signer, children: seq<RawNode>, i: nat)
    requires i < |children| <= 0x1_0000_0000
    ensures var ordinal := SegmentAt(signatureOf, children, i).siblingOrdinal;
      && (ordinal.Some? <==> exists j | 0 <= j < |children| && j != i ::
            signatureOf(children[j]) == signatureOf(children[i]))
      && (ordinal.Some? ==> ordinal.value == |EarlierTwins(signatureOf, children, i, signatureOf(children[i]))|)
  {
    var signature := signatureOf(children[i]);
    var all := EarlierTwins(signatureOf, children, |children|, signature);
    OccurrencesCountTwins(signatureOf, children, |children|, signature);
    OccurrencesCountTwins(signatureOf, children, i, signature);
    OccurrencesGrow(signatureOf, children, 0, i, signature);
    OccurrencesGrow(signatureOf, children, i, |children|, signature);
    assert i in all;
    assert |all - {i}| == |all| - 1;
    if j :| 0 <= j < |children| && j != i && signatureOf(children[j]) == signature {
      assert j in all - {i};
    } else {
      assert all - {i} == {};
    }
  }
}
