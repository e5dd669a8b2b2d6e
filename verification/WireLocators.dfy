/**
 Locators that crossed the wire: a client sends back the normal form of what the daemon's
 tree holds, and the normal form of an ordinal 0 or an empty text is absence.
 */
module WireLocators {
  import opened Wrappers
  import opened Domain
  import opened Materialize
  import opened Wire
  import opened Stabilization

  predicate SameNormalSemantics(a: RawNode, b: RawNode) {
    && a.controlType == b.controlType
    && NormalText(a.className) == NormalText(b.className)
    && NormalText(a.automationId) == NormalText(b.automationId)
    && NormalText(a.name) == NormalText(b.name)
  }

  /** The signature reads an empty text as absent. */
  ghost predicate ReadsEmptyAsAbsent(signatureOf: Signer) {
    forall a, b | SameNormalSemantics(a, b) :: signatureOf(a) == signatureOf(b)
  }

  lemma LocatorSignatureReadsEmptyAsAbsent(normalize: Normalizer)
    requires normalize("") == ""
    ensures ReadsEmptyAsAbsent(LocatorSignature(normalize))
  {
    forall a, b | SameNormalSemantics(a, b) ensures LocatorSignature(normalize)(a) == LocatorSignature(normalize)(b) {
      NormalTextReadsAlike(normalize, a.className, b.className);
      NormalTextReadsAlike(normalize, a.automationId, b.automationId);
      NormalTextReadsAlike(normalize, a.name, b.name);
    }
  }

  lemma NormalTextReadsAlike(normalize: Normalizer, a: Option<string>, b: Option<string>)
    requires normalize("") == "" && NormalText(a) == NormalText(b)
    ensures NormalizeOptional(normalize, a) == NormalizeOptional(normalize, b)
  {
  }

  /** Among siblings a segment's normal form is at most that segment itself. */
  lemma NormalSegmentsApart(signatureOf: Signer, children: seq<RawNode>, i: nat, j: nat)
    requires ReadsEmptyAsAbsent(signatureOf) && i < |children| && j < |children| <= 0x1_0000_0000
    requires NormalSegment(SegmentAt(signatureOf, children, i)) == SegmentAt(signatureOf, children, j)
    ensures i == j
  {
    assert SameNormalSemantics(children[i], children[j]);
    if i != j {
      Shared(signatureOf, children, i, j);
      if i < j { SameSignatureOtherOrdinal(signatureOf, children, i, j); }
      else { SameSignatureOtherOrdinal(signatureOf, children, j, i); }
    }
  }

  /** A signature that two siblings share gives both of them an ordinal. */
  lemma Shared(signatureOf: Signer, children: seq<RawNode>, i: nat, j: nat)
    requires i < |children| && j < |children| && i != j && signatureOf(children[i]) == signatureOf(children[j])
    ensures SegmentAt(signatureOf, children, i).siblingOrdinal.Some?
    ensures SegmentAt(signatureOf, children, j).siblingOrdinal.Some?
  {
    var low, high := if i < j then i else j, if i < j then j else i;
    var s := signatureOf(children[i]);
    OccurrencesGrow(signatureOf, children, 0, low, s);
    OccurrencesGrow(signatureOf, children, low + 1, high, s);
    OccurrencesGrow(signatureOf, children, high + 1, |children|, s);
  }

  /** No child's last segment is another child's in normal form, at any depth. */
  ghost predicate NormalApart(node: ElementNode) {
    && (forall i, j | 0 <= i < |node.children| && 0 <= j < |node.children|
          && LastSegment(node.children[i]).Some? && LastSegment(node.children[j]).Some? ::
        NormalSegment(LastSegment(node.children[i]).value) == LastSegment(node.children[j]).value ==> i == j)
    && forall i | 0 <= i < |node.children| :: NormalApart(node.children[i])
  }

  lemma {:induction false} MaterializedIsNormalApart(signatureOf: Signer, idOf: IdSource, fingerprint: string, raw: RawNode,
                                                     parentId: Option<ElementId>, path: seq<LocatorSegment>)
    requires ReadsEmptyAsAbsent(signatureOf) && Countable(raw)
    ensures NormalApart(MaterializeNode(signatureOf, idOf, fingerprint, raw, parentId, path))
    decreases raw
  {
    var node := MaterializeNode(signatureOf, idOf, fingerprint, raw, parentId, path);
    forall i | 0 <= i < |raw.children|
      ensures LastSegment(node.children[i]) == Some(SegmentAt(signatureOf, raw.children, i))
      ensures NormalApart(node.children[i])
    {
      MaterializedIsNormalApart(signatureOf, idOf, fingerprint, raw.children[i], Some(node.elementId),
                                path + [SegmentAt(signatureOf, raw.children, i)]);
    }
    forall i, j | 0 <= i < |raw.children| && 0 <= j < |raw.children|
      && NormalSegment(SegmentAt(signatureOf, raw.children, i)) == SegmentAt(signatureOf, raw.children, j)
      ensures i == j
    {
      NormalSegmentsApart(signatureOf, raw.children, i, j);
    }
  }

  lemma {:induction false} SameLocatorsKeepsNormalApart(a: ElementNode, b: ElementNode)
    requires SameLocators(a, b) && NormalApart(b)
    ensures NormalApart(a)
  {
    forall i | 0 <= i < |a.children|
      ensures LastSegment(a.children[i]) == LastSegment(b.children[i])
      ensures NormalApart(a.children[i])
    {
      SameLocatorsKeepsNormalApart(a.children[i], b.children[i]);
    }
  }

  /** A search that finds something finds it at some position. */
  lemma {:induction false} FoundAt(node: ElementNode, locator: Locator) returns (position: seq<nat>)
    requires FindByLocator(node, locator).Some?
    ensures NodeAt(node, position) == FindByLocator(node, locator)
    ensures FindByLocator(node, locator).value.locator == locator
    decreases node, 1
  {
    position := [];
    if node.locator != locator {
      var i, below := FoundInForestAt(node.children, locator);
      position := [i] + below;
    }
  }

  lemma {:induction false} FoundInForestAt(nodes: seq<ElementNode>, locator: Locator) returns (i: nat, position: seq<nat>)
    requires FindInForest(nodes, locator).Some?
    ensures i < |nodes| && NodeAt(nodes[i], position) == FindInForest(nodes, locator)
    ensures FindInForest(nodes, locator).value.locator == locator
    decreases nodes, 0
  {
    if FindByLocator(nodes[0], locator).Some? {
      i := 0;
      position := FoundAt(nodes[0], locator);
    } else {
      i, position := FoundInForestAt(nodes[1..], locator);
      i := i + 1;
    }
  }

  /** Two nodes of which one has the normal form of the other's locator are the same node. */
  lemma {:induction false} NormalLocatorsMeetOnce(node: ElementNode, fingerprint: string, path: seq<LocatorSegment>,
                                                  p: seq<nat>, q: seq<nat>)
    requires LocatedTree(node, fingerprint, path) && NormalApart(node)
    requires NodeAt(node, p).Some? && NodeAt(node, q).Some?
    requires NormalLocator(NodeAt(node, p).value.locator) == NodeAt(node, q).value.locator
    ensures p == q
    decreases |p|
  {
    LocatorsExtend(node, fingerprint, path, p);
    LocatorsExtend(node, fingerprint, path, q);
    assert |p| == |q|;
    if p != [] {
      var i, j := p[0], q[0];
      BranchSegment(node, fingerprint, path, p);
      BranchSegment(node, fingerprint, path, q);
      var s := NodeAt(node, p).value.locator.path;
      assert NormalLocator(NodeAt(node, p).value.locator).path[|path|] == NormalSegment(s[|path|]);
      assert i == j;
      var below := path + [LastSegment(node.children[i]).value];
      NormalLocatorsMeetOnce(node.children[i], fingerprint, below, p[1..], q[1..]);
      assert p == [p[0]] + p[1..] && q == [q[0]] + q[1..];
    }
  }

  /** The segment behind a node's path is the last segment of the child the position goes through. */
  lemma BranchSegment(node: ElementNode, fingerprint: string, path: seq<LocatorSegment>, p: seq<nat>)
    requires LocatedTree(node, fingerprint, path) && p != [] && NodeAt(node, p).Some?
    ensures p[0] < |node.children| && |NodeAt(node, p).value.locator.path| > |path|
    ensures LastSegment(node.children[p[0]]) == Some(NodeAt(node, p).value.locator.path[|path|])
  {
    var child := node.children[p[0]];
    var prefix := path + [LastSegment(child).value];
    LocatorsExtend(child, fingerprint, prefix, p[1..]);
    var found := NodeAt(node, p).value.locator.path;
    assert found[|path|] == found[..|prefix|][|path|] == prefix[|path|];
  }

  lemma {:induction false} NothingInWindows(windows: seq<WindowState>, locator: Locator)
    requires forall w | w in windows && w.root.locator.windowFingerprint == locator.windowFingerprint ::
      FindByLocator(w.root, locator).None?
    ensures FindElementByLocator(windows, locator).None?
  {
    if windows != [] { NothingInWindows(windows[1..], locator); }
  }

  /**
   A locator that crossed the wire resolves to its node if and only if the wire left it as it
   was, and to nothing otherwise: a first sibling's ordinal 0, or an empty text, does not come
   back.
   */
  lemma WireLocatorResolvesIff(signatureOf: Signer, idOf: IdSource, windows: seq<WindowState>, k: nat, position: seq<nat>)
    requires ReadsSemanticsOnly(signatureOf) && ReadsEmptyAsAbsent(signatureOf)
    requires DistinctFingerprints(windows) && k < |windows|
    requires FromMaterialize(signatureOf, idOf, windows[k].root)
    requires NodeAt(windows[k].root, position).Some?
    ensures var node := NodeAt(windows[k].root, position).value;
      ResolveElement(windows, None, Some(NormalLocator(node.locator)))
        == if NormalLocator(node.locator) == node.locator then Some((windows[k], node)) else None
  {
    var root := windows[k].root;
    var node := NodeAt(root, position).value;
    var normal := NormalLocator(node.locator);
    if normal == node.locator {
      LocatorsIdentifyNodes(signatureOf, idOf, windows, k, position);
    } else {
      var fingerprint := root.locator.windowFingerprint;
      LocatedFromMaterialize(signatureOf, idOf, root);
      LocatorsExtend(root, fingerprint, [], position);
      NormalApartFromMaterialize(signatureOf, idOf, root);
      if FindByLocator(root, normal).Some? {
        var q := FoundAt(root, normal);
        NormalLocatorsMeetOnce(root, fingerprint, [], position, q);
      }
      forall w | w in windows && w.root.locator.windowFingerprint == fingerprint ensures w == windows[k] {
        var j :| 0 <= j < |windows| && windows[j] == w;
      }
      NothingInWindows(windows, normal);
    }
  }

  lemma NormalApartFromMaterialize(signatureOf: Signer, idOf: IdSource, root: ElementNode)
    requires ReadsEmptyAsAbsent(signatureOf) && FromMaterialize(signatureOf, idOf, root)
    ensures NormalApart(root)
  {
    var raw :| ComesFrom(signatureOf, idOf, root, raw);
    var fingerprint := root.locator.windowFingerprint;
    MaterializedIsNormalApart(signatureOf, idOf, fingerprint, raw, None, []);
    SameLocatorsKeepsNormalApart(root, MaterializeRoot(signatureOf, idOf, fingerprint, raw));
  }

  /** A node with two children that look alike. */
  function Twins(leaf: RawNode): RawNode {
    leaf.(children := [leaf, leaf])
  }

  lemma TwinsAreCountable(leaf: RawNode)
    requires Countable(leaf)
    ensures Countable(Twins(leaf))
  {
  }

  lemma TwinLocator(signatureOf: Signer, idOf: IdSource, fingerprint: string, leaf: RawNode)
    ensures var root := MaterializeRoot(signatureOf, idOf, fingerprint, Twins(leaf));
      && |root.children| == 2 && root.locator.windowFingerprint == fingerprint
      && root.children[0].locator.path == [SegmentAt(signatureOf, [leaf, leaf], 0)]
    ensures SegmentAt(signatureOf, [leaf, leaf], 0).siblingOrdinal == Some(0)
  {
    var segment := SegmentAt(signatureOf, [leaf, leaf], 0);
    Shared(signatureOf, [leaf, leaf], 0, 1);
    assert Twins(leaf).children == [leaf, leaf];
    var root := MaterializeRoot(signatureOf, idOf, fingerprint, Twins(leaf));
    var child := MaterializeNode(signatureOf, idOf, fingerprint, leaf, Some(root.elementId), [] + [segment]);
    assert root.children[0] == child && child.locator.path == [] + [segment];
  }

  lemma OrdinalZeroIsNotNormal(locator: Locator)
    requires |locator.path| == 1 && locator.path[0].siblingOrdinal == Some(0)
    ensures NormalLocator(locator) != locator
  {
    assert NormalLocator(locator).path[0] == NormalSegment(locator.path[0]);
  }

  /** An input whose locator does not come back: the first of two children that look alike has ordinal 0. */
  lemma FirstTwinIsLost(normalize: Normalizer, idOf: IdSource, fingerprint: string, leaf: RawNode, window: WindowState)
    requires normalize("") == "" && Countable(leaf)
    requires window.root == MaterializeRoot(LocatorSignature(normalize), idOf, fingerprint, Twins(leaf))
    ensures |window.root.children| == 2
    ensures ResolveElement([window], None, Some(NormalLocator(window.root.children[0].locator))).None?
  {
    var signer := LocatorSignature(normalize);
    TwinLocator(signer, idOf, fingerprint, leaf);
    OrdinalZeroIsNotNormal(window.root.children[0].locator);
    TwinsAreCountable(leaf);
    LocatorSignatureReadsSemantics(normalize);
    LocatorSignatureReadsEmptyAsAbsent(normalize);
    SameLocatorsAsItself(window.root);
    assert ComesFrom(signer, idOf, window.root, Twins(leaf));
    assert NodeAt(window.root, [0]) == Some(window.root.children[0]);
    WireLocatorResolvesIff(signer, idOf, [window], 0, [0]);
  }
}
