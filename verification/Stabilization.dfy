/**
 Identity across captures: each freshly captured window and element takes over the id of
 the best-scoring earlier one, greedily in capture order at every level of the tree.
 */
module Stabilization {
  import opened Wrappers
  import opened Domain
  import opened Trees

  // ------------------------------------------------------------------- scores

  /** How well an earlier window explains a captured one; `None` rules the pair out. */
  function WindowMatchScore(previous: WindowState, current: WindowState): Option<int> {
    var left, right := previous.root.nativeWindowHandle, current.root.nativeWindowHandle;
    if left.Some? && right.Some? && left != right then None
    else if previous.pid != 0 && current.pid != 0 && previous.pid != current.pid then None
    else if previous.root.controlType != current.root.controlType then None
    else
      var score :=
        (if left.Some? && right.Some? then 1000 else 0)
        + (if previous.pid != 0 && current.pid != 0 then 200 else 0)
        + (if previous.root.className == current.root.className && previous.root.className.Some? then 80 else 0)
        + (if previous.title == current.title && previous.title != "" then 60 else 0)
        + (if previous.root.name == current.root.name && previous.root.name.Some? then 60 else 0)
        + (if previous.root.automationId == current.root.automationId && previous.root.automationId.Some? then 120
           else 0);
      if score >= 200 then Some(score) else None
  }

  function LastSegment(node: ElementNode): Option<LocatorSegment> {
    var path := node.locator.path;
    if path == [] then None else Some(path[|path| - 1])
  }

  function ElementMatchScore(previous: ElementNode, current: ElementNode): Option<int> {
    var left, right := previous.nativeWindowHandle, current.nativeWindowHandle;
    if previous.controlType != current.controlType then None
    else if left.Some? && right.Some? && left != right then None
    else
      var score := 100
        + (if left.Some? && right.Some? then 1000 else 0)
        + (if previous.automationId == current.automationId && previous.automationId.Some? then 300 else 0)
        + (if previous.className == current.className && previous.className.Some? then 120 else 0)
        + (if previous.name == current.name && previous.name.Some? then 120 else 0)
        + (if LastSegment(previous) == LastSegment(current) then 40 else 0)
        + (if previous.bounds == current.bounds then 40 else 0);
      if score >= 220 then Some(score) else None
  }

  // ------------------------------------------------------------ greedy choice

  /** Two captures may show the same thing: neither handles nor, if known, processes contradict it. */
  predicate HandlesAgree(previous: Option<nat>, current: Option<nat>) {
    previous.Some? && current.Some? ==> previous == current
  }

  predicate SameKnown<T(==)>(previous: Option<T>, current: Option<T>) {
    previous.Some? && previous == current
  }

  /**
   What the weights amount to: elements match exactly when they have the same control type,
   no conflicting handles, and one of handle, automation id, class or name in common. Position
   and bounds only rank the candidates.
   */
  lemma ElementMatchesIff(previous: ElementNode, current: ElementNode)
    ensures ElementMatchScore(previous, current).Some? <==>
      && previous.controlType == current.controlType
      && HandlesAgree(previous.nativeWindowHandle, current.nativeWindowHandle)
      && (|| SameKnown(previous.nativeWindowHandle, current.nativeWindowHandle)
          || SameKnown(previous.automationId, current.automationId)
          || SameKnown(previous.className, current.className)
          || SameKnown(previous.name, current.name))
  {
  }

  /**
   Windows match exactly when control types agree, handles and processes do not conflict, and
   they share a handle, a process, or enough of automation id, class, title and name.
   */
  lemma WindowMatchesIff(previous: WindowState, current: WindowState)
    ensures var (p, c) := (previous.root, current.root);
      var sameId, sameClass := SameKnown(p.automationId, c.automationId), SameKnown(p.className, c.className);
      var sameTitle := previous.title == current.title != "";
      var sameName := SameKnown(p.name, c.name);
      WindowMatchScore(previous, current).Some? <==>
        && p.controlType == c.controlType
        && HandlesAgree(p.nativeWindowHandle, c.nativeWindowHandle)
        && (previous.pid != 0 && current.pid != 0 ==> previous.pid == current.pid)
        && (|| SameKnown(p.nativeWindowHandle, c.nativeWindowHandle)
            || previous.pid == current.pid != 0
            || (sameId && (sameClass || (sameTitle && sameName)))
            || (sameClass && sameTitle && sameName))
  {
  }

  /** The unused index below `n` with the greatest score; among equals the last one. */
  function BestBelow(scores: seq<Option<int>>, used: set<nat>, n: nat): Option<nat>
    requires n <= |scores|
    ensures BestBelow(scores, used, n).Some? ==>
      BestBelow(scores, used, n).value < n && scores[BestBelow(scores, used, n).value].Some?
      && BestBelow(scores, used, n).value !in used
  {
    if n == 0 then None
    else
      var best := BestBelow(scores, used, n - 1);
      if n - 1 in used || scores[n - 1].None? then best
      else if best.Some? && scores[best.value].value > scores[n - 1].value then best
      else Some(n - 1)
  }

  function Best(scores: seq<Option<int>>, used: set<nat>): Option<nat> {
    BestBelow(scores, used, |scores|)
  }

  method FindBest(scores: seq<Option<int>>, used: set<nat>) returns (best: Option<nat>)
    ensures best == Best(scores, used)
  {
    best := None;
    for i := 0 to |scores|
      invariant best == BestBelow(scores, used, i)
    {
      if i !in used && scores[i].Some? {
        if best.None? || scores[best.value].value <= scores[i].value {
          best := Some(i);
        }
      }
    }
  }

  /** The chosen index is unused and no other unused candidate beats it, nor ties behind it. */
  lemma {:induction false} BestIsLastMaximum(scores: seq<Option<int>>, used: set<nat>, n: nat)
    requires n <= |scores|
    ensures var best := BestBelow(scores, used, n);
      forall i | 0 <= i < n && i !in used && scores[i].Some? ::
        best.Some? && scores[i].value <= scores[best.value].value
        && (scores[i].value == scores[best.value].value ==> i <= best.value)
  {
    if n > 0 { BestIsLastMaximum(scores, used, n - 1); }
  }

  // ------------------------------------------------------------------ elements

  function ElementScores(previous: seq<ElementNode>, current: ElementNode): seq<Option<int>> {
    seq(|previous|, i requires 0 <= i < |previous| => ElementMatchScore(previous[i], current))
  }

  function StabilizedElement(previous: ElementNode, current: ElementNode, parentId: Option<ElementId>): ElementNode
    decreases current, 1
  {
    current.(elementId := previous.elementId,
             parentId := parentId,
             children := StabilizedChildren(previous.children, current.children, {}, previous.elementId))
  }

  function StabilizedChildren(previous: seq<ElementNode>, current: seq<ElementNode>, used: set<nat>, ownerId: ElementId)
    : seq<ElementNode>
    decreases current, 0
  {
    if current == [] then []
    else
      match Best(ElementScores(previous, current[0]), used)
      case Some(i) =>
        [StabilizedElement(previous[i], current[0], Some(ownerId))]
        + StabilizedChildren(previous, current[1..], used + {i}, ownerId)
      case None =>
        [Reparent(current[0], Some(ownerId))] + StabilizedChildren(previous, current[1..], used, ownerId)
  }

  /** One child, then the rest. */
  lemma NextStabilized(previous: seq<ElementNode>, current: seq<ElementNode>, k: nat, used: set<nat>, ownerId: ElementId)
    requires k < |current|
    ensures StabilizedChildren(previous, current[k..], used, ownerId)
      == match Best(ElementScores(previous, current[k]), used)
         case Some(i) =>
           [StabilizedElement(previous[i], current[k], Some(ownerId))]
           + StabilizedChildren(previous, current[k + 1..], used + {i}, ownerId)
         case None =>
           [Reparent(current[k], Some(ownerId))] + StabilizedChildren(previous, current[k + 1..], used, ownerId)
  {
    assert current[k..] == [current[k]] + current[k + 1..];
  }

  /** The first `k` children are done, and what is left completes the specified list. */
  ghost predicate StabilizedSoFar(previous: ElementNode, captured: ElementNode, done: seq<ElementNode>, k: nat,
                                  used: set<nat>)
    requires k <= |captured.children|
  {
    done + StabilizedChildren(previous.children, captured.children[k..], used, previous.elementId)
    == StabilizedChildren(previous.children, captured.children, {}, previous.elementId)
  }

  lemma OneMoreStabilized(previous: ElementNode, captured: ElementNode, done: seq<ElementNode>, k: nat, used: set<nat>,
                          child: ElementNode, next: set<nat>)
    requires k < |captured.children| && StabilizedSoFar(previous, captured, done, k, used)
    requires StabilizedChildren(previous.children, captured.children[k..], used, previous.elementId)
      == [child] + StabilizedChildren(previous.children, captured.children[k + 1..], next, previous.elementId)
    ensures StabilizedSoFar(previous, captured, done + [child], k + 1, next)
  {
    var rest := StabilizedChildren(previous.children, captured.children[k + 1..], next, previous.elementId);
    assert done + ([child] + rest) == (done + [child]) + rest;
  }

  /** Relabels a captured tree after an earlier one, child by child. */
  method StabilizeElement(previous: ElementNode, captured: ElementNode, parentId: Option<ElementId>)
    returns (current: ElementNode)
    ensures current == StabilizedElement(previous, captured, parentId)
    decreases captured
  {
    var ownerId := previous.elementId;
    var children := [];
    var used: set<nat> := {};
    var k := 0;
    while k < |captured.children|
      invariant 0 <= k <= |captured.children|
      invariant StabilizedSoFar(previous, captured, children, k, used)
    {
      var child := captured.children[k];
      var best := FindBest(ElementScores(previous.children, child), used);
      NextStabilized(previous.children, captured.children, k, used, ownerId);
      ghost var before := used;
      if best.Some? {
        used := used + {best.value};
        child := StabilizeElement(previous.children[best.value], child, Some(ownerId));
      } else {
        child := Reparent(child, Some(ownerId));
      }
      OneMoreStabilized(previous, captured, children, k, before, child, used);
      children := children + [child];
      k := k + 1;
    }
    current := captured.(elementId := ownerId, parentId := parentId, children := children);
  }

  // ------------------------------------------------------------------- windows

  function StabilizedWindow(previous: WindowState, current: WindowState): WindowState {
    current.(windowId := previous.windowId, root := StabilizedElement(previous.root, current.root, None))
  }

  function WindowScores(previous: seq<WindowState>, current: WindowState): seq<Option<int>> {
    seq(|previous|, i requires 0 <= i < |previous| => WindowMatchScore(previous[i], current))
  }

  function StabilizedWindows(previous: seq<WindowState>, current: seq<WindowState>, used: set<nat>): seq<WindowState> {
    if current == [] then []
    else
      match Best(WindowScores(previous, current[0]), used)
      case Some(i) =>
        [StabilizedWindow(previous[i], current[0])] + StabilizedWindows(previous, current[1..], used + {i})
      case None => [current[0]] + StabilizedWindows(previous, current[1..], used)
  }

  /** Relabels a captured desktop after the previous inventory. */
  method StabilizeWindows(previous: seq<WindowState>, captured: seq<WindowState>) returns (current: seq<WindowState>)
    ensures current == StabilizedWindows(previous, captured, {})
  {
    current := [];
    var used: set<nat> := {};
    var k := 0;
    while k < |captured|
      invariant 0 <= k <= |captured|
      invariant current + StabilizedWindows(previous, captured[k..], used) == StabilizedWindows(previous, captured, {})
    {
      var window := captured[k];
      var best := FindBest(WindowScores(previous, window), used);
      assert captured[k..][0] == window && captured[k..][1..] == captured[k + 1..];
      if best.Some? {
        used := used + {best.value};
        var root := StabilizeElement(previous[best.value].root, window.root, None);
        window := window.(windowId := previous[best.value].windowId, root := root);
      }
      current := current + [window];
      k := k + 1;
    }
  }

  // ------------------------------------------------------------ the fixpoint

  /** Siblings are told apart by the last segment of their locators. */
  ghost predicate DistinctSiblings(node: ElementNode) {
    && (forall i, j | 0 <= i < j < |node.children| ::
      LastSegment(node.children[i]) != LastSegment(node.children[j]))
    && forall i | 0 <= i < |node.children| :: DistinctSiblings(node.children[i])
  }

  /** Equal in everything a score looks at. */
  predicate SameFeatures(a: ElementNode, b: ElementNode) {
    a == b.(elementId := a.elementId, parentId := a.parentId, children := a.children)
  }

  /** `labelled` is `capture` with other ids, except below children too featureless to match. */
  ghost predicate Relabels(labelled: ElementNode, capture: ElementNode) {
    && SameFeatures(labelled, capture)
    && |labelled.children| == |capture.children|
    && forall i | 0 <= i < |capture.children| ::
      && labelled.children[i].parentId == Some(labelled.elementId)
      && (if ElementMatchScore(capture.children[i], capture.children[i]).Some?
          then Relabels(labelled.children[i], capture.children[i])
          else labelled.children[i] == Reparent(capture.children[i], Some(labelled.elementId)))
  }

  lemma {:induction false} ReparentRelabels(node: ElementNode, parentId: Option<ElementId>)
    ensures Relabels(Reparent(node, parentId), node)
  {
    forall i | 0 <= i < |node.children|
      ensures Relabels(Reparent(node.children[i], Some(node.elementId)), node.children[i])
    {
      ReparentRelabels(node.children[i], Some(node.elementId));
    }
  }

  /** No earlier element explains a capture better than the capture explains itself. */
  lemma SelfScoreIsTop(previous: ElementNode, current: ElementNode)
    ensures ElementMatchScore(previous, current).Some? ==>
      ElementMatchScore(current, current).Some?
      && ElementMatchScore(previous, current).value <= ElementMatchScore(current, current).value
  {
  }

  /** What stabilizing makes of one child: relabelled where something can match it at all. */
  ghost predicate ChildRelabelled(labelled: ElementNode, capture: ElementNode, ownerId: ElementId) {
    && labelled.parentId == Some(ownerId)
    && (if ElementMatchScore(capture, capture).Some? then Relabels(labelled, capture)
        else labelled == Reparent(capture, Some(ownerId)))
  }

  /** Stabilizing only ever relabels. */
  lemma {:induction false} StabilizeRelabels(previous: ElementNode, current: ElementNode, parentId: Option<ElementId>)
    ensures Relabels(StabilizedElement(previous, current, parentId), current)
    decreases current, 1
  {
    StabilizeChildrenRelabels(previous.children, current.children, {}, previous.elementId);
    var labelled := StabilizedElement(previous, current, parentId);
    forall i | 0 <= i < |current.children|
      ensures ChildRelabelled(labelled.children[i], current.children[i], labelled.elementId) {
    }
  }

  lemma {:induction false} StabilizeChildrenRelabels(previous: seq<ElementNode>, current: seq<ElementNode>,
                                                     used: set<nat>, ownerId: ElementId)
    ensures var r := StabilizedChildren(previous, current, used, ownerId);
      |r| == |current| && forall i | 0 <= i < |current| :: ChildRelabelled(r[i], current[i], ownerId)
    decreases current, 0
  {
    if current != [] {
      var best := Best(ElementScores(previous, current[0]), used);
      ReparentRelabels(current[0], Some(ownerId));
      if best.Some? {
        SelfScoreIsTop(previous[best.value], current[0]);
        StabilizeRelabels(previous[best.value], current[0], Some(ownerId));
        StabilizeChildrenRelabels(previous, current[1..], used + {best.value}, ownerId);
      } else {
        StabilizeChildrenRelabels(previous, current[1..], used, ownerId);
      }
    }
  }

  /** A relabelled sibling outscores every other sibling on its own capture. */
  lemma OwnLabelWins(labelled: seq<ElementNode>, capture: seq<ElementNode>, k: nat, used: set<nat>)
    requires |labelled| == |capture| && k < |capture|
    requires forall i | 0 <= i < |capture| :: SameFeatures(labelled[i], capture[i])
    requires forall i, j | 0 <= i < j < |capture| :: LastSegment(capture[i]) != LastSegment(capture[j])
    requires k !in used
    ensures Best(ElementScores(labelled, capture[k]), used)
      == if ElementMatchScore(capture[k], capture[k]).Some? then Some(k) else None
  {
    var scores := ElementScores(labelled, capture[k]);
    BestIsLastMaximum(scores, used, |scores|);
    assert ElementMatchScore(labelled[k], capture[k]) == ElementMatchScore(capture[k], capture[k]);
    assert scores[k] == ElementMatchScore(capture[k], capture[k]);
    forall i | 0 <= i < |labelled| && i != k && scores[i].Some?
      ensures scores[k].Some? && scores[i].value < scores[k].value
    {
      assert LastSegment(labelled[i]) == LastSegment(capture[i]);
    }
  }

  lemma ChildKeepsFeatures(labelled: ElementNode, capture: ElementNode, i: nat)
    requires Relabels(labelled, capture) && i < |capture.children|
    ensures SameFeatures(labelled.children[i], capture.children[i])
  {
    if ElementMatchScore(capture.children[i], capture.children[i]).None? {
      ReparentRelabels(capture.children[i], Some(labelled.elementId));
    }
  }

  /** Stabilizing the captured sibling against its own label, or against nothing, gives that label. */
  predicate FixedSibling(labelled: ElementNode, capture: ElementNode, ownerId: ElementId) {
    && SameFeatures(labelled, capture)
    && labelled == if ElementMatchScore(capture, capture).Some?
                   then StabilizedElement(labelled, capture, Some(ownerId))
                   else Reparent(capture, Some(ownerId))
  }

  ghost predicate FixedSiblings(labelled: seq<ElementNode>, capture: seq<ElementNode>, ownerId: ElementId) {
    && |labelled| == |capture|
    && (forall i | 0 <= i < |capture| :: FixedSibling(labelled[i], capture[i], ownerId))
    && forall i, j | 0 <= i < j < |capture| :: LastSegment(capture[i]) != LastSegment(capture[j])
  }

  /** Each sibling in turn finds its own label ... */
  lemma SiblingIsFixed(labelled: seq<ElementNode>, capture: seq<ElementNode>, k: nat, used: set<nat>, ownerId: ElementId)
    returns (next: set<nat>)
    requires FixedSiblings(labelled, capture, ownerId)
    requires k < |capture| && forall i | i in used :: i < k
    ensures forall i | i in next :: i < k + 1
    ensures StabilizedChildren(labelled, capture[k..], used, ownerId)
      == [labelled[k]] + StabilizedChildren(labelled, capture[k + 1..], next, ownerId)
  {
    OwnLabelWins(labelled, capture, k, used);
    NextStabilized(labelled, capture, k, used, ownerId);
    next := if ElementMatchScore(capture[k], capture[k]).Some? then used + {k} else used;
  }

  /** ... and so do all of them together. */
  lemma {:induction false} FixedSiblingsAreFixed(labelled: seq<ElementNode>, capture: seq<ElementNode>, k: nat,
                                                 used: set<nat>, ownerId: ElementId)
    requires FixedSiblings(labelled, capture, ownerId)
    requires k <= |capture| && forall i | i in used :: i < k
    ensures StabilizedChildren(labelled, capture[k..], used, ownerId) == labelled[k..]
    decreases |capture| - k
  {
    if k < |capture| {
      var next := SiblingIsFixed(labelled, capture, k, used, ownerId);
      FixedSiblingsAreFixed(labelled, capture, k + 1, next, ownerId);
      assert labelled[k..] == [labelled[k]] + labelled[k + 1..];
    }
  }

  /** Stabilizing a capture against a relabelling of itself reproduces that relabelling. */
  lemma {:induction false} RelabellingIsFixed(labelled: ElementNode, capture: ElementNode)
    requires Relabels(labelled, capture) && DistinctSiblings(capture)
    ensures StabilizedElement(labelled, capture, labelled.parentId) == labelled
    decreases capture
  {
    var l, c := labelled.children, capture.children;
    forall i | 0 <= i < |c| ensures FixedSibling(l[i], c[i], labelled.elementId) {
      ChildKeepsFeatures(labelled, capture, i);
      if ElementMatchScore(c[i], c[i]).Some? { RelabellingIsFixed(l[i], c[i]); }
    }
    FixedSiblingsAreFixed(l, c, 0, {}, labelled.elementId);
    assert c[0..] == c && l[0..] == l;
  }

  /**
   Refreshing a window that did not change keeps every id: stabilizing a capture again,
   against what any earlier tree made of it, gives the same tree.
   */
  lemma StabilizationIsFixpoint(earlier: ElementNode, capture: ElementNode, parentId: Option<ElementId>)
    requires DistinctSiblings(capture)
    ensures var once := StabilizedElement(earlier, capture, parentId);
      StabilizedElement(once, capture, parentId) == once
  {
    StabilizeRelabels(earlier, capture, parentId);
    RelabellingIsFixed(StabilizedElement(earlier, capture, parentId), capture);
  }

  /** A capture that was never stabilized is its own fixpoint once its parent links are true. */
  lemma CaptureIsFixed(capture: ElementNode, parentId: Option<ElementId>)
    requires DistinctSiblings(capture) && WellParented(capture, parentId)
    ensures StabilizedElement(capture, capture, parentId) == capture
  {
    ReparentRelabels(capture, parentId);
    ReparentOfWellParented(capture, parentId);
    RelabellingIsFixed(capture, capture);
  }

  // --------------------------------------------------------- desktop fixpoint

  /** Windows as the platform captures them: each with a handle of its own. */
  ghost predicate DistinctHandles(windows: seq<WindowState>) {
    && (forall i | 0 <= i < |windows| :: windows[i].root.nativeWindowHandle.Some?)
    && forall i, j | 0 <= i < j < |windows| ::
      windows[i].root.nativeWindowHandle != windows[j].root.nativeWindowHandle
  }

  ghost predicate Capture(windows: seq<WindowState>) {
    && DistinctHandles(windows)
    && forall i | 0 <= i < |windows| :: CapturedWindow(windows[i])
  }

  ghost predicate CapturedWindow(window: WindowState) {
    DistinctSiblings(window.root) && WellParented(window.root, None)
  }

  /** A window that is either the capture itself or the capture stabilized against something. */
  ghost predicate LabelledWindow(labelled: WindowState, capture: WindowState) {
    && labelled == capture.(windowId := labelled.windowId, root := labelled.root)
    && Relabels(labelled.root, capture.root)
    && labelled.root.parentId == None
    && (StabilizedElement(labelled.root, capture.root, None) == labelled.root)
  }

  lemma LabelledByStabilizing(earlier: WindowState, capture: WindowState)
    requires CapturedWindow(capture)
    ensures LabelledWindow(StabilizedWindow(earlier, capture), capture)
    ensures LabelledWindow(capture, capture)
  {
    StabilizeRelabels(earlier.root, capture.root, None);
    StabilizationIsFixpoint(earlier.root, capture.root, None);
    ReparentRelabels(capture.root, None);
    ReparentOfWellParented(capture.root, None);
    CaptureIsFixed(capture.root, None);
  }

  lemma {:induction false} StabilizedWindowsAreLabelled(earlier: seq<WindowState>, capture: seq<WindowState>, used: set<nat>)
    requires forall i | 0 <= i < |capture| :: CapturedWindow(capture[i])
    ensures var once := StabilizedWindows(earlier, capture, used);
      |once| == |capture| && forall i | 0 <= i < |capture| :: LabelledWindow(once[i], capture[i])
  {
    if capture != [] {
      var best := Best(WindowScores(earlier, capture[0]), used);
      LabelledByStabilizing(if best.Some? then earlier[best.value] else capture[0], capture[0]);
      StabilizedWindowsAreLabelled(earlier, capture[1..], if best.Some? then used + {best.value} else used);
    }
  }

  lemma OwnHandleWins(labelled: seq<WindowState>, capture: seq<WindowState>, k: nat, used: set<nat>)
    requires |labelled| == |capture| && k < |capture| && k !in used && DistinctHandles(capture)
    requires forall i | 0 <= i < |capture| :: LabelledWindow(labelled[i], capture[i])
    ensures Best(WindowScores(labelled, capture[k]), used) == Some(k)
  {
    var scores := WindowScores(labelled, capture[k]);
    BestIsLastMaximum(scores, used, |scores|);
    assert LabelledWindow(labelled[k], capture[k]);
    assert scores[k].Some?;
    forall i | 0 <= i < |labelled| && i != k ensures scores[i].None? {
      assert LabelledWindow(labelled[i], capture[i]);
      assert labelled[i].root.nativeWindowHandle == capture[i].root.nativeWindowHandle;
    }
  }

  lemma {:induction false} LabelledWindowsAreFixed(labelled: seq<WindowState>, capture: seq<WindowState>, k: nat,
                                                   used: set<nat>)
    requires |labelled| == |capture| && k <= |capture| && DistinctHandles(capture)
    requires forall i | 0 <= i < |capture| :: LabelledWindow(labelled[i], capture[i])
    requires forall i | i in used :: i < k
    ensures StabilizedWindows(labelled, capture[k..], used) == labelled[k..]
    decreases |capture| - k
  {
    if k < |capture| {
      OwnHandleWins(labelled, capture, k, used);
      assert capture[k..][0] == capture[k] && capture[k..][1..] == capture[k + 1..];
      assert labelled[k..] == [labelled[k]] + labelled[k + 1..];
      assert StabilizedWindow(labelled[k], capture[k]) == labelled[k] by {
        assert LabelledWindow(labelled[k], capture[k]);
      }
      LabelledWindowsAreFixed(labelled, capture, k + 1, used + {k});
    }
  }

  /** Capturing an unchanged desktop twice gives, after stabilization, the same inventory. */
  lemma DesktopRefreshIsFixpoint(earlier: seq<WindowState>, capture: seq<WindowState>)
    requires Capture(capture)
    ensures var once := StabilizedWindows(earlier, capture, {});
      StabilizedWindows(once, capture, {}) == once
  {
    StabilizedWindowsAreLabelled(earlier, capture, {});
    var once := StabilizedWindows(earlier, capture, {});
    LabelledWindowsAreFixed(once, capture, 0, {});
    assert capture[0..] == capture && once[0..] == once;
  }
}
