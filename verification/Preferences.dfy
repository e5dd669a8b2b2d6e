/**
 Which earlier element or window a capture takes its id from, told from what the two share:
 the weights of the scores amount to an order on that evidence.
 */
module Preferences {
  import opened Wrappers
  import opened Domain
  import opened Stabilization
  import Trees

  function One(shared: bool): nat {
    if shared then 1 else 0
  }

  // -------------------------------------------------------------------- elements

  /** What an earlier element and a captured one share: `texts` counts class and name, `place` segment and bounds. */
  datatype Evidence = Evidence(handle: bool, automationId: bool, texts: nat, place: nat)

  function EvidenceFor(previous: ElementNode, current: ElementNode): Evidence {
    Evidence(
      SameKnown(previous.nativeWindowHandle, current.nativeWindowHandle),
      SameKnown(previous.automationId, current.automationId),
      One(SameKnown(previous.className, current.className)) + One(SameKnown(previous.name, current.name)),
      One(LastSegment(previous) == LastSegment(current)) + One(previous.bounds == current.bounds))
  }

  /** Same control type, no conflicting handles, and one of handle, automation id, class and name shared. */
  predicate MayBe(previous: ElementNode, current: ElementNode) {
    var shared := EvidenceFor(previous, current);
    && previous.controlType == current.controlType
    && HandlesAgree(previous.nativeWindowHandle, current.nativeWindowHandle)
    && (shared.handle || shared.automationId || shared.texts > 0)
  }

  /**
   Handle first, then automation id, then texts, then place; but class, name, segment and
   bounds together outrank an automation id that stands alone.
   */
  predicate Outranks(a: Evidence, b: Evidence) {
    if a.handle != b.handle then a.handle
    else if a.automationId && !b.automationId then !(Alone(a) && Full(b))
    else if b.automationId && !a.automationId then Alone(b) && Full(a)
    else if a.texts != b.texts then a.texts > b.texts
    else a.place > b.place
  }

  predicate Alone(e: Evidence) {
    e.texts == 0 && e.place == 0
  }

  predicate Full(e: Evidence) {
    e.texts == 2 && e.place == 2
  }

  lemma MatchIsMayBe(previous: ElementNode, current: ElementNode)
    ensures ElementMatchScore(previous, current).Some? <==> MayBe(previous, current)
  {
  }

  /** The scores order candidates as the evidence does, ties included. */
  lemma ScoreIsEvidence(a: ElementNode, b: ElementNode, current: ElementNode)
    requires MayBe(a, current) && MayBe(b, current)
    ensures ElementMatchScore(a, current).Some? && ElementMatchScore(b, current).Some?
    ensures ElementMatchScore(a, current).value > ElementMatchScore(b, current).value
      <==> Outranks(EvidenceFor(a, current), EvidenceFor(b, current))
    ensures ElementMatchScore(a, current).value == ElementMatchScore(b, current).value
      <==> EvidenceFor(a, current) == EvidenceFor(b, current)
  {
    WeightOf(a, current);
    WeightOf(b, current);
  }

  lemma WeightOf(previous: ElementNode, current: ElementNode)
    requires MayBe(previous, current)
    ensures var e := EvidenceFor(previous, current);
      ElementMatchScore(previous, current)
        == Some(100 + 1000 * One(e.handle) + 300 * One(e.automationId) + 120 * e.texts + 40 * e.place)
    ensures EvidenceFor(previous, current).texts <= 2 && EvidenceFor(previous, current).place <= 2
  {
  }

  /** The pick for a capture: unused, possible, outranked by nothing unused, and of equals the last. */
  predicate IsPick(previous: seq<ElementNode>, used: set<nat>, current: ElementNode, pick: Option<nat>) {
    match pick
    case None => forall j | 0 <= j < |previous| && j !in used :: !MayBe(previous[j], current)
    case Some(i) =>
      && i < |previous| && i !in used && MayBe(previous[i], current)
      && forall j | 0 <= j < |previous| && j !in used && MayBe(previous[j], current) ::
        var e, f := EvidenceFor(previous[i], current), EvidenceFor(previous[j], current);
        !Outranks(f, e) && (e == f ==> j <= i)
  }

  lemma BestIsPick(previous: seq<ElementNode>, used: set<nat>, current: ElementNode)
    ensures IsPick(previous, used, current, Best(ElementScores(previous, current), used))
  {
    var scores := ElementScores(previous, current);
    var best := Best(scores, used);
    BestIsLastMaximum(scores, used, |scores|);
    forall j | 0 <= j < |previous| && j !in used
      ensures MayBe(previous[j], current) ==> best.Some? && best.value < |previous| && MayBe(previous[best.value], current)
      ensures MayBe(previous[j], current) ==>
        var e, f := EvidenceFor(previous[best.value], current), EvidenceFor(previous[j], current);
        !Outranks(f, e) && (e == f ==> j <= best.value)
    {
      MatchIsMayBe(previous[j], current);
      if MayBe(previous[j], current) {
        assert scores[j] == ElementMatchScore(previous[j], current);
        MatchIsMayBe(previous[best.value], current);
        assert scores[best.value] == ElementMatchScore(previous[best.value], current);
        ScoreIsEvidence(previous[j], previous[best.value], current);
        ScoreIsEvidence(previous[best.value], previous[j], current);
      }
    }
    if best.Some? { MatchIsMayBe(previous[best.value], current); }
  }

  /** Nothing else can be the pick. */
  lemma PickIsUnique(previous: seq<ElementNode>, used: set<nat>, current: ElementNode, a: Option<nat>, b: Option<nat>)
    requires IsPick(previous, used, current, a) && IsPick(previous, used, current, b)
    ensures a == b
  {
    if a.Some? && b.Some? { Comparable(previous[a.value], previous[b.value], current); }
  }

  lemma Comparable(a: ElementNode, b: ElementNode, current: ElementNode)
    ensures var e, f := EvidenceFor(a, current), EvidenceFor(b, current);
      e == f || Outranks(e, f) || Outranks(f, e)
  {
  }

  /** The earlier children taken by the first picks. */
  function Taken(picks: seq<Option<nat>>): set<nat> {
    set k | 0 <= k < |picks| && picks[k].Some? :: picks[k].value
  }

  lemma TakenOneMore(picks: seq<Option<nat>>, pick: Option<nat>)
    ensures Taken(picks + [pick]) == Taken(picks) + if pick.Some? then {pick.value} else {}
  {
    var all := picks + [pick];
    forall i | i in Taken(picks) ensures i in Taken(all) {
      var k :| 0 <= k < |picks| && picks[k].Some? && picks[k].value == i;
      assert all[k] == picks[k];
    }
    assert all[|picks|] == pick;
  }

  /** Each captured child in turn has its pick among the earlier children left. */
  ghost predicate ArePicks(previous: seq<ElementNode>, current: seq<ElementNode>, picks: seq<Option<nat>>) {
    && |picks| <= |current|
    && forall k | 0 <= k < |picks| :: IsPick(previous, Taken(picks[..k]), current[k], picks[k])
  }

  /** A picked child is relabelled after its pick, any other one keeps its own ids. */
  function Relabelled(previous: seq<ElementNode>, current: ElementNode, pick: Option<nat>, ownerId: ElementId): ElementNode
    requires pick.Some? ==> pick.value < |previous|
  {
    match pick
    case Some(i) => StabilizedElement(previous[i], current, Some(ownerId))
    case None => Trees.Reparent(current, Some(ownerId))
  }

  /** The child is what its pick makes of the capture. */
  predicate MadeBy(previous: seq<ElementNode>, current: ElementNode, pick: Option<nat>, ownerId: ElementId,
                   after: ElementNode)
  {
    (pick.Some? ==> pick.value < |previous|) && after == Relabelled(previous, current, pick, ownerId)
  }

  /** From the `n`th child on, the list is what the picks make of the captures. */
  ghost predicate AllMadeBy(previous: seq<ElementNode>, current: seq<ElementNode>, picks: seq<Option<nat>>, n: nat,
                            ownerId: ElementId, after: seq<ElementNode>)
  {
    && n <= |current| == |picks| && |after| == |current| - n
    && forall k | 0 <= k < |after| :: MadeBy(previous, current[n + k], picks[n + k], ownerId, after[k])
  }

  lemma OneMoreMade(previous: seq<ElementNode>, current: seq<ElementNode>, picks: seq<Option<nat>>, n: nat,
                    ownerId: ElementId, first: ElementNode, rest: seq<ElementNode>)
    requires n < |current| == |picks| && AllMadeBy(previous, current, picks, n + 1, ownerId, rest)
    requires MadeBy(previous, current[n], picks[n], ownerId, first)
    ensures AllMadeBy(previous, current, picks, n, ownerId, [first] + rest)
  {
    forall k | 0 <= k < |rest| + 1
      ensures MadeBy(previous, current[n + k], picks[n + k], ownerId, ([first] + rest)[k])
    {
      assert k > 0 ==> MadeBy(previous, current[n + 1 + (k - 1)], picks[n + 1 + (k - 1)], ownerId, rest[k - 1]);
    }
  }

  lemma NextIsPicked(previous: seq<ElementNode>, current: seq<ElementNode>, done: seq<Option<nat>>, ownerId: ElementId)
    returns (pick: Option<nat>)
    requires ArePicks(previous, current, done) && |done| < |current|
    ensures ArePicks(previous, current, done + [pick]) && (pick.Some? ==> pick.value < |previous|)
    ensures StabilizedChildren(previous, current[|done|..], Taken(done), ownerId)
      == [Relabelled(previous, current[|done|], pick, ownerId)]
         + StabilizedChildren(previous, current[|done| + 1..], Taken(done + [pick]), ownerId)
  {
    pick := Best(ElementScores(previous, current[|done|]), Taken(done));
    BestIsPick(previous, Taken(done), current[|done|]);
    NextStabilized(previous, current, |done|, Taken(done), ownerId);
    TakenOneMore(done, pick);
    assert Taken(done) + {} == Taken(done);
    PicksExtend(previous, current, done, pick);
  }

  lemma {:induction false} ChildrenArePicked(previous: seq<ElementNode>, current: seq<ElementNode>, done: seq<Option<nat>>,
                                             ownerId: ElementId) returns (picks: seq<Option<nat>>)
    requires ArePicks(previous, current, done)
    ensures ArePicks(previous, current, picks) && |picks| == |current| && done <= picks
    ensures AllMadeBy(previous, current, picks, |done|, ownerId,
                      StabilizedChildren(previous, current[|done|..], Taken(done), ownerId))
    decreases |current| - |done|
  {
    picks := done;
    if |done| < |current| {
      var pick := NextIsPicked(previous, current, done, ownerId);
      picks := ChildrenArePicked(previous, current, done + [pick], ownerId);
      assert picks[|done|] == (done + [pick])[|done|] == pick;
      OneMoreMade(previous, current, picks, |done|, ownerId, Relabelled(previous, current[|done|], pick, ownerId),
                  StabilizedChildren(previous, current[|done| + 1..], Taken(done + [pick]), ownerId));
    }
  }

  lemma PicksExtend(previous: seq<ElementNode>, current: seq<ElementNode>, done: seq<Option<nat>>, pick: Option<nat>)
    requires ArePicks(previous, current, done) && |done| < |current|
    requires IsPick(previous, Taken(done), current[|done|], pick)
    ensures ArePicks(previous, current, done + [pick])
  {
    var all := done + [pick];
    forall k | 0 <= k < |all| ensures IsPick(previous, Taken(all[..k]), current[k], all[k]) {
      assert k < |done| ==> all[..k] == done[..k];
      assert all[..|done|] == done;
    }
  }

  /**
   What stabilizing does to a tree, without scores: child by child in capture order, each takes
   the identity of the unused earlier child that the evidence prefers, and is relabelled after
   it in the same way; a child without a possible one keeps its ids.
   */
  lemma StabilizedByPicks(previous: ElementNode, current: ElementNode, parentId: Option<ElementId>)
    returns (picks: seq<Option<nat>>)
    ensures var after := StabilizedElement(previous, current, parentId);
      && after == current.(elementId := previous.elementId, parentId := parentId, children := after.children)
      && |after.children| == |current.children| == |picks|
      && ArePicks(previous.children, current.children, picks)
      && forall k | 0 <= k < |picks| ::
        MadeBy(previous.children, current.children[k], picks[k], previous.elementId, after.children[k])
  {
    assert Taken([]) == {} && current.children[0..] == current.children;
    picks := ChildrenArePicked(previous.children, current.children, [], previous.elementId);
  }

  // ------------------------------------------------------- one child, two candidates

  predicate OnlyChildGets(after: ElementNode, id: ElementId) {
    |after.children| == 1 && after.children[0].elementId == id
  }

  /** A single captured child takes the id of the possible earlier child that outranks all others. */
  lemma OnlyChildTakes(previous: ElementNode, current: ElementNode, parentId: Option<ElementId>, i: nat)
    requires |current.children| == 1 && i < |previous.children| && MayBe(previous.children[i], current.children[0])
    requires forall j | 0 <= j < |previous.children| && j != i && MayBe(previous.children[j], current.children[0]) ::
      Outranks(EvidenceFor(previous.children[i], current.children[0]), EvidenceFor(previous.children[j], current.children[0]))
    ensures OnlyChildGets(StabilizedElement(previous, current, parentId), previous.children[i].elementId)
  {
    var picks := StabilizedByPicks(previous, current, parentId);
    var c := current.children[0];
    assert picks[..0] == [] && Taken([]) == {};
    assert IsPick(previous.children, {}, c, picks[0]);
    assert picks[0].Some?;
  }

  /** Two earlier siblings, in either order. */
  predicate Siblings(previous: ElementNode, a: ElementNode, b: ElementNode) {
    previous.children == [a, b] || previous.children == [b, a]
  }

  /** A shared handle decides, whatever else the other sibling shares. */
  lemma SharedHandleWins(previous: ElementNode, current: ElementNode, a: ElementNode, b: ElementNode, c: ElementNode,
                         parentId: Option<ElementId>)
    requires Siblings(previous, a, b) && current.children == [c]
    requires a.controlType == c.controlType && SameKnown(a.nativeWindowHandle, c.nativeWindowHandle)
    requires !SameKnown(b.nativeWindowHandle, c.nativeWindowHandle)
    ensures OnlyChildGets(StabilizedElement(previous, current, parentId), a.elementId)
  {
    OnlyChildTakes(previous, current, parentId, if previous.children[0] == a then 0 else 1);
  }

  /** Same control type as the capture, no handle. */
  predicate Plain(node: ElementNode, c: ElementNode) {
    node.controlType == c.controlType && node.nativeWindowHandle.None?
  }

  /** At the same place, the one sibling that shares the automation id is taken, not one that shares class and name. */
  lemma SharedAutomationIdWins(previous: ElementNode, current: ElementNode, a: ElementNode, b: ElementNode, c: ElementNode,
                               parentId: Option<ElementId>)
    requires Siblings(previous, a, b) && current.children == [c] && Plain(a, c) && Plain(b, c)
    requires EvidenceFor(a, c).place == EvidenceFor(b, c).place
    requires SameKnown(a.automationId, c.automationId) && !SameKnown(b.automationId, c.automationId)
    ensures OnlyChildGets(StabilizedElement(previous, current, parentId), a.elementId)
  {
    OnlyChildTakes(previous, current, parentId, if previous.children[0] == a then 0 else 1);
  }

  /** With automation ids alike, sharing more of class and name decides, wherever the siblings are. */
  lemma MoreSharedTextWins(previous: ElementNode, current: ElementNode, a: ElementNode, b: ElementNode, c: ElementNode,
                           parentId: Option<ElementId>)
    requires Siblings(previous, a, b) && current.children == [c] && Plain(a, c) && Plain(b, c)
    requires SameKnown(a.automationId, c.automationId) == SameKnown(b.automationId, c.automationId)
    requires EvidenceFor(a, c).texts > EvidenceFor(b, c).texts
    ensures OnlyChildGets(StabilizedElement(previous, current, parentId), a.elementId)
  {
    OnlyChildTakes(previous, current, parentId, if previous.children[0] == a then 0 else 1);
  }

  /** With those alike too, sharing more of segment and bounds. */
  lemma MoreSharedPlaceWins(previous: ElementNode, current: ElementNode, a: ElementNode, b: ElementNode, c: ElementNode,
                            parentId: Option<ElementId>)
    requires Siblings(previous, a, b) && current.children == [c] && Plain(a, c) && Plain(b, c)
    requires SameKnown(a.automationId, c.automationId) == SameKnown(b.automationId, c.automationId)
    requires EvidenceFor(a, c).texts == EvidenceFor(b, c).texts && EvidenceFor(a, c).place > EvidenceFor(b, c).place
    requires SameKnown(a.automationId, c.automationId) || EvidenceFor(a, c).texts > 0
    ensures OnlyChildGets(StabilizedElement(previous, current, parentId), a.elementId)
  {
    OnlyChildTakes(previous, current, parentId, if previous.children[0] == a then 0 else 1);
  }

  // --------------------------------------------------------------------- windows

  datatype WindowEvidence =
    WindowEvidence(handle: bool, process: bool, automationId: bool, className: bool, title: bool, name: bool)

  function WindowEvidenceFor(previous: WindowState, current: WindowState): WindowEvidence {
    WindowEvidence(
      SameKnown(previous.root.nativeWindowHandle, current.root.nativeWindowHandle),
      previous.pid == current.pid != 0,
      SameKnown(previous.root.automationId, current.root.automationId),
      SameKnown(previous.root.className, current.root.className),
      previous.title == current.title != "",
      SameKnown(previous.root.name, current.root.name))
  }

  /** Beside the handle: a process counts 10, an automation id 6, a class 4, a title or a name 3. */
  function Worth(e: WindowEvidence): nat {
    10 * One(e.process) + 6 * One(e.automationId) + 4 * One(e.className) + 3 * One(e.title) + 3 * One(e.name)
  }

  predicate WindowMayBe(previous: WindowState, current: WindowState) {
    var shared := WindowEvidenceFor(previous, current);
    && previous.root.controlType == current.root.controlType
    && HandlesAgree(previous.root.nativeWindowHandle, current.root.nativeWindowHandle)
    && (previous.pid != 0 && current.pid != 0 ==> previous.pid == current.pid)
    && (shared.handle || Worth(shared) >= 10)
  }

  /** A shared handle decides; else the evidence worth more. */
  predicate WindowOutranks(a: WindowEvidence, b: WindowEvidence) {
    if a.handle != b.handle then a.handle else Worth(a) > Worth(b)
  }

  predicate WindowTies(a: WindowEvidence, b: WindowEvidence) {
    a.handle == b.handle && Worth(a) == Worth(b)
  }

  lemma WindowScoreIsWorth(previous: WindowState, current: WindowState)
    ensures WindowMatchScore(previous, current).Some? <==> WindowMayBe(previous, current)
    ensures WindowMatchScore(previous, current).Some? ==>
      var e := WindowEvidenceFor(previous, current);
      WindowMatchScore(previous, current).value == 1000 * One(e.handle) + 20 * Worth(e)
  {
  }

  predicate IsWindowPick(previous: seq<WindowState>, used: set<nat>, current: WindowState, pick: Option<nat>) {
    match pick
    case None => forall j | 0 <= j < |previous| && j !in used :: !WindowMayBe(previous[j], current)
    case Some(i) =>
      && i < |previous| && i !in used && WindowMayBe(previous[i], current)
      && forall j | 0 <= j < |previous| && j !in used && WindowMayBe(previous[j], current) ::
        var e, f := WindowEvidenceFor(previous[i], current), WindowEvidenceFor(previous[j], current);
        !WindowOutranks(f, e) && (WindowTies(e, f) ==> j <= i)
  }

  lemma BestIsWindowPick(previous: seq<WindowState>, used: set<nat>, current: WindowState)
    ensures IsWindowPick(previous, used, current, Best(WindowScores(previous, current), used))
  {
    var scores := WindowScores(previous, current);
    var best := Best(scores, used);
    BestIsLastMaximum(scores, used, |scores|);
    forall j | 0 <= j < |previous| ensures scores[j].Some? <==> WindowMayBe(previous[j], current)
      ensures scores[j].Some? ==> var e := WindowEvidenceFor(previous[j], current);
        scores[j].value == 1000 * One(e.handle) + 20 * Worth(e)
    {
      WindowScoreIsWorth(previous[j], current);
    }
  }

  ghost predicate AreWindowPicks(previous: seq<WindowState>, current: seq<WindowState>, picks: seq<Option<nat>>) {
    && |picks| <= |current|
    && forall k | 0 <= k < |picks| :: IsWindowPick(previous, Taken(picks[..k]), current[k], picks[k])
  }

  function RelabelledWindow(previous: seq<WindowState>, current: WindowState, pick: Option<nat>): WindowState
    requires pick.Some? ==> pick.value < |previous|
  {
    match pick case Some(i) => StabilizedWindow(previous[i], current) case None => current
  }

  lemma WindowPicksExtend(previous: seq<WindowState>, current: seq<WindowState>, done: seq<Option<nat>>, pick: Option<nat>)
    requires AreWindowPicks(previous, current, done) && |done| < |current|
    requires IsWindowPick(previous, Taken(done), current[|done|], pick)
    ensures AreWindowPicks(previous, current, done + [pick])
  {
    var all := done + [pick];
    forall k | 0 <= k < |all| ensures IsWindowPick(previous, Taken(all[..k]), current[k], all[k]) {
      assert k < |done| ==> all[..k] == done[..k];
      assert all[..|done|] == done;
    }
  }

  predicate WindowMadeBy(previous: seq<WindowState>, current: WindowState, pick: Option<nat>, after: WindowState) {
    (pick.Some? ==> pick.value < |previous|) && after == RelabelledWindow(previous, current, pick)
  }

  ghost predicate AllWindowsMadeBy(previous: seq<WindowState>, current: seq<WindowState>, picks: seq<Option<nat>>, n: nat,
                                   after: seq<WindowState>)
  {
    && n <= |current| == |picks| && |after| == |current| - n
    && forall k | 0 <= k < |after| :: WindowMadeBy(previous, current[n + k], picks[n + k], after[k])
  }

  lemma OneMoreWindowMade(previous: seq<WindowState>, current: seq<WindowState>, picks: seq<Option<nat>>, n: nat,
                          first: WindowState, rest: seq<WindowState>)
    requires n < |current| == |picks| && AllWindowsMadeBy(previous, current, picks, n + 1, rest)
    requires WindowMadeBy(previous, current[n], picks[n], first)
    ensures AllWindowsMadeBy(previous, current, picks, n, [first] + rest)
  {
    forall k | 0 <= k < |rest| + 1 ensures WindowMadeBy(previous, current[n + k], picks[n + k], ([first] + rest)[k]) {
      assert k > 0 ==> WindowMadeBy(previous, current[n + 1 + (k - 1)], picks[n + 1 + (k - 1)], rest[k - 1]);
    }
  }

  lemma NextWindowIsPicked(previous: seq<WindowState>, current: seq<WindowState>, done: seq<Option<nat>>)
    returns (pick: Option<nat>)
    requires AreWindowPicks(previous, current, done) && |done| < |current|
    ensures AreWindowPicks(previous, current, done + [pick]) && (pick.Some? ==> pick.value < |previous|)
    ensures StabilizedWindows(previous, current[|done|..], Taken(done))
      == [RelabelledWindow(previous, current[|done|], pick)]
         + StabilizedWindows(previous, current[|done| + 1..], Taken(done + [pick]))
  {
    pick := Best(WindowScores(previous, current[|done|]), Taken(done));
    BestIsWindowPick(previous, Taken(done), current[|done|]);
    TakenOneMore(done, pick);
    assert Taken(done) + {} == Taken(done);
    assert current[|done|..] == [current[|done|]] + current[|done| + 1..];
    WindowPicksExtend(previous, current, done, pick);
  }

  lemma {:induction false} WindowsArePicked(previous: seq<WindowState>, current: seq<WindowState>, done: seq<Option<nat>>)
    returns (picks: seq<Option<nat>>)
    requires AreWindowPicks(previous, current, done)
    ensures AreWindowPicks(previous, current, picks) && |picks| == |current| && done <= picks
    ensures AllWindowsMadeBy(previous, current, picks, |done|,
                             StabilizedWindows(previous, current[|done|..], Taken(done)))
    decreases |current| - |done|
  {
    picks := done;
    if |done| < |current| {
      var pick := NextWindowIsPicked(previous, current, done);
      picks := WindowsArePicked(previous, current, done + [pick]);
      assert picks[|done|] == (done + [pick])[|done|] == pick;
      OneMoreWindowMade(previous, current, picks, |done|, RelabelledWindow(previous, current[|done|], pick),
                        StabilizedWindows(previous, current[|done| + 1..], Taken(done + [pick])));
    }
  }

  /** The same for a desktop: window by window in capture order, without scores. */
  lemma StabilizedWindowsByPicks(previous: seq<WindowState>, current: seq<WindowState>) returns (picks: seq<Option<nat>>)
    ensures var after := StabilizedWindows(previous, current, {});
      && |after| == |current| == |picks|
      && AreWindowPicks(previous, current, picks)
      && forall k | 0 <= k < |picks| :: WindowMadeBy(previous, current[k], picks[k], after[k])
  {
    assert Taken([]) == {} && current[0..] == current;
    picks := WindowsArePicked(previous, current, []);
  }
}
