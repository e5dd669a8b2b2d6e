/**
 What refreshing keeps over whole runs: window ids stay unique and root ids stay owned by one
 window, so every pair of published snapshots can be diffed, annotated or not.
 */
module Refreshes {
  import opened Wrappers
  import opened Domain
  import opened Trees
  import opened Materialize
  import opened ElementIds
  import opened Stabilization
  import opened Observer
  import Coalescing
  import Fingerprints
  import FocusBlind
  import RoundTrip
  import Sorting
  import StabilizedIds
  import StateStore
  import StoreLaws

  /** Window and root are named after one fingerprint, and no inner node is named like a root. */
  ghost predicate NamedBy(naming: Naming, window: WindowState, fingerprint: string) {
    && fingerprint in naming.texts && RootText(fingerprint) in naming.texts
    && window.windowId == WindowIdFrom(naming.hash, fingerprint)
    && window.root.elementId == RootIdFrom(naming.hash, fingerprint)
    && forall id | InForest(window.root.children, id) :: InnerId(naming, id)
  }

  ghost predicate Named(naming: Naming, window: WindowState) {
    exists fingerprint :: NamedBy(naming, window, fingerprint)
  }

  /** Named after a fingerprint that spells the window's handle. */
  ghost predicate TaggedBy(naming: Naming, window: WindowState, fingerprint: string) {
    NamedBy(naming, window, fingerprint) && window.root.nativeWindowHandle == Some(Fingerprints.HandleSpelled(fingerprint))
  }

  /** Located by a fingerprint that spells the window's handle, with locators as materialized. */
  ghost predicate LocatedWindow(naming: Naming, window: WindowState) {
    && window.root.nativeWindowHandle == Some(Fingerprints.HandleSpelled(window.root.locator.windowFingerprint))
    && FromMaterialize(LocatorSignature(naming.normalize), ElementIdFrom(naming.normalize, naming.hash), window.root)
  }

  /** Named and located, possibly after different captures, with true parent links. */
  ghost predicate SoundWindow(naming: Naming, window: WindowState) {
    && WellParented(window.root, None)
    && LocatedWindow(naming, window)
    && exists fingerprint :: TaggedBy(naming, window, fingerprint)
  }

  ghost predicate SoundInventory(naming: Naming, windows: seq<WindowState>) {
    DistinctHandles(windows) && forall w | w in windows :: SoundWindow(naming, w)
  }

  // ----------------------------------------------------------- captured windows

  /** A captured window is named after its fingerprint. */
  lemma CapturedIsNamed(naming: Naming, window: WindowState, fingerprint: string, raw: RawNode)
    requires CapturedFrom(naming, window, fingerprint, raw)
    ensures NamedBy(naming, window, fingerprint) && WellParented(window.root, None)
  {
    LocatorSignatureReadsSemantics(naming.normalize);
    MaterializedIsLocated(LocatorSignature(naming.normalize), ElementIdFrom(naming.normalize, naming.hash), fingerprint,
                          raw, None, []);
    CapturedRootText(naming, window, fingerprint, raw);
    forall id | InForest(window.root.children, id) ensures InnerId(naming, id) {
      var i :| 0 <= i < |window.root.children| && Contains(window.root.children[i], id);
      CapturedInnerIds(naming, window, fingerprint, raw, i, id);
    }
  }

  /** A capture whose fingerprint was built for the handle that its root reports is sound. */
  lemma CapturedIsSound(naming: Naming, window: WindowState, fingerprint: string, raw: RawNode, hwnd: nat)
    requires CapturedFrom(naming, window, fingerprint, raw)
    requires Fingerprints.BuiltFor(naming.normalize, fingerprint, hwnd) && window.root.nativeWindowHandle == Some(hwnd)
    ensures SoundWindow(naming, window) && HasHandle(window, hwnd)
  {
    var signer, idOf := LocatorSignature(naming.normalize), ElementIdFrom(naming.normalize, naming.hash);
    Fingerprints.EqualFingerprintsEqualHandles(naming.normalize, fingerprint, hwnd);
    CapturedIsNamed(naming, window, fingerprint, raw);
    assert TaggedBy(naming, window, fingerprint);
    SameLocatorsAsItself(window.root);
    assert ComesFrom(signer, idOf, window.root, raw);
  }

  /** Whatever keeps handle and locators keeps a window located. */
  lemma SameLocatorsStayLocated(naming: Naming, after: WindowState, before: WindowState)
    requires LocatedWindow(naming, before) && SameLocators(after.root, before.root)
    requires after.root.nativeWindowHandle == before.root.nativeWindowHandle
    ensures LocatedWindow(naming, after)
  {
    var signer, idOf := LocatorSignature(naming.normalize), ElementIdFrom(naming.normalize, naming.hash);
    var raw :| ComesFrom(signer, idOf, before.root, raw);
    SameLocatorsChain(after.root, before.root,
                      MaterializeRoot(signer, idOf, before.root.locator.windowFingerprint, raw));
    assert ComesFrom(signer, idOf, after.root, raw);
  }

  // ------------------------------------------------------------ owned root ids

  /** A root id occurs in no window of another id. */
  lemma RootIdsAreOwned(naming: Naming, p: WindowState, w: WindowState)
    requires Collisionless(naming) && Named(naming, p) && Named(naming, w) && w.windowId != p.windowId
    ensures !Contains(w.root, p.root.elementId)
  {
    var fingerprint :| NamedBy(naming, p, fingerprint);
    var other :| NamedBy(naming, w, other);
    RootIdsAreNotInner(naming, fingerprint);
    if RootIdFrom(naming.hash, fingerprint) == RootIdFrom(naming.hash, other) {
      RootIdsTellFingerprints(naming, fingerprint, other);
    }
    if Contains(w.root, p.root.elementId) { assert InForest(w.root.children, p.root.elementId); }
  }

  /** Named windows in id order can be diffed against each other. */
  lemma NamedDesktopsAreDiffable(naming: Naming, previous: seq<WindowState>, next: seq<WindowState>)
    requires Collisionless(naming)
    requires Sorting.Sorted(StoreLaws.WindowBefore, previous) && Sorting.Sorted(StoreLaws.WindowBefore, next)
    requires forall w | w in previous || w in next :: Named(naming, w)
    requires StoreLaws.RootsWellParented(next)
    ensures RoundTrip.Diffable(previous, next)
  {
    forall p, w | p in previous && (w in previous || w in next) && w.windowId != p.windowId
      ensures !Contains(w.root, p.root.elementId)
    {
      RootIdsAreOwned(naming, p, w);
    }
  }

  /**
   Captured desktops meet the hypotheses of the diff round trip, whatever their names contain;
   only the texts hashed are assumed not to collide.
   */
  lemma CapturedDesktopsAreDiffable(naming: Naming, previous: seq<WindowState>, next: seq<WindowState>)
    requires Collisionless(naming)
    requires Sorting.Sorted(StoreLaws.WindowBefore, previous) && Sorting.Sorted(StoreLaws.WindowBefore, next)
    requires forall w | w in previous || w in next :: Captured(naming, w)
    ensures RoundTrip.Diffable(previous, next)
  {
    forall w | w in previous || w in next ensures Named(naming, w) && WellParented(w.root, None) {
      var fingerprint, raw :| CapturedFrom(naming, w, fingerprint, raw);
      CapturedIsNamed(naming, w, fingerprint, raw);
    }
    NamedDesktopsAreDiffable(naming, previous, next);
  }

  // -------------------------------------------------------------- stabilization

  /** Stabilizing gives every node its parent, whatever the trees looked like before. */
  lemma {:induction false} StabilizedIsWellParented(previous: ElementNode, current: ElementNode, parentId: Option<ElementId>)
    ensures WellParented(StabilizedElement(previous, current, parentId), parentId)
    decreases current, 1
  {
    StabilizedChildrenAreWellParented(previous.children, current.children, {}, previous.elementId);
  }

  lemma {:induction false} StabilizedChildrenAreWellParented(previous: seq<ElementNode>, current: seq<ElementNode>,
                                                             used: set<nat>, ownerId: ElementId)
    ensures StoreLaws.ChildrenWellParented(StabilizedChildren(previous, current, used, ownerId), ownerId)
    decreases current, 0
  {
    if current != [] {
      match Best(ElementScores(previous, current[0]), used)
      case Some(i) =>
        StabilizedIsWellParented(previous[i], current[0], Some(ownerId));
        StabilizedChildrenAreWellParented(previous, current[1..], used + {i}, ownerId);
      case None =>
        ReparentIsWellParented(current[0], Some(ownerId));
        StabilizedChildrenAreWellParented(previous, current[1..], used, ownerId);
    }
  }

  /** A capture stabilized against a window with its handle stays sound: both names come from the same window. */
  lemma StabilizedIsSound(naming: Naming, previous: WindowState, current: WindowState)
    requires SoundWindow(naming, previous) && SoundWindow(naming, current)
    requires previous.root.nativeWindowHandle == current.root.nativeWindowHandle
    ensures SoundWindow(naming, StabilizedWindow(previous, current))
  {
    var after := StabilizedWindow(previous, current);
    var fingerprint :| TaggedBy(naming, previous, fingerprint);
    var other :| TaggedBy(naming, current, other);
    StabilizedIsWellParented(previous.root, current.root, None);
    forall id | InForest(after.root.children, id) ensures InnerId(naming, id) {
      StabilizedIds.StabilizedForestIdsAre(previous.root.children, current.root.children, {}, previous.root.elementId, id);
      StabilizedIds.ReusedBelowIsEarlier(previous.root.children, current.root.children, {}, id);
      StabilizedIds.KeptBelowIsCaptured(previous.root.children, current.root.children, {}, id);
    }
    assert TaggedBy(naming, after, fingerprint);
    StabilizeRelabels(previous.root, current.root, None);
    RelabellingKeepsLocators(after.root, current.root);
    SameLocatorsStayLocated(naming, after, current);
  }

  /** Windows with handles match by handle only. */
  lemma MatchedHandlesAgree(previous: WindowState, current: WindowState)
    requires previous.root.nativeWindowHandle.Some? && current.root.nativeWindowHandle.Some?
    requires WindowMatchScore(previous, current).Some?
    ensures previous.root.nativeWindowHandle == current.root.nativeWindowHandle
  {
  }

  ghost predicate SoundAs(naming: Naming, after: WindowState, current: WindowState) {
    SoundWindow(naming, after) && after.root.nativeWindowHandle == current.root.nativeWindowHandle
  }

  /** Sound windows with the handles of the given ones. */
  ghost predicate SoundLike(naming: Naming, after: seq<WindowState>, current: seq<WindowState>) {
    |after| == |current| && forall i | 0 <= i < |current| :: SoundAs(naming, after[i], current[i])
  }

  lemma SoundLikeCons(naming: Naming, first: WindowState, after: seq<WindowState>, current: seq<WindowState>)
    requires current != [] && SoundLike(naming, after, current[1..]) && SoundAs(naming, first, current[0])
    ensures SoundLike(naming, [first] + after, current)
  {
    forall i | 0 <= i < |current| ensures SoundAs(naming, ([first] + after)[i], current[i]) {
      assert i > 0 ==> SoundAs(naming, after[i - 1], current[1..][i - 1]);
    }
  }

  /** Relabelling a captured desktop keeps it sound, window by window and with its own handles. */
  lemma {:induction false} StabilizedWindowsAreSound(naming: Naming, previous: seq<WindowState>,
                                                     current: seq<WindowState>, used: set<nat>)
    requires forall w | w in previous || w in current :: SoundWindow(naming, w)
    ensures SoundLike(naming, StabilizedWindows(previous, current, used), current)
    decreases current
  {
    if current != [] {
      assert current[0] in current && forall w | w in current[1..] :: w in current;
      match Best(WindowScores(previous, current[0]), used)
      case Some(i) =>
        assert previous[i] in previous;
        MatchedHandlesAgree(previous[i], current[0]);
        StabilizedIsSound(naming, previous[i], current[0]);
        StabilizedWindowsAreSound(naming, previous, current[1..], used + {i});
        SoundLikeCons(naming, StabilizedWindow(previous[i], current[0]),
                      StabilizedWindows(previous, current[1..], used + {i}), current);
      case None =>
        StabilizedWindowsAreSound(naming, previous, current[1..], used);
        SoundLikeCons(naming, current[0], StabilizedWindows(previous, current[1..], used), current);
    }
  }

  // -------------------------------------------------------------- refreshes

  /** What a desktop may answer: sound captures, each window under the handle asked for. */
  ghost predicate SoundDesktop(naming: Naming, desktop: Desktop) {
    && (desktop.captureAll.Ok? ==> SoundInventory(naming, desktop.captureAll.value))
    && forall hwnd, source :: SoundAnswer(naming, desktop.captureWindow(hwnd, source), hwnd)
  }

  ghost predicate SoundAnswer(naming: Naming, answer: Result<Option<WindowState>, string>, hwnd: nat) {
    answer.Ok? && answer.value.Some? ==>
      SoundWindow(naming, answer.value.value) && HasHandle(answer.value.value, hwnd)
  }

  lemma RequestKeepsSound(naming: Naming, desktop: Desktop, windows: seq<WindowState>,
                          request: RefreshRequest)
    requires SoundDesktop(naming, desktop) && SoundInventory(naming, windows)
    ensures SoundInventory(naming, ApplyRequest(desktop, windows, request))
  {
    match request.scope
    case WholeDesktop =>
      if desktop.captureAll.Ok? {
        StabilizedWindowsAreSound(naming, windows, desktop.captureAll.value, {});
      }
    case SingleWindow(hwnd) =>
      var answer := desktop.captureWindow(hwnd, request.source);
      assert SoundAnswer(naming, answer, hwnd);
      if answer.Ok? { TakeKeepsSound(naming, windows, hwnd, answer.value); }
  }

  lemma TakeKeepsSound(naming: Naming, windows: seq<WindowState>, hwnd: nat, captured: Option<WindowState>)
    requires SoundInventory(naming, windows)
    requires captured.Some? ==> SoundWindow(naming, captured.value) && HasHandle(captured.value, hwnd)
    ensures SoundInventory(naming, TakeCapture(windows, hwnd, captured))
  {
    if captured.Some? {
      Coalescing.PutCaptureEffect(windows, hwnd, captured.value);
      var held := WindowWithHandle(windows, hwnd);
      if held.Some? {
        Coalescing.LookupByHandle(windows, hwnd);
        StabilizedIsSound(naming, held.value, captured.value);
      }
    } else {
      Coalescing.DropHandleEffect(windows, hwnd);
    }
  }

  lemma {:induction false} RequestsKeepSound(naming: Naming, desktops: seq<Desktop>,
                                             windows: seq<WindowState>, requests: seq<RefreshRequest>)
    requires |desktops| == |requests| && forall d | d in desktops :: SoundDesktop(naming, d)
    requires SoundInventory(naming, windows)
    ensures SoundInventory(naming, ApplyRequests(desktops, windows, requests))
    decreases requests
  {
    if requests != [] {
      assert desktops[0] in desktops && forall d | d in desktops[1..] :: d in desktops;
      RequestKeepsSound(naming, desktops[0], windows, requests[0]);
      RequestsKeepSound(naming, desktops[1..], ApplyRequest(desktops[0], windows, requests[0]), requests[1..]);
    }
  }

  // ------------------------------------------------------------- publishing

  /** Projecting drops a window or annotates its tree. */
  ghost predicate AnnotatesOnly(project: Projection) {
    forall w | project(w).Some? ::
      project(w).value.windowId == w.windowId && SameButProperties(project(w).value.root, w.root)
  }

  lemma AnnotatedIsSound(naming: Naming, project: Projection, window: WindowState)
    requires AnnotatesOnly(project) && project(window).Some? && SoundWindow(naming, window)
    ensures SoundWindow(naming, project(window).value)
    ensures project(window).value.root.nativeWindowHandle == window.root.nativeWindowHandle
  {
    var after := project(window).value;
    var fingerprint :| TaggedBy(naming, window, fingerprint);
    SameButPropertiesParts(after.root, window.root);
    AnnotatingKeepsParents(after.root, window.root, None);
    forall id | InForest(after.root.children, id) ensures InnerId(naming, id) {
      var i :| 0 <= i < |after.root.children| && Contains(after.root.children[i], id);
      AnnotatingKeepsIds(after.root.children[i], window.root.children[i], id);
      assert InForest(window.root.children, id);
    }
    assert TaggedBy(naming, after, fingerprint);
    AnnotatingKeepsLocators(after.root, window.root);
    SameLocatorsStayLocated(naming, after, window);
  }

  lemma {:induction false} ProjectedFrom(project: Projection, windows: seq<WindowState>, w: WindowState) returns (i: nat)
    requires w in ProjectWindows(project, windows)
    ensures i < |windows| && project(windows[i]) == Some(w)
  {
    if project(windows[0]) == Some(w) {
      i := 0;
    } else {
      i := ProjectedFrom(project, windows[1..], w);
      i := i + 1;
    }
  }

  lemma PrependDistinct(first: WindowState, rest: seq<WindowState>)
    requires DistinctHandles(rest) && first.root.nativeWindowHandle.Some?
    requires forall j | 0 <= j < |rest| :: rest[j].root.nativeWindowHandle != first.root.nativeWindowHandle
    ensures DistinctHandles([first] + rest)
  {
  }

  lemma {:induction false} ProjectedHandlesAreDistinct(project: Projection, windows: seq<WindowState>)
    requires AnnotatesOnly(project) && DistinctHandles(windows)
    ensures DistinctHandles(ProjectWindows(project, windows))
  {
    if windows != [] {
      var rest := ProjectWindows(project, windows[1..]);
      ProjectedHandlesAreDistinct(project, windows[1..]);
      if project(windows[0]).Some? {
        var first := project(windows[0]).value;
        SameButPropertiesParts(first.root, windows[0].root);
        forall j | 0 <= j < |rest| ensures rest[j].root.nativeWindowHandle != first.root.nativeWindowHandle {
          var k := ProjectedFrom(project, windows[1..], rest[j]);
          SameButPropertiesParts(rest[j].root, windows[k + 1].root);
        }
        PrependDistinct(first, rest);
      }
    }
  }

  lemma ProjectedIsSound(naming: Naming, project: Projection, windows: seq<WindowState>)
    requires AnnotatesOnly(project) && SoundInventory(naming, windows)
    ensures SoundInventory(naming, ProjectWindows(project, windows))
  {
    ProjectedHandlesAreDistinct(project, windows);
    forall w | w in ProjectWindows(project, windows) ensures SoundWindow(naming, w) {
      var i := ProjectedFrom(project, windows, w);
      AnnotatedIsSound(naming, project, windows[i]);
    }
  }

  /** Different handles, different fingerprints, different ids. */
  lemma SoundIdsAreUnique(naming: Naming, windows: seq<WindowState>)
    requires Collisionless(naming) && SoundInventory(naming, windows)
    ensures StoreLaws.UniqueWindowIds(windows)
  {
    forall i, j | 0 <= i < j < |windows| ensures windows[i].windowId != windows[j].windowId {
      assert windows[i] in windows && windows[j] in windows;
      var a :| TaggedBy(naming, windows[i], a);
      var b :| TaggedBy(naming, windows[j], b);
      var hash := naming.hash;
      assert ("wnd-" + hash(a))[4..] == hash(a) && ("wnd-" + hash(b))[4..] == hash(b);
    }
  }

  /** What is published of a sound inventory. */
  lemma PublishedIsSound(naming: Naming, project: Projection, inventory: seq<WindowState>)
    requires Collisionless(naming) && AnnotatesOnly(project) && SoundInventory(naming, inventory)
    ensures Sorting.Sorted(StoreLaws.WindowBefore, PublishedWindows(project, inventory))
    ensures forall w | w in PublishedWindows(project, inventory) :: SoundWindow(naming, w)
  {
    var projected := ProjectWindows(project, inventory);
    ProjectedIsSound(naming, project, inventory);
    SoundIdsAreUnique(naming, projected);
    StoreLaws.SortIsStrict(projected);
    forall w | w in StateStore.SortWindows(projected) ensures w in projected {
      Sorting.SortMembers(StateStore.WindowAtMost, projected, w);
    }
  }

  /** Any two published snapshots of sound inventories can be diffed. */
  lemma SoundInventoriesAreDiffable(naming: Naming, project: Projection, previous: seq<WindowState>,
                                    next: seq<WindowState>)
    requires Collisionless(naming) && AnnotatesOnly(project)
    requires SoundInventory(naming, previous) && SoundInventory(naming, next)
    ensures RoundTrip.Diffable(PublishedWindows(project, previous), PublishedWindows(project, next))
  {
    PublishedIsSound(naming, project, previous);
    PublishedIsSound(naming, project, next);
    var p, n := PublishedWindows(project, previous), PublishedWindows(project, next);
    forall w | w in p || w in n ensures Named(naming, w) && WellParented(w.root, None) {
      var fingerprint :| TaggedBy(naming, w, fingerprint);
    }
    NamedDesktopsAreDiffable(naming, p, n);
  }

  // ------------------------------------------------------------------ whole runs

  ghost predicate SoundTicks(naming: Naming, ticks: seq<Tick>) {
    forall t | t in ticks :: t.Valid() && forall d | d in t.desktops :: SoundDesktop(naming, d)
  }

  /** The snapshot is what the inventory publishes. */
  ghost predicate Published(project: Projection, observed: Observed) {
    observed.snapshot.windows == PublishedWindows(project, observed.inventory)
  }

  /**
   On captured desktops every run can be diffed throughout: refreshes, whole or by window,
   relabelled and annotated, never repeat a window id nor share a root id, and the inventory
   stays sound.
   */
  lemma {:induction false} SoundRunsAreDiffable(naming: Naming, project: Projection, observed: Observed, ticks: seq<Tick>)
    requires Collisionless(naming) && AnnotatesOnly(project) && SoundTicks(naming, ticks)
    requires SoundInventory(naming, observed.inventory) && Published(project, observed)
    ensures DiffableRun(project, observed, ticks)
    ensures SoundInventory(naming, ObserverRun(project, observed, ticks).inventory)
    ensures Published(project, ObserverRun(project, observed, ticks))
    decreases ticks
  {
    if ticks != [] {
      var tick := ticks[0];
      var next := Observe(project, observed, tick).0;
      assert tick in ticks && forall t | t in ticks[1..] :: t in ticks;
      RequestsKeepSound(naming, tick.desktops, observed.inventory, tick.requests);
      SoundInventoriesAreDiffable(naming, project, observed.inventory, next.inventory);
      RoundTrip.DiffEmptyIffEqual(observed.snapshot.windows, PublishedWindows(project, next.inventory));
      SoundRunsAreDiffable(naming, project, next, ticks[1..]);
    }
  }

  /** What is left to ask of a well-formed run is that focus moves can be restored. */
  lemma SoundRunsAreWellFormed(naming: Naming, project: Projection, observed: Observed, ticks: seq<Tick>)
    requires Collisionless(naming) && AnnotatesOnly(project) && SoundTicks(naming, ticks)
    requires SoundInventory(naming, observed.inventory) && Published(project, observed)
    ensures WellFormedRun(project, observed, ticks) <==> FocusClearRun(project, observed, ticks)
  {
    SoundRunsAreDiffable(naming, project, observed, ticks);
  }

  /**
   From the opening of a session on captured desktops, over every run of refresh batches, the
   session is level with the observer, without a resync, and shows the projection of the
   current inventory: apart from focus whatever happens, and exactly while every focus move
   can be restored.
   */
  lemma CapturedSessionFollows(naming: Naming, project: Projection, captured: seq<WindowState>, now: int, ticks: seq<Tick>)
    requires Collisionless(naming) && AnnotatesOnly(project) && SoundTicks(naming, ticks)
    requires SoundInventory(naming, captured) && |ticks| < MAX_REVISION
    ensures var start := OpenedAt(project, captured, now);
      var after := ObserverRun(project, start, ticks);
      var session := StoreRun(project, start, StateStore.ReplaceSnapshot(start.snapshot), ticks);
      && session.snapshot.Some?
      && FocusBlind.SameUpToFocus(session.snapshot.value.windows, PublishedWindows(project, after.inventory))
      && (FocusClearRun(project, start, ticks) ==>
            session.snapshot.value.windows == PublishedWindows(project, after.inventory))
      && session.rev == after.snapshot.rev
      && session.resync.None?
  {
    var start := OpenedAt(project, captured, now);
    SoundRunsAreDiffable(naming, project, start, ticks);
    IncrementalUpToFocus(project, start, StateStore.ReplaceSnapshot(start.snapshot), ticks);
    if FocusClearRun(project, start, ticks) { OpenedSessionFollows(project, captured, now, ticks); }
  }

  // -------------------------------------------------- locators of published nodes

  /** Different handles, different fingerprints. */
  lemma PublishedFingerprintsAreDistinct(naming: Naming, project: Projection, inventory: seq<WindowState>)
    requires Collisionless(naming) && AnnotatesOnly(project) && SoundInventory(naming, inventory)
    ensures DistinctFingerprints(PublishedWindows(project, inventory))
  {
    var projected, published := ProjectWindows(project, inventory), PublishedWindows(project, inventory);
    PublishedIsSound(naming, project, inventory);
    RoundTrip.SortedIdsAreUnique(published);
    ProjectedIsSound(naming, project, inventory);
    forall i, j | 0 <= i < j < |published|
      ensures published[i].root.locator.windowFingerprint != published[j].root.locator.windowFingerprint
    {
      Sorting.SortMembers(StateStore.WindowAtMost, projected, published[i]);
      Sorting.SortMembers(StateStore.WindowAtMost, projected, published[j]);
      var k :| 0 <= k < |projected| && projected[k] == published[i];
      var l :| 0 <= l < |projected| && projected[l] == published[j];
    }
  }

  /** The node's locator leads to it, on its own or as the fallback for an id that went stale. */
  ghost predicate Resolvable(windows: seq<WindowState>, k: nat, position: seq<nat>)
    requires k < |windows| && NodeAt(windows[k].root, position).Some?
  {
    var node := NodeAt(windows[k].root, position).value;
    && ResolveElement(windows, None, Some(node.locator)) == Some((windows[k], node))
    && forall id | forall w | w in windows :: !Contains(w.root, id) ::
      ResolveElement(windows, Some(id), Some(node.locator)) == Some((windows[k], node))
  }

  lemma InventoryLocatorsResolve(naming: Naming, project: Projection, inventory: seq<WindowState>, k: nat,
                                 position: seq<nat>)
    requires Collisionless(naming) && AnnotatesOnly(project) && SoundInventory(naming, inventory)
    requires k < |PublishedWindows(project, inventory)|
    requires NodeAt(PublishedWindows(project, inventory)[k].root, position).Some?
    ensures Resolvable(PublishedWindows(project, inventory), k, position)
  {
    var windows := PublishedWindows(project, inventory);
    PublishedIsSound(naming, project, inventory);
    PublishedFingerprintsAreDistinct(naming, project, inventory);
    LocatorSignatureReadsSemantics(naming.normalize);
    assert SoundWindow(naming, windows[k]);
    LocatorsIdentifyNodes(LocatorSignature(naming.normalize), ElementIdFrom(naming.normalize, naming.hash), windows, k,
                          position);
  }

  /** After every run on captured desktops, each published node is found again by its locator. */
  lemma PublishedLocatorsResolve(naming: Naming, project: Projection, captured: seq<WindowState>, now: int,
                                 ticks: seq<Tick>, k: nat, position: seq<nat>)
    requires Collisionless(naming) && AnnotatesOnly(project) && SoundTicks(naming, ticks) && SoundInventory(naming, captured)
    requires var windows := ObserverRun(project, OpenedAt(project, captured, now), ticks).snapshot.windows;
      k < |windows| && NodeAt(windows[k].root, position).Some?
    ensures Resolvable(ObserverRun(project, OpenedAt(project, captured, now), ticks).snapshot.windows, k, position)
  {
    SoundRunsAreDiffable(naming, project, OpenedAt(project, captured, now), ticks);
    InventoryLocatorsResolve(naming, project, ObserverRun(project, OpenedAt(project, captured, now), ticks).inventory, k,
                             position);
  }
}
