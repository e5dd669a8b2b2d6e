/**
 The observer: it folds refresh requests into an inventory of captured windows, projects
 the inventory for the session and emits the diff to the last published snapshot. What the
 desktop shows at each request is a parameter.
 */
module Observer {
  import opened Wrappers
  import opened Domain
  import opened StateStore
  import opened RoundTrip
  import opened Stabilization
  import FocusBlind
  import SnapshotDiff

  datatype HintSource = UiaHint | WinEventHint | MsaaHint

  datatype RefreshScope = WholeDesktop | SingleWindow(hwnd: nat)

  datatype RefreshRequest = RefreshRequest(scope: RefreshScope, source: HintSource, reason: string)

  /** What the platform answers to the captures made for one request. */
  datatype Desktop = Desktop(
    captureAll: Result<seq<WindowState>, string>,
    captureWindow: (nat, HintSource) -> Result<Option<WindowState>, string>)

  /** The session's view of one window: dropped, or kept and annotated. */
  type Projection = WindowState -> Option<WindowState>

  // ------------------------------------------------------------------ refreshes

  predicate HasHandle(window: WindowState, hwnd: nat) {
    window.root.nativeWindowHandle == Some(hwnd)
  }

  function WindowWithHandle(windows: seq<WindowState>, hwnd: nat): Option<WindowState> {
    if windows == [] then None
    else if HasHandle(windows[0], hwnd) then Some(windows[0])
    else WindowWithHandle(windows[1..], hwnd)
  }

  /** Replaces the first window with the handle by the capture stabilized against it, or appends. */
  function PutCapture(windows: seq<WindowState>, hwnd: nat, capture: WindowState): seq<WindowState> {
    if windows == [] then [capture]
    else if HasHandle(windows[0], hwnd) then [StabilizedWindow(windows[0], capture)] + windows[1..]
    else [windows[0]] + PutCapture(windows[1..], hwnd, capture)
  }

  function DropHandle(windows: seq<WindowState>, hwnd: nat): seq<WindowState> {
    if windows == [] then []
    else if HasHandle(windows[0], hwnd) then DropHandle(windows[1..], hwnd)
    else [windows[0]] + DropHandle(windows[1..], hwnd)
  }

  function TakeCapture(windows: seq<WindowState>, hwnd: nat, captured: Option<WindowState>): seq<WindowState> {
    match captured
    case Some(window) => PutCapture(windows, hwnd, window)
    case None => DropHandle(windows, hwnd)
  }

  /** A failed capture leaves the inventory as it was. */
  function ApplyRequest(desktop: Desktop, windows: seq<WindowState>, request: RefreshRequest): seq<WindowState> {
    match request.scope
    case WholeDesktop =>
      (match desktop.captureAll
       case Ok(captured) => StabilizedWindows(windows, captured, {})
       case Err(_) => windows)
    case SingleWindow(hwnd) =>
      (match desktop.captureWindow(hwnd, request.source)
       case Ok(captured) => TakeCapture(windows, hwnd, captured)
       case Err(_) => windows)
  }

  function ApplyRequests(desktops: seq<Desktop>, windows: seq<WindowState>, requests: seq<RefreshRequest>): seq<WindowState>
    requires |desktops| == |requests|
  {
    if requests == [] then windows
    else ApplyRequests(desktops[1..], ApplyRequest(desktops[0], windows, requests[0]), requests[1..])
  }

  // ----------------------------------------------------------------- projection

  function ProjectWindows(project: Projection, inventory: seq<WindowState>): seq<WindowState> {
    if inventory == [] then []
    else
      (match project(inventory[0]) case Some(window) => [window] case None => [])
      + ProjectWindows(project, inventory[1..])
  }

  /** The windows a snapshot of the inventory holds. */
  function PublishedWindows(project: Projection, inventory: seq<WindowState>): seq<WindowState> {
    SortWindows(ProjectWindows(project, inventory))
  }

  // ----------------------------------------------------------------- the observer

  /** One batch of requests with the desktop each of them meets. */
  datatype Tick = Tick(requests: seq<RefreshRequest>, desktops: seq<Desktop>, now: int) {
    predicate Valid() { |requests| == |desktops| }
  }

  datatype Observed = Observed(inventory: seq<WindowState>, snapshot: Snapshot)

  ghost function Observe(project: Projection, observed: Observed, tick: Tick): (Observed, Option<DiffBatch>)
    requires tick.Valid()
  {
    var inventory := ApplyRequests(tick.desktops, observed.inventory, tick.requests);
    var windows := PublishedWindows(project, inventory);
    var ops := SnapshotDiff.DiffOps(observed.snapshot.windows, windows);
    if ops == [] then (Observed(inventory, observed.snapshot), None)
    else
      var next := Snapshot(NextRevision(observed.snapshot.rev), tick.now, windows);
      (Observed(inventory, next), Some(DiffBatch(observed.snapshot.rev, next.rev, tick.now, ops)))
  }

  /** What opening a session starts from. */
  function OpenedAt(project: Projection, captured: seq<WindowState>, now: int): Observed {
    Observed(captured, Snapshot(1, now, PublishedWindows(project, captured)))
  }

  class RefreshObserver {
    const project: Projection
    var inventory: seq<WindowState>
    var snapshot: Snapshot

    ghost function View(): Observed
      reads this
    {
      Observed(inventory, snapshot)
    }

    constructor (project: Projection, captured: seq<WindowState>, now: int)
      ensures View() == OpenedAt(project, captured, now)
      ensures this.project == project
    {
      this.project := project;
      inventory := captured;
      snapshot := Snapshot(1, now, PublishedWindows(project, captured));
    }

    /** Applies the requests one after the other; an empty diff publishes nothing. */
    method HandleBatch(tick: Tick) returns (diff: Option<DiffBatch>)
      requires tick.Valid()
      modifies this
      ensures (View(), diff) == Observe(project, old(View()), tick)
    {
      var nextInventory := ApplyAll(tick.desktops, inventory, tick.requests);
      var next := Snapshot(NextRevision(snapshot.rev), tick.now, PublishedWindows(project, nextInventory));
      var ops := SnapshotDiff.DiffSnapshots(snapshot.windows, next.windows);
      if ops == [] {
        inventory := nextInventory;
        return None;
      }
      diff := Some(DiffBatch(snapshot.rev, next.rev, tick.now, ops));
      inventory := nextInventory;
      snapshot := next;
    }
  }

  /** The requests of a batch, in order, against a working copy of the inventory. */
  method ApplyAll(desktops: seq<Desktop>, inventory: seq<WindowState>, requests: seq<RefreshRequest>)
    returns (windows: seq<WindowState>)
    requires |desktops| == |requests|
    ensures windows == ApplyRequests(desktops, inventory, requests)
  {
    windows := inventory;
    var i := 0;
    while i < |requests|
      invariant 0 <= i <= |requests|
      invariant ApplyRequests(desktops[i..], windows, requests[i..]) == ApplyRequests(desktops, inventory, requests)
    {
      windows := ApplyTo(desktops[i], windows, requests[i]);
      assert requests[i..][1..] == requests[i + 1..] && desktops[i..][1..] == desktops[i + 1..];
      i := i + 1;
    }
  }

  /** One refresh request against the inventory. */
  method ApplyTo(desktop: Desktop, windows: seq<WindowState>, request: RefreshRequest) returns (r: seq<WindowState>)
    ensures r == ApplyRequest(desktop, windows, request)
  {
    match request.scope {
      case WholeDesktop =>
        match desktop.captureAll {
          case Ok(captured) => r := StabilizeWindows(windows, captured);
          case Err(_) => r := windows;
        }
      case SingleWindow(hwnd) =>
        match desktop.captureWindow(hwnd, request.source) {
          case Ok(captured) => r := TakeCapture(windows, hwnd, captured);
          case Err(_) => r := windows;
        }
    }
  }

  // -------------------------------------------- incremental equals recomputed

  /** The state of the observer and of the session store after a run of batches. */
  ghost function ObserverRun(project: Projection, observed: Observed, ticks: seq<Tick>): Observed
    requires forall t | t in ticks :: t.Valid()
    decreases ticks
  {
    if ticks == [] then observed else ObserverRun(project, Observe(project, observed, ticks[0]).0, ticks[1..])
  }

  ghost function StoreRun(project: Projection, observed: Observed, store: Store, ticks: seq<Tick>): Store
    requires forall t | t in ticks :: t.Valid()
    decreases ticks
  {
    if ticks == [] then store
    else
      var (next, diff) := Observe(project, observed, ticks[0]);
      var consumed := if diff.Some? then ApplyDiff(store, diff.value).0 else store;
      StoreRun(project, next, consumed, ticks[1..])
  }

  /** What a tick would publish. */
  ghost function NextWindows(project: Projection, observed: Observed, tick: Tick): seq<WindowState>
    requires tick.Valid()
  {
    PublishedWindows(project, Observe(project, observed, tick).0.inventory)
  }

  /** Every snapshot of the run can be diffed against the one before. */
  ghost predicate DiffableRun(project: Projection, observed: Observed, ticks: seq<Tick>)
    requires forall t | t in ticks :: t.Valid()
    decreases ticks
  {
    ticks != [] ==>
      && Diffable(observed.snapshot.windows, NextWindows(project, observed, ticks[0]))
      && DiffableRun(project, Observe(project, observed, ticks[0]).0, ticks[1..])
  }

  /** Every focus move of the run can be restored. */
  ghost predicate FocusClearRun(project: Projection, observed: Observed, ticks: seq<Tick>)
    requires forall t | t in ticks :: t.Valid()
    decreases ticks
  {
    ticks != [] ==>
      && !FocusIsAmbiguous(observed.snapshot.windows, NextWindows(project, observed, ticks[0]))
      && FocusClearRun(project, Observe(project, observed, ticks[0]).0, ticks[1..])
  }

  ghost predicate WellFormedRun(project: Projection, observed: Observed, ticks: seq<Tick>)
    requires forall t | t in ticks :: t.Valid()
  {
    DiffableRun(project, observed, ticks) && FocusClearRun(project, observed, ticks)
  }

  /** What is held is what is published: exactly, or apart from which elements are focused. */
  predicate Follows(exact: bool, held: seq<WindowState>, published: seq<WindowState>) {
    FocusBlind.SameUpToFocus(held, published) && (exact ==> held == published)
  }

  /** Store and observer agree, and both show the projection of the current inventory. */
  ghost predicate InStep(exact: bool, project: Projection, observed: Observed, store: Store) {
    && store.snapshot.Some?
    && observed.snapshot.windows == PublishedWindows(project, observed.inventory)
    && Follows(exact, store.snapshot.value.windows, observed.snapshot.windows)
    && store.rev == observed.snapshot.rev
  }

  /** A store that follows the last snapshot accepts the diff to the next and follows that. */
  lemma DiffKeepsFollowing(exact: bool, previous: Snapshot, next: Snapshot, store: Store, now: int)
    requires Diffable(previous.windows, next.windows)
    requires exact ==> !FocusIsAmbiguous(previous.windows, next.windows)
    requires store.snapshot.Some? && Follows(exact, store.snapshot.value.windows, previous.windows)
    requires store.rev == previous.rev < MAX_REVISION && next.rev == NextRevision(previous.rev)
    ensures var (after, error) := ApplyDiff(store, BatchFor(previous, next, now));
      && error.None? && after.rev == next.rev && after.resync == store.resync
      && after.snapshot.Some? && Follows(exact, after.snapshot.value.windows, next.windows)
  {
    var level := store.(snapshot := Some(store.snapshot.value.(windows := previous.windows)));
    BatchReachesNext(previous, next, level, now);
    FocusBlind.DiffIsFocusBlind(store, level, BatchFor(previous, next, now));
    FocusBlind.SettledUpToFocus(previous.windows, next.windows);
    if exact {
      assert level == store;
      SortedIdsAreUnique(previous.windows);
      DiffOpsReachNext(previous.windows, previous.windows, next.windows);
      RoundTripExactIff(previous.windows, next.windows);
    }
  }

  lemma ObserveKeepsStep(exact: bool, project: Projection, observed: Observed, store: Store, tick: Tick)
    requires tick.Valid() && InStep(exact, project, observed, store) && observed.snapshot.rev < MAX_REVISION
    requires Diffable(observed.snapshot.windows, NextWindows(project, observed, tick))
    requires exact ==> !FocusIsAmbiguous(observed.snapshot.windows, NextWindows(project, observed, tick))
    ensures var (next, diff) := Observe(project, observed, tick);
      var consumed := if diff.Some? then ApplyDiff(store, diff.value).0 else store;
      && InStep(exact, project, next, consumed)
      && (diff.Some? ==> ApplyDiff(store, diff.value).1.None?)
      && consumed.resync == store.resync
      && next.snapshot.rev <= observed.snapshot.rev + 1
  {
    var (next, diff) := Observe(project, observed, tick);
    if diff.Some? {
      DiffKeepsFollowing(exact, observed.snapshot, next.snapshot, store, tick.now);
      assert diff.value == BatchFor(observed.snapshot, next.snapshot, tick.now);
    } else {
      DiffEmptyIffEqual(observed.snapshot.windows, NextWindows(project, observed, tick));
    }
  }

  lemma {:induction false} RunKeepsStep(exact: bool, project: Projection, observed: Observed, store: Store, ticks: seq<Tick>)
    requires forall t | t in ticks :: t.Valid()
    requires InStep(exact, project, observed, store) && observed.snapshot.rev + |ticks| <= MAX_REVISION
    requires DiffableRun(project, observed, ticks) && (exact ==> FocusClearRun(project, observed, ticks))
    ensures InStep(exact, project, ObserverRun(project, observed, ticks), StoreRun(project, observed, store, ticks))
    ensures StoreRun(project, observed, store, ticks).resync == store.resync
    decreases ticks
  {
    if ticks != [] {
      var tick := ticks[0];
      ObserveKeepsStep(exact, project, observed, store, tick);
      var (next, diff) := Observe(project, observed, tick);
      var consumed := if diff.Some? then ApplyDiff(store, diff.value).0 else store;
      RunKeepsStep(exact, project, next, consumed, ticks[1..]);
    }
  }

  /**
   For every run of refresh batches, after consuming the emitted diffs the session's windows
   are the sorted projection of the observer's current inventory, as if recomputed from
   scratch; revisions agree and no resync is recorded, batches without a diff included.
   */
  lemma IncrementalEqualsRecomputed(project: Projection, observed: Observed, store: Store, ticks: seq<Tick>)
    requires forall t | t in ticks :: t.Valid()
    requires InStep(true, project, observed, store) && observed.snapshot.rev + |ticks| <= MAX_REVISION
    requires WellFormedRun(project, observed, ticks)
    ensures var after := ObserverRun(project, observed, ticks);
      var consumed := StoreRun(project, observed, store, ticks);
      && consumed.snapshot.Some?
      && consumed.snapshot.value.windows == PublishedWindows(project, after.inventory)
      && consumed.rev == after.snapshot.rev
      && consumed.resync == store.resync
  {
    RunKeepsStep(true, project, observed, store, ticks);
  }

  /**
   Ambiguous focus moves cost no more than focus: over every run whose snapshots can be diffed,
   every diff is accepted, which is what level revisions mean, and windows, trees and fields
   are those of the projection, apart from which elements are focused.
   */
  lemma IncrementalUpToFocus(project: Projection, observed: Observed, store: Store, ticks: seq<Tick>)
    requires forall t | t in ticks :: t.Valid()
    requires InStep(false, project, observed, store) && observed.snapshot.rev + |ticks| <= MAX_REVISION
    requires DiffableRun(project, observed, ticks)
    ensures var after := ObserverRun(project, observed, ticks);
      var consumed := StoreRun(project, observed, store, ticks);
      && consumed.snapshot.Some?
      && FocusBlind.SameUpToFocus(consumed.snapshot.value.windows, PublishedWindows(project, after.inventory))
      && consumed.rev == after.snapshot.rev
      && consumed.resync == store.resync
  {
    RunKeepsStep(false, project, observed, store, ticks);
  }

  /** From the opening of a session on: the first snapshot is the projection of the first capture. */
  lemma OpenedSessionFollows(project: Projection, captured: seq<WindowState>, now: int, ticks: seq<Tick>)
    requires forall t | t in ticks :: t.Valid()
    requires |ticks| < MAX_REVISION
    requires WellFormedRun(project, OpenedAt(project, captured, now), ticks)
    ensures var start := OpenedAt(project, captured, now);
      var after := ObserverRun(project, start, ticks);
      var session := StoreRun(project, start, ReplaceSnapshot(start.snapshot), ticks);
      && session.snapshot.Some?
      && session.snapshot.value.windows == PublishedWindows(project, after.inventory)
      && session.rev == after.snapshot.rev
      && session.resync.None?
  {
    var start := OpenedAt(project, captured, now);
    IncrementalEqualsRecomputed(project, start, ReplaceSnapshot(start.snapshot), ticks);
  }

  // ------------------------------------------------------- unchanged desktops

  /** The desktop answers every capture with the same windows. */
  ghost predicate Shows(desktop: Desktop, capture: seq<WindowState>) {
    && desktop.captureAll == Ok(capture)
    && forall hwnd, source :: desktop.captureWindow(hwnd, source) == Ok(WindowWithHandle(capture, hwnd))
  }

  /** The inventory is the capture, relabelled. */
  ghost predicate Labels(windows: seq<WindowState>, capture: seq<WindowState>) {
    |windows| == |capture| && forall i | 0 <= i < |capture| :: LabelledWindow(windows[i], capture[i])
  }

  /** Putting a captured window over its own label changes nothing. */
  lemma {:induction false} PutOwnCapture(windows: seq<WindowState>, capture: seq<WindowState>, hwnd: nat)
    requires Labels(windows, capture)
    ensures TakeCapture(windows, hwnd, WindowWithHandle(capture, hwnd)) == windows
  {
    if windows != [] {
      assert LabelledWindow(windows[0], capture[0]);
      assert HasHandle(windows[0], hwnd) <==> HasHandle(capture[0], hwnd);
      PutOwnCapture(windows[1..], capture[1..], hwnd);
      assert windows == [windows[0]] + windows[1..];
      if HasHandle(capture[0], hwnd) {
        assert StabilizedWindow(windows[0], capture[0]) == windows[0];
      }
    }
  }

  lemma {:induction false} RepeatedRequestsAreFixed(desktops: seq<Desktop>, windows: seq<WindowState>,
                                                     requests: seq<RefreshRequest>, capture: seq<WindowState>)
    requires |desktops| == |requests| && forall d | d in desktops :: Shows(d, capture)
    requires Labels(windows, capture) && DistinctHandles(capture)
    ensures ApplyRequests(desktops, windows, requests) == windows
    decreases requests
  {
    if requests != [] {
      LabelledWindowsAreFixed(windows, capture, 0, {});
      assert capture[0..] == capture && windows[0..] == windows;
      if requests[0].scope.SingleWindow? { PutOwnCapture(windows, capture, requests[0].scope.hwnd); }
      assert Shows(desktops[0], capture);
      assert ApplyRequest(desktops[0], windows, requests[0]) == windows;
      RepeatedRequestsAreFixed(desktops[1..], windows, requests[1..], capture);
    }
  }

  /**
   Once a desktop has been captured, stabilized against anything or nothing, refreshing it
   unchanged, whole or window by window and however often, leaves inventory and snapshot
   alone and emits no diff.
   */
  lemma UnchangedDesktopEmitsNothing(project: Projection, observed: Observed, earlier: seq<WindowState>,
                                     capture: seq<WindowState>, tick: Tick)
    requires Capture(capture) && tick.Valid() && forall d | d in tick.desktops :: Shows(d, capture)
    requires observed.inventory == StabilizedWindows(earlier, capture, {})
    requires observed.snapshot.windows == PublishedWindows(project, observed.inventory)
    ensures Observe(project, observed, tick) == (observed, None)
  {
    StabilizedWindowsAreLabelled(earlier, capture, {});
    RepeatedRequestsAreFixed(tick.desktops, observed.inventory, tick.requests, capture);
    NoDiffToItself(observed.snapshot.windows);
  }

  /** A first capture is unlabelled: stabilizing it against no windows leaves it as it is. */
  lemma {:induction false} FirstCaptureIsUnlabelled(capture: seq<WindowState>)
    ensures StabilizedWindows([], capture, {}) == capture
  {
    if capture != [] { FirstCaptureIsUnlabelled(capture[1..]); }
  }

  /** So a session just opened on a desktop that then stands still gets no diff. */
  lemma OpenedOnStillDesktopEmitsNothing(project: Projection, capture: seq<WindowState>, now: int, tick: Tick)
    requires Capture(capture) && tick.Valid() && forall d | d in tick.desktops :: Shows(d, capture)
    ensures Observe(project, OpenedAt(project, capture, now), tick) == (OpenedAt(project, capture, now), None)
  {
    FirstCaptureIsUnlabelled(capture);
    UnchangedDesktopEmitsNothing(project, OpenedAt(project, capture, now), [], capture, tick);
  }
}
