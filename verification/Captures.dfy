/**
 What the observer's inventory and snapshots show: the windows just captured, and of the
 inventory every window that the projection keeps.
 */
module Captures {
  import opened Wrappers
  import opened Domain
  import opened Observer
  import RoundTrip
  import Sorting
  import Stabilization
  import StateStore
  import StoreLaws

  /** Window by window the inventory is the capture, apart from ids. */
  ghost predicate ShowsCapture(inventory: seq<WindowState>, captured: seq<WindowState>) {
    && |inventory| == |captured|
    && forall i | 0 <= i < |captured| :: Stabilization.LabelledWindow(inventory[i], captured[i])
  }

  ghost predicate WellCaptured(captured: seq<WindowState>) {
    forall i | 0 <= i < |captured| :: Stabilization.CapturedWindow(captured[i])
  }

  /** Refreshing the desktop puts the capture in place of the inventory; a failed capture changes nothing. */
  lemma DesktopRequestShowsCapture(desktop: Desktop, windows: seq<WindowState>, request: RefreshRequest)
    requires request.scope.WholeDesktop?
    requires desktop.captureAll.Ok? ==> WellCaptured(desktop.captureAll.value)
    ensures var after := ApplyRequest(desktop, windows, request);
      && (desktop.captureAll.Ok? ==> ShowsCapture(after, desktop.captureAll.value))
      && (desktop.captureAll.Err? ==> after == windows)
  {
    if desktop.captureAll.Ok? { Stabilization.StabilizedWindowsAreLabelled(windows, desktop.captureAll.value, {}); }
  }

  /** So does a failed capture of one window. */
  lemma FailedCaptureChangesNothing(desktop: Desktop, windows: seq<WindowState>, request: RefreshRequest)
    requires request.scope.SingleWindow? && desktop.captureWindow(request.scope.hwnd, request.source).Err?
    ensures ApplyRequest(desktop, windows, request) == windows
  {
  }

  lemma {:induction false} LastRequest(desktops: seq<Desktop>, windows: seq<WindowState>, requests: seq<RefreshRequest>)
    requires |desktops| == |requests| > 0
    ensures var n := |requests| - 1;
      ApplyRequests(desktops, windows, requests)
        == ApplyRequest(desktops[n], ApplyRequests(desktops[..n], windows, requests[..n]), requests[n])
    decreases requests
  {
    if |requests| > 1 {
      var n := |requests| - 1;
      LastRequest(desktops[1..], ApplyRequest(desktops[0], windows, requests[0]), requests[1..]);
      assert desktops[1..][..n - 1] == desktops[..n][1..] && requests[1..][..n - 1] == requests[..n][1..];
    }
  }

  /** A batch that ends with the desktop leaves an inventory that shows the desktop. */
  lemma TickShowsCapture(project: Projection, observed: Observed, tick: Tick)
    requires tick.Valid() && tick.requests != []
    requires var n := |tick.requests| - 1;
      tick.requests[n].scope.WholeDesktop? && tick.desktops[n].captureAll.Ok?
      && WellCaptured(tick.desktops[n].captureAll.value)
    ensures ShowsCapture(Observe(project, observed, tick).0.inventory,
                         tick.desktops[|tick.requests| - 1].captureAll.value)
  {
    var n := |tick.requests| - 1;
    LastRequest(tick.desktops, observed.inventory, tick.requests);
    DesktopRequestShowsCapture(tick.desktops[n], ApplyRequests(tick.desktops[..n], observed.inventory, tick.requests[..n]),
                               tick.requests[n]);
  }

  // ------------------------------------------------------------------ publishing

  /** The window is what the projection makes of one in the inventory. */
  ghost predicate Kept(project: Projection, inventory: seq<WindowState>, w: WindowState) {
    exists i | 0 <= i < |inventory| :: project(inventory[i]) == Some(w)
  }

  lemma {:induction false} ProjectedIffKept(project: Projection, inventory: seq<WindowState>, w: WindowState)
    ensures w in ProjectWindows(project, inventory) <==> Kept(project, inventory, w)
  {
    if inventory != [] {
      ProjectedIffKept(project, inventory[1..], w);
      assert inventory == [inventory[0]] + inventory[1..];
      KeptCons(project, inventory, w);
    }
  }

  lemma KeptCons(project: Projection, inventory: seq<WindowState>, w: WindowState)
    requires inventory != []
    ensures Kept(project, inventory, w) <==> project(inventory[0]) == Some(w) || Kept(project, inventory[1..], w)
  {
    if i :| 0 <= i < |inventory[1..]| && project(inventory[1..][i]) == Some(w) {
      assert project(inventory[i + 1]) == Some(w);
    }
    if i :| 0 <= i < |inventory| && project(inventory[i]) == Some(w) {
      assert i > 0 ==> project(inventory[1..][i - 1]) == Some(w);
    }
  }

  function KeptCount(project: Projection, inventory: seq<WindowState>): nat {
    if inventory == [] then 0
    else KeptCount(project, inventory[..|inventory| - 1])
         + if project(inventory[|inventory| - 1]).Some? then 1 else 0
  }

  lemma {:induction false} ProjectedSplits(project: Projection, a: seq<WindowState>, b: seq<WindowState>)
    ensures ProjectWindows(project, a + b) == ProjectWindows(project, a) + ProjectWindows(project, b)
    decreases a
  {
    if a == [] { assert a + b == b; }
    else {
      ProjectedSplits(project, a[1..], b);
      assert (a + b)[1..] == a[1..] + b;
    }
  }

  lemma {:induction false} ProjectedCount(project: Projection, inventory: seq<WindowState>)
    ensures |ProjectWindows(project, inventory)| == KeptCount(project, inventory)
    decreases |inventory|
  {
    if inventory != [] {
      var n := |inventory| - 1;
      ProjectedCount(project, inventory[..n]);
      ProjectedSplits(project, inventory[..n], [inventory[n]]);
      assert inventory == inventory[..n] + [inventory[n]];
      assert [inventory[n]][1..] == [];
    }
  }

  /** A snapshot holds exactly the windows the projection keeps, as many as it keeps. */
  lemma PublishedIffKept(project: Projection, inventory: seq<WindowState>, w: WindowState)
    ensures w in PublishedWindows(project, inventory) <==> Kept(project, inventory, w)
    ensures |PublishedWindows(project, inventory)| == KeptCount(project, inventory)
  {
    ProjectedIffKept(project, inventory, w);
    ProjectedCount(project, inventory);
    Sorting.SortMembers(StateStore.WindowAtMost, ProjectWindows(project, inventory), w);
    Sorting.SortPermutes(StateStore.WindowAtMost, ProjectWindows(project, inventory));
  }

  /** What a tick publishes is what it leaves in the inventory, with a diff or without. */
  lemma TickPublishes(project: Projection, observed: Observed, tick: Tick)
    requires tick.Valid()
    requires Sorting.Sorted(StoreLaws.WindowBefore, observed.snapshot.windows)
    requires Sorting.Sorted(StoreLaws.WindowBefore, NextWindows(project, observed, tick))
    ensures var next := Observe(project, observed, tick).0;
      next.snapshot.windows == PublishedWindows(project, next.inventory)
  {
    RoundTrip.DiffEmptyIffEqual(observed.snapshot.windows, NextWindows(project, observed, tick));
  }

  /**
   After a batch that ends with the desktop, the snapshot shows the desktop: a window is
   published if and only if it is the projection of a captured window, relabelled.
   */
  lemma SnapshotShowsCapture(project: Projection, observed: Observed, tick: Tick, w: WindowState)
    requires tick.Valid() && tick.requests != []
    requires var n := |tick.requests| - 1;
      tick.requests[n].scope.WholeDesktop? && tick.desktops[n].captureAll.Ok?
      && WellCaptured(tick.desktops[n].captureAll.value)
    requires Sorting.Sorted(StoreLaws.WindowBefore, observed.snapshot.windows)
    requires Sorting.Sorted(StoreLaws.WindowBefore, NextWindows(project, observed, tick))
    ensures var captured := tick.desktops[|tick.requests| - 1].captureAll.value;
      var next := Observe(project, observed, tick).0;
      && ShowsCapture(next.inventory, captured)
      && |next.snapshot.windows| == KeptCount(project, next.inventory)
      && (w in next.snapshot.windows <==>
            exists i | 0 <= i < |captured| ::
              Stabilization.LabelledWindow(next.inventory[i], captured[i]) && project(next.inventory[i]) == Some(w))
  {
    var next := Observe(project, observed, tick).0;
    TickShowsCapture(project, observed, tick);
    TickPublishes(project, observed, tick);
    PublishedIffKept(project, next.inventory, w);
  }
}
