/**
 Merging the refresh requests of one batch: one request per window, and none of those once
 the whole desktop is due.
 */
module Coalescing {
  import opened Wrappers
  import opened Domain
  import opened Stabilization
  import opened Observer

  function Rank(source: HintSource): nat {
    match source case UiaHint => 0 case WinEventHint => 1 case MsaaHint => 2
  }

  function MergeReason(current: string, incoming: string): string {
    if current == incoming || incoming == "" then current
    else if current == "" then incoming
    else current + "; " + incoming
  }

  function MergeRequest(current: RefreshRequest, incoming: RefreshRequest): RefreshRequest {
    current.(source := if Rank(incoming.source) > Rank(current.source) then incoming.source else current.source,
             reason := MergeReason(current.reason, incoming.reason))
  }

  datatype Pending = Pending(desktop: Option<RefreshRequest>, windows: map<nat, RefreshRequest>)

  function AddRequest(pending: Pending, request: RefreshRequest): Pending {
    match request.scope
    case WholeDesktop =>
      pending.(desktop := Some(if pending.desktop.Some? then MergeRequest(pending.desktop.value, request) else request))
    case SingleWindow(hwnd) =>
      pending.(windows := pending.windows[hwnd :=
        if hwnd in pending.windows then MergeRequest(pending.windows[hwnd], request) else request])
  }

  function Collect(requests: seq<RefreshRequest>): Pending {
    if requests == [] then Pending(None, map[])
    else AddRequest(Collect(requests[..|requests| - 1]), requests[|requests| - 1])
  }

  /** The pending request of a scope, if any. */
  function PendingFor(pending: Pending, scope: RefreshScope): Option<RefreshRequest> {
    match scope
    case WholeDesktop => pending.desktop
    case SingleWindow(hwnd) => if hwnd in pending.windows then Some(pending.windows[hwnd]) else None
  }

  predicate AsksFor(request: RefreshRequest, scope: RefreshScope) {
    request.scope == scope
  }

  /**
   Each scope that is asked for has one pending request, and its source is the strongest of
   those asked with: none outranks it, and it is one of them.
   */
  lemma {:induction false} MergedSourceIsStrongest(requests: seq<RefreshRequest>, scope: RefreshScope)
    ensures var pending := PendingFor(Collect(requests), scope);
      && (pending.Some? <==> exists i | 0 <= i < |requests| :: AsksFor(requests[i], scope))
      && (pending.Some? ==> pending.value.scope == scope)
      && (pending.Some? ==> forall i | 0 <= i < |requests| && AsksFor(requests[i], scope) ::
            Rank(requests[i].source) <= Rank(pending.value.source))
      && (pending.Some? ==> exists i | 0 <= i < |requests| ::
            AsksFor(requests[i], scope) && requests[i].source == pending.value.source)
    decreases |requests|
  {
    if requests != [] {
      var n := |requests| - 1;
      var before := requests[..n];
      MergedSourceIsStrongest(before, scope);
      assert forall i | 0 <= i < n :: before[i] == requests[i];
      if requests[n].scope == scope { assert AsksFor(requests[n], scope); }
    }
  }

  predicate IsLeast(h: nat, handles: set<nat>) {
    h in handles && forall other | other in handles :: h <= other
  }

  lemma {:induction false} LeastHandleExists(handles: set<nat>)
    requires handles != {}
    ensures exists h :: IsLeast(h, handles)
  {
    var h :| h in handles;
    var rest := handles - {h};
    if rest == {} {
      assert handles == {h};
      assert IsLeast(h, handles);
    } else {
      LeastHandleExists(rest);
      var m :| IsLeast(m, rest);
      assert handles == rest + {h};
      assert IsLeast(if h < m then h else m, handles);
    }
  }

  /** The values of a map in ascending key order. */
  ghost function ValuesInOrder(windows: map<nat, RefreshRequest>): seq<RefreshRequest>
    decreases windows.Keys
  {
    if windows.Keys == {} then []
    else
      LeastHandleExists(windows.Keys);
      var h :| IsLeast(h, windows.Keys);
      [windows[h]] + ValuesInOrder(windows - {h})
  }

  lemma LeastFirst(windows: map<nat, RefreshRequest>, h: nat)
    requires IsLeast(h, windows.Keys)
    ensures ValuesInOrder(windows) == [windows[h]] + ValuesInOrder(windows - {h})
  {
  }

  ghost function Coalesced(requests: seq<RefreshRequest>): seq<RefreshRequest> {
    var pending := Collect(requests);
    if pending.desktop.Some? then [pending.desktop.value] else ValuesInOrder(pending.windows)
  }

  method CoalesceRequests(requests: seq<RefreshRequest>) returns (merged: seq<RefreshRequest>)
    ensures merged == Coalesced(requests)
  {
    var desktop: Option<RefreshRequest> := None;
    var windows: map<nat, RefreshRequest> := map[];
    for i := 0 to |requests|
      invariant Pending(desktop, windows) == Collect(requests[..i])
    {
      assert requests[..i + 1][..i] == requests[..i];
      var request := requests[i];
      match request.scope {
        case WholeDesktop =>
          desktop := Some(if desktop.Some? then MergeRequest(desktop.value, request) else request);
        case SingleWindow(hwnd) =>
          windows := windows[hwnd := if hwnd in windows then MergeRequest(windows[hwnd], request) else request];
      }
    }
    assert requests[..|requests|] == requests;
    if desktop.Some? {
      return [desktop.value];
    }
    merged := InKeyOrder(windows);
  }

  /** The values of a tree map, taken out by ascending key. */
  method InKeyOrder(windows: map<nat, RefreshRequest>) returns (values: seq<RefreshRequest>)
    ensures values == ValuesInOrder(windows)
  {
    values := [];
    var remaining := windows;
    while remaining.Keys != {}
      invariant values + ValuesInOrder(remaining) == ValuesInOrder(windows)
      decreases remaining.Keys
    {
      LeastHandleExists(remaining.Keys);
      var h :| h in remaining.Keys && IsLeast(h, remaining.Keys);
      LeastFirst(remaining, h);
      values := values + [remaining[h]];
      remaining := remaining - {h};
    }
  }

  // -------------------------------------------------------- what is requested

  /** The handles a window-only batch asks for. */
  function Handles(requests: seq<RefreshRequest>): seq<nat>
    requires forall r | r in requests :: r.scope.SingleWindow?
  {
    seq(|requests|, i requires 0 <= i < |requests| => (assert requests[i] in requests; requests[i].scope.hwnd))
  }

  lemma {:induction false} CollectWindows(requests: seq<RefreshRequest>)
    requires forall r | r in requests :: r.scope.SingleWindow?
    ensures Collect(requests).desktop.None?
    ensures forall h :: h in Collect(requests).windows <==> h in Handles(requests)
    ensures forall h | h in Collect(requests).windows :: Collect(requests).windows[h].scope == SingleWindow(h)
    decreases |requests|
  {
    if requests != [] {
      var earlier, last := requests[..|requests| - 1], requests[|requests| - 1];
      assert requests == earlier + [last];
      CollectWindows(earlier);
      assert last in requests;
      assert Handles(requests) == Handles(earlier) + [last.scope.hwnd];
    }
  }

  lemma {:induction false} OrderedValues(windows: map<nat, RefreshRequest>)
    requires forall h | h in windows :: windows[h].scope == SingleWindow(h)
    ensures forall r | r in ValuesInOrder(windows) :: r.scope.SingleWindow?
    ensures forall h :: h in Handles(ValuesInOrder(windows)) <==> h in windows
    decreases windows.Keys
  {
    if windows.Keys != {} {
      LeastHandleExists(windows.Keys);
      var least :| IsLeast(least, windows.Keys);
      LeastFirst(windows, least);
      var rest := windows - {least};
      OrderedValues(rest);
      HandlesOfPrefixed(windows[least], ValuesInOrder(rest));
      forall h ensures h in Handles(ValuesInOrder(windows)) <==> h in windows {
        assert h in windows <==> h == least || h in rest;
      }
    }
  }

  lemma HandlesOfPrefixed(first: RefreshRequest, rest: seq<RefreshRequest>)
    requires first.scope.SingleWindow? && forall r | r in rest :: r.scope.SingleWindow?
    ensures forall r | r in [first] + rest :: r.scope.SingleWindow?
    ensures Handles([first] + rest) == [first.scope.hwnd] + Handles(rest)
  {
  }

  predicate Asked(requests: seq<RefreshRequest>, scope: RefreshScope) {
    exists i | 0 <= i < |requests| :: AsksFor(requests[i], scope)
  }

  /** It asks with the strongest of the sources its scope was asked with. */
  ghost predicate StandsFor(request: RefreshRequest, requests: seq<RefreshRequest>) {
    && (exists i | 0 <= i < |requests| :: AsksFor(requests[i], request.scope) && requests[i].source == request.source)
    && (forall i | 0 <= i < |requests| && AsksFor(requests[i], request.scope) ::
         Rank(requests[i].source) <= Rank(request.source))
  }

  ghost predicate HandlesAscend(requests: seq<RefreshRequest>)
    requires forall r | r in requests :: r.scope.SingleWindow?
  {
    forall i, j | 0 <= i < j < |requests| :: Handles(requests)[i] < Handles(requests)[j]
  }

  lemma AscendsFrom(first: RefreshRequest, rest: seq<RefreshRequest>)
    requires first.scope.SingleWindow? && forall r | r in rest :: r.scope.SingleWindow?
    requires HandlesAscend(rest) && forall h | h in Handles(rest) :: first.scope.hwnd < h
    ensures forall r | r in [first] + rest :: r.scope.SingleWindow?
    ensures HandlesAscend([first] + rest)
  {
    HandlesOfPrefixed(first, rest);
    forall j | 0 <= j < |rest| ensures first.scope.hwnd < Handles(rest)[j] {
      assert Handles(rest)[j] in Handles(rest);
    }
  }

  lemma {:induction false} OrderedAscend(windows: map<nat, RefreshRequest>)
    requires forall h | h in windows :: windows[h].scope == SingleWindow(h)
    ensures forall r | r in ValuesInOrder(windows) :: r.scope.SingleWindow?
    ensures HandlesAscend(ValuesInOrder(windows))
    decreases windows.Keys
  {
    if windows.Keys != {} {
      LeastHandleExists(windows.Keys);
      var least :| IsLeast(least, windows.Keys);
      LeastFirst(windows, least);
      OrderedAscend(windows - {least});
      OrderedValues(windows - {least});
      AscendsFrom(windows[least], ValuesInOrder(windows - {least}));
    }
  }

  lemma {:induction false} OrderedAreValues(windows: map<nat, RefreshRequest>)
    ensures forall r | r in ValuesInOrder(windows) :: exists h :: h in windows && windows[h] == r
    decreases windows.Keys
  {
    if windows.Keys != {} {
      LeastHandleExists(windows.Keys);
      var least :| IsLeast(least, windows.Keys);
      LeastFirst(windows, least);
      var rest := windows - {least};
      OrderedAreValues(rest);
      forall r | r in ValuesInOrder(windows) ensures exists h :: h in windows && windows[h] == r {
        if r != windows[least] {
          var h :| h in rest && rest[h] == r;
          assert windows[h] == r;
        }
      }
    }
  }

  /**
   A batch that asks for the desktop becomes that one request. Any other becomes one request for
   each window it asks for, in ascending order of handles. Each stands for all those of its scope.
   */
  lemma CoalescedStandsForAll(requests: seq<RefreshRequest>)
    ensures forall r | r in Coalesced(requests) :: StandsFor(r, requests)
    ensures Asked(requests, WholeDesktop) ==>
      |Coalesced(requests)| == 1 && Coalesced(requests)[0].scope == WholeDesktop
    ensures !Asked(requests, WholeDesktop) ==>
      && (forall r | r in Coalesced(requests) :: r.scope.SingleWindow?)
      && (forall h :: h in Handles(Coalesced(requests)) <==> Asked(requests, SingleWindow(h)))
      && HandlesAscend(Coalesced(requests))
  {
    var pending := Collect(requests);
    MergedSourceIsStrongest(requests, WholeDesktop);
    forall h
      ensures h in pending.windows <==> Asked(requests, SingleWindow(h))
      ensures h in pending.windows ==>
        pending.windows[h].scope == SingleWindow(h) && StandsFor(pending.windows[h], requests)
    {
      MergedSourceIsStrongest(requests, SingleWindow(h));
    }
    OrderedAscend(pending.windows);
    OrderedValues(pending.windows);
    OrderedAreValues(pending.windows);
  }

  // -------------------------------------------------- a desktop that stands still

  /** What a still desktop shows at each handle. */
  type Scene = nat -> Option<WindowState>

  ghost predicate StillScene(scene: Scene) {
    forall h | scene(h).Some? :: HasHandle(scene(h).value, h) && CapturedWindow(scene(h).value)
  }

  function Refresh(scene: Scene, windows: seq<WindowState>, hwnd: nat): seq<WindowState> {
    TakeCapture(windows, hwnd, scene(hwnd))
  }

  function RefreshAll(scene: Scene, windows: seq<WindowState>, handles: seq<nat>): seq<WindowState>
    decreases handles
  {
    if handles == [] then windows else RefreshAll(scene, Refresh(scene, windows, handles[0]), handles[1..])
  }

  /** What a refresh puts at a handle, given what the inventory holds there. */
  function Refreshed(scene: Scene, windows: seq<WindowState>, hwnd: nat): Option<WindowState> {
    if scene(hwnd).None? then None
    else if WindowWithHandle(windows, hwnd).Some?
      then Some(StabilizedWindow(WindowWithHandle(windows, hwnd).value, scene(hwnd).value))
    else scene(hwnd)
  }

  lemma {:induction false} LookupByHandle(windows: seq<WindowState>, hwnd: nat)
    ensures WindowWithHandle(windows, hwnd).Some? ==>
      WindowWithHandle(windows, hwnd).value in windows && HasHandle(WindowWithHandle(windows, hwnd).value, hwnd)
    ensures WindowWithHandle(windows, hwnd).None? ==> forall w | w in windows :: !HasHandle(w, hwnd)
    ensures DistinctHandles(windows) ==>
      forall w | w in windows && HasHandle(w, hwnd) :: WindowWithHandle(windows, hwnd) == Some(w)
  {
    if windows != [] {
      LookupByHandle(windows[1..], hwnd);
      assert windows == [windows[0]] + windows[1..];
    }
  }

  lemma {:induction false} DropHandleEffect(windows: seq<WindowState>, hwnd: nat)
    requires DistinctHandles(windows)
    ensures DistinctHandles(DropHandle(windows, hwnd))
    ensures forall w :: w in DropHandle(windows, hwnd) <==> w in windows && !HasHandle(w, hwnd)
  {
    if windows != [] {
      DropHandleEffect(windows[1..], hwnd);
      HandlesBelowHead(windows, DropHandle(windows[1..], hwnd));
    }
  }

  lemma HandlesBelowHead(windows: seq<WindowState>, rest: seq<WindowState>)
    requires windows != [] && DistinctHandles(windows) && DistinctHandles(rest)
    requires forall w | w in rest ::
      w in windows[1..] || w.root.nativeWindowHandle != windows[0].root.nativeWindowHandle
    ensures DistinctHandles([windows[0]] + rest)
    ensures forall w :: w in windows <==> w == windows[0] || w in windows[1..]
  {
    assert windows == [windows[0]] + windows[1..];
    forall j | 0 <= j < |rest| ensures rest[j].root.nativeWindowHandle != windows[0].root.nativeWindowHandle {
      assert rest[j] in rest;
    }
  }

  lemma {:induction false} PutCaptureEffect(windows: seq<WindowState>, hwnd: nat, capture: WindowState)
    requires DistinctHandles(windows) && HasHandle(capture, hwnd)
    ensures DistinctHandles(PutCapture(windows, hwnd, capture))
    ensures var put := if WindowWithHandle(windows, hwnd).Some?
                       then StabilizedWindow(WindowWithHandle(windows, hwnd).value, capture) else capture;
      forall w :: w in PutCapture(windows, hwnd, capture) <==> (w in windows && !HasHandle(w, hwnd)) || w == put
  {
    if windows != [] {
      PutCaptureEffect(windows[1..], hwnd, capture);
      if HasHandle(windows[0], hwnd) {
        HandlesBelowHead(windows, windows[1..]);
        forall w | w in windows[1..] ensures !HasHandle(w, hwnd) {
          LookupByHandle(windows, hwnd);
        }
      } else {
        HandlesBelowHead(windows, PutCapture(windows[1..], hwnd, capture));
      }
    }
  }

  /** A refresh changes the inventory at its own handle only, and keeps handles distinct. */
  lemma RefreshEffect(scene: Scene, windows: seq<WindowState>, hwnd: nat)
    requires StillScene(scene) && DistinctHandles(windows)
    ensures DistinctHandles(Refresh(scene, windows, hwnd))
    ensures forall w :: w in Refresh(scene, windows, hwnd) <==>
      (w in windows && !HasHandle(w, hwnd)) || Refreshed(scene, windows, hwnd) == Some(w)
  {
    if scene(hwnd).Some? { PutCaptureEffect(windows, hwnd, scene(hwnd).value); }
    else { DropHandleEffect(windows, hwnd); }
  }

  /** Refreshing first at one handle changes no later refresh: elsewhere trivially, here by the fixpoint. */
  lemma RefreshedIsStable(scene: Scene, windows: seq<WindowState>, first: nat, hwnd: nat)
    requires StillScene(scene) && DistinctHandles(windows)
    ensures Refreshed(scene, Refresh(scene, windows, first), hwnd) == Refreshed(scene, windows, hwnd)
  {
    var after := Refresh(scene, windows, first);
    RefreshEffect(scene, windows, first);
    LookupByHandle(windows, hwnd);
    LookupByHandle(after, hwnd);
    if scene(hwnd).Some? {
      if first == hwnd {
        assert HasHandle(Refreshed(scene, windows, hwnd).value, hwnd);
        LabelledByStabilizing(if WindowWithHandle(windows, hwnd).Some? then WindowWithHandle(windows, hwnd).value
                              else scene(hwnd).value, scene(hwnd).value);
      } else {
        assert Refreshed(scene, windows, first).Some? ==> HasHandle(Refreshed(scene, windows, first).value, first);
        if WindowWithHandle(windows, hwnd).Some? {
          assert WindowWithHandle(windows, hwnd).value in after;
        }
      }
    }
  }

  /** After refreshing a list of handles, each of them shows the desktop and the rest is untouched. */
  lemma {:induction false} RefreshAllEffect(scene: Scene, windows: seq<WindowState>, handles: seq<nat>)
    requires StillScene(scene) && DistinctHandles(windows)
    ensures DistinctHandles(RefreshAll(scene, windows, handles))
    ensures forall w: WindowState | w.root.nativeWindowHandle.Some? ::
      w in RefreshAll(scene, windows, handles) <==>
        if w.root.nativeWindowHandle.value in handles
        then Refreshed(scene, windows, w.root.nativeWindowHandle.value) == Some(w)
        else w in windows
    decreases handles
  {
    if handles != [] {
      var first, rest := handles[0], handles[1..];
      var after := Refresh(scene, windows, first);
      RefreshEffect(scene, windows, first);
      RefreshAllEffect(scene, after, rest);
      forall w: WindowState | w.root.nativeWindowHandle.Some?
        ensures w in RefreshAll(scene, windows, handles) <==>
          if w.root.nativeWindowHandle.value in handles
          then Refreshed(scene, windows, w.root.nativeWindowHandle.value) == Some(w)
          else w in windows
      {
        var h := w.root.nativeWindowHandle.value;
        RefreshedIsStable(scene, windows, first, h);
        assert h in handles <==> h == first || h in rest;
        assert Refreshed(scene, windows, first).Some? ==> HasHandle(Refreshed(scene, windows, first).value, first);
      }
    }
  }

  lemma {:induction false} SameMembersSameMultiset(a: seq<WindowState>, b: seq<WindowState>)
    requires DistinctHandles(a) && DistinctHandles(b) && forall w :: w in a <==> w in b
    ensures multiset(a) == multiset(b)
  {
    CountedOnce(a);
    CountedOnce(b);
    forall w ensures multiset(a)[w] == multiset(b)[w] {
      assert w in a <==> w in multiset(a);
      assert w in b <==> w in multiset(b);
    }
  }

  lemma {:induction false} CountedOnce(windows: seq<WindowState>)
    requires DistinctHandles(windows)
    ensures forall w | w in windows :: multiset(windows)[w] == 1
  {
    if windows != [] {
      assert windows == [windows[0]] + windows[1..];
      CountedOnce(windows[1..]);
      assert windows[0] !in windows[1..];
      assert windows[0] !in multiset(windows[1..]);
    }
  }

  /** Which handles are refreshed decides the inventory; neither order nor repetition does. */
  lemma HandleSetDecides(scene: Scene, windows: seq<WindowState>, a: seq<nat>, b: seq<nat>)
    requires StillScene(scene) && DistinctHandles(windows) && forall h :: h in a <==> h in b
    ensures multiset(RefreshAll(scene, windows, a)) == multiset(RefreshAll(scene, windows, b))
  {
    RefreshAllEffect(scene, windows, a);
    RefreshAllEffect(scene, windows, b);
    var first, second := RefreshAll(scene, windows, a), RefreshAll(scene, windows, b);
    forall w ensures w in first <==> w in second {
      assert w in first ==> w.root.nativeWindowHandle.Some?;
      assert w in second ==> w.root.nativeWindowHandle.Some?;
    }
    SameMembersSameMultiset(first, second);
  }

  ghost predicate ShowsScene(desktop: Desktop, scene: Scene) {
    forall hwnd, source :: desktop.captureWindow(hwnd, source) == Ok(scene(hwnd))
  }

  lemma {:induction false} RequestsAreRefreshes(desktop: Desktop, scene: Scene, windows: seq<WindowState>,
                                                requests: seq<RefreshRequest>)
    requires ShowsScene(desktop, scene) && forall r | r in requests :: r.scope.SingleWindow?
    ensures ApplyRequests(seq(|requests|, _ => desktop), windows, requests) == RefreshAll(scene, windows, Handles(requests))
    decreases requests
  {
    if requests != [] {
      assert seq(|requests|, _ => desktop)[1..] == seq(|requests[1..]|, _ => desktop);
      assert Handles(requests)[1..] == Handles(requests[1..]);
      RequestsAreRefreshes(desktop, scene, ApplyRequest(desktop, windows, requests[0]), requests[1..]);
    }
  }

  /**
   On a desktop that stands still while a window-only batch is handled, applying the
   coalesced requests leaves the same inventory, up to order, as applying every request.
   */
  lemma CoalescingPreservesInventory(desktop: Desktop, scene: Scene, windows: seq<WindowState>, requests: seq<RefreshRequest>)
    requires ShowsScene(desktop, scene) && StillScene(scene) && DistinctHandles(windows)
    requires forall r | r in requests :: r.scope.SingleWindow?
    ensures var merged := Coalesced(requests);
      multiset(ApplyRequests(seq(|merged|, _ => desktop), windows, merged))
      == multiset(ApplyRequests(seq(|requests|, _ => desktop), windows, requests))
  {
    CollectWindows(requests);
    OrderedValues(Collect(requests).windows);
    var merged := Coalesced(requests);
    RequestsAreRefreshes(desktop, scene, windows, requests);
    RequestsAreRefreshes(desktop, scene, windows, merged);
    HandleSetDecides(scene, windows, Handles(requests), Handles(merged));
  }
}
