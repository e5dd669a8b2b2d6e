/**
 The pipeline end to end: the observer's diffs wait in a queue, enter the session, cross the
 wire and reach the proxy's mirror, in any interleaving with other traffic.
 */
module Pipeline {
  import opened Wrappers
  import opened Domain
  import opened StateStore
  import opened Observer
  import opened Refreshes
  import opened Resync
  import ElementIds
  import FocusBlind
  import RoundTrip
  import SnapshotDiff
  import Sorting
  import Trees
  import Wire
  import WireDrift
  import WireLaws

  type Naming = ElementIds.Naming

  /** `backlog` holds the diffs emitted but not yet taken by the session. */
  datatype Pipeline = Pipeline(observed: Observed, backlog: seq<DiffBatch>, system: System)

  /**
   A refresh batch of the observer; the session taking the next diff, with what a recapture
   would answer; or anything else that happens on the stream.
   */
  datatype Turn =
    | Refreshed(tick: Tick)
    | Delivered(recapture: Result<Snapshot, string>, now: int)
    | Between(step: Step)

  /** A session just opened: the observer has captured the desktop, the first snapshot is on its way. */
  ghost function OpenedPipeline(project: Projection, captured: seq<WindowState>, now: int): Pipeline {
    var start := OpenedAt(project, captured, now);
    Pipeline(start, [], Subscribed(start.snapshot))
  }

  ghost function After(project: Projection, p: Pipeline, turn: Turn): Pipeline
    requires turn.Refreshed? ==> turn.tick.Valid()
  {
    match turn
    case Between(step) => p.(system := Take(p.system, step))
    case Delivered(recapture, now) =>
      if p.backlog == [] then p
      else p.(backlog := p.backlog[1..], system := Take(p.system, BackendActs(BackendDiff(p.backlog[0]), recapture, now)))
    case Refreshed(tick) =>
      var (next, diff) := Observe(project, p.observed, tick);
      p.(observed := next, backlog := p.backlog + if diff.Some? then [diff.value] else [])
  }

  ghost predicate ValidTurns(turns: seq<Turn>) {
    forall t | t in turns && t.Refreshed? :: t.tick.Valid()
  }

  ghost function PipelineRun(project: Projection, p: Pipeline, turns: seq<Turn>): Pipeline
    requires ValidTurns(turns)
    decreases turns
  {
    if turns == [] then p
    else
      assert turns[0] in turns && forall t | t in turns[1..] :: t in turns;
      PipelineRun(project, After(project, p, turns[0]), turns[1..])
  }

  /** What one turn may bring: sound captures, and no diff but the observer's. */
  ghost predicate SoundTurn(naming: Naming, turn: Turn) {
    match turn
    case Between(step) => step.BackendActs? ==> step.event.BackendWarning?
    case Delivered(_, _) => true
    case Refreshed(tick) => tick.Valid() && forall d | d in tick.desktops :: SoundDesktop(naming, d)
  }

  ghost predicate ClearTurn(project: Projection, p: Pipeline, turn: Turn)
    requires turn.Refreshed? ==> turn.tick.Valid()
  {
    turn.Refreshed? ==>
      !RoundTrip.FocusIsAmbiguous(p.observed.snapshot.windows, NextWindows(project, p.observed, turn.tick))
  }

  /** Every focus move of the run can be restored. */
  ghost predicate ClearTurns(project: Projection, p: Pipeline, turns: seq<Turn>)
    requires ValidTurns(turns)
    decreases turns
  {
    turns != [] ==>
      assert turns[0] in turns && forall t | t in turns[1..] :: t in turns;
      && ClearTurn(project, p, turns[0])
      && ClearTurns(project, After(project, p, turns[0]), turns[1..])
  }

  // ---------------------------------------------------------------- the backlog

  /** The session accepts the diff, by one revision, and it means the same on the other side of the wire. */
  ghost predicate Acceptable(store: Store, diff: DiffBatch) {
    && ApplyDiff(store, diff).1.None?
    && diff.newRev == diff.baseRev + 1
    && RequestedResync(diff.ops).None?
    && forall i | 0 <= i < |diff.ops| :: WireLaws.WireSafe(diff.ops[i])
  }

  ghost predicate AcceptsAll(store: Store, backlog: seq<DiffBatch>)
    decreases backlog
  {
    backlog != [] ==> Acceptable(store, backlog[0]) && AcceptsAll(ApplyDiff(store, backlog[0]).0, backlog[1..])
  }

  /** The store once the session has taken the whole backlog. */
  ghost function CaughtUp(store: Store, backlog: seq<DiffBatch>): Store
    decreases backlog
  {
    if backlog == [] then store else CaughtUp(ApplyDiff(store, backlog[0]).0, backlog[1..])
  }

  lemma {:induction false} OneMoreDiff(store: Store, backlog: seq<DiffBatch>, diff: DiffBatch)
    ensures CaughtUp(store, backlog + [diff]) == ApplyDiff(CaughtUp(store, backlog), diff).0
    ensures AcceptsAll(store, backlog + [diff]) <==> AcceptsAll(store, backlog) && Acceptable(CaughtUp(store, backlog), diff)
    decreases backlog
  {
    if backlog == [] {
      assert [diff][1..] == [] && [] + [diff] == [diff];
    } else {
      OneMoreDiff(ApplyDiff(store, backlog[0]).0, backlog[1..], diff);
      assert (backlog + [diff])[1..] == backlog[1..] + [diff];
    }
  }

  /** Each diff of the backlog is one revision. */
  lemma {:induction false} BacklogIsLead(store: Store, backlog: seq<DiffBatch>)
    requires AcceptsAll(store, backlog)
    ensures CaughtUp(store, backlog).rev == store.rev + |backlog|
    decreases backlog
  {
    if backlog != [] { BacklogIsLead(ApplyDiff(store, backlog[0]).0, backlog[1..]); }
  }

  // -------------------------------------------------------------- staying level

  /** The mirror once the proxy has met everything sent. */
  ghost function MirrorOf(system: System): Store
    requires Drained(system.proxy, system.inFlight).Live?
  {
    Drained(system.proxy, system.inFlight).worker.store
  }

  /** The mirror is in step with the session, and unflagged. */
  ghost predicate Mirrored(system: System) {
    && MirrorSafe(system)
    && MirrorOf(system).resync.None?
    && WireLaws.Mirrors(system.session.store, MirrorOf(system))
  }

  /** The mirror is level with the session, and the session with the observer but for the backlog. */
  ghost predicate Level(exact: bool, naming: Naming, project: Projection, p: Pipeline) {
    && SoundInventory(naming, p.observed.inventory)
    && AcceptsAll(p.system.session.store, p.backlog)
    && InStep(exact, project, p.observed, CaughtUp(p.system.session.store, p.backlog))
    && Mirrored(p.system)
  }

  /** Published ids are hashes behind a prefix, so none is empty. */
  lemma PublishedIdsAreNotEmpty(naming: Naming, project: Projection, inventory: seq<WindowState>)
    requires ElementIds.Collisionless(naming) && AnnotatesOnly(project) && SoundInventory(naming, inventory)
    ensures WireDrift.NoEmptyIds(PublishedWindows(project, inventory))
  {
    PublishedIsSound(naming, project, inventory);
    forall w | w in PublishedWindows(project, inventory) ensures !Trees.Contains(w.root, "") {
      var fingerprint :| TaggedBy(naming, w, fingerprint);
      assert Trees.InForest(w.root.children, "") ==> ElementIds.InnerId(naming, "");
    }
  }

  lemma QuietStepStaysMirrored(system: System, step: Step)
    requires Mirrored(system) && QuietRun(system, [step])
    requires step.BackendActs? ==> WireSafeEvent(step.event)
    ensures Mirrored(Take(system, step))
  {
    QuietRunsMirrorExactly(system, [step]);
    assert [step][1..] == [];
    assert Run(system, [step]) == Run(Take(system, step), []);
  }

  lemma BetweenKeepsLevel(exact: bool, naming: Naming, project: Projection, p: Pipeline, step: Step)
    requires Level(exact, naming, project, p) && SoundTurn(naming, Between(step))
    ensures Level(exact, naming, project, After(project, p, Between(step)))
  {
    assert [step][1..] == [] && QuietRun(Take(p.system, step), []);
    QuietStepStaysMirrored(p.system, step);
  }

  /** The session takes the next diff and passes it on, whatever a recapture would have answered. */
  lemma DeliveryKeepsLevel(exact: bool, naming: Naming, project: Projection, p: Pipeline,
                           recapture: Result<Snapshot, string>, now: int)
    requires Level(exact, naming, project, p) && p.backlog != []
    ensures Level(exact, naming, project, After(project, p, Delivered(recapture, now)))
  {
    var step := BackendActs(BackendDiff(p.backlog[0]), recapture, now);
    assert Acceptable(p.system.session.store, p.backlog[0]);
    assert [step][1..] == [] && QuietRun(Take(p.system, step), []);
    QuietStepStaysMirrored(p.system, step);
    assert Take(p.system, step).session.store == ApplyDiff(p.system.session.store, p.backlog[0]).0;
  }

  lemma EmittedIsAcceptable(project: Projection, observed: Observed, store: Store, tick: Tick)
    requires tick.Valid() && Observe(project, observed, tick).1.Some? && observed.snapshot.rev < MAX_REVISION
    requires ApplyDiff(store, Observe(project, observed, tick).1.value).1.None?
    requires WireDrift.NoEmptyIds(NextWindows(project, observed, tick))
    ensures Acceptable(store, Observe(project, observed, tick).1.value)
  {
    var previous, windows := observed.snapshot.windows, NextWindows(project, observed, tick);
    var diff := Observe(project, observed, tick).1.value;
    WireDrift.DiffOpsAreWireSafe(previous, windows);
    RoundTrip.NoResyncRequested(Sorting.SortedKeys(SnapshotDiff.WindowIds(previous) + SnapshotDiff.WindowIds(windows)),
                                previous, windows);
    assert diff.ops == SnapshotDiff.DiffOps(previous, windows);
  }

  /** A refresh batch queues at most one diff, which the session will accept. */
  lemma RefreshKeepsLevel(exact: bool, naming: Naming, project: Projection, p: Pipeline, tick: Tick)
    requires ElementIds.Collisionless(naming) && AnnotatesOnly(project) && Level(exact, naming, project, p)
    requires SoundTurn(naming, Refreshed(tick)) && p.observed.snapshot.rev < MAX_REVISION
    requires exact ==> ClearTurn(project, p, Refreshed(tick))
    ensures Level(exact, naming, project, After(project, p, Refreshed(tick)))
    ensures After(project, p, Refreshed(tick)).observed.snapshot.rev <= p.observed.snapshot.rev + 1
  {
    var (next, diff) := Observe(project, p.observed, tick);
    var store := CaughtUp(p.system.session.store, p.backlog);
    RequestsKeepSound(naming, tick.desktops, p.observed.inventory, tick.requests);
    SoundInventoriesAreDiffable(naming, project, p.observed.inventory, next.inventory);
    ObserveKeepsStep(exact, project, p.observed, store, tick);
    if diff.Some? {
      PublishedIdsAreNotEmpty(naming, project, next.inventory);
      EmittedIsAcceptable(project, p.observed, store, tick);
      OneMoreDiff(p.system.session.store, p.backlog, diff.value);
    } else {
      assert p.backlog + [] == p.backlog;
    }
  }

  lemma OpenedIsLevel(naming: Naming, project: Projection, captured: seq<WindowState>, now: int)
    requires SoundInventory(naming, captured)
    ensures Level(true, naming, project, OpenedPipeline(project, captured, now))
  {
    var first := OpenedAt(project, captured, now).snapshot;
    SubscribedIsSafe(first);
    WireLaws.SnapshotIsMirrored(first);
  }

  lemma TurnKeepsLevel(exact: bool, naming: Naming, project: Projection, p: Pipeline, turn: Turn)
    requires ElementIds.Collisionless(naming) && AnnotatesOnly(project) && Level(exact, naming, project, p)
    requires SoundTurn(naming, turn) && p.observed.snapshot.rev < MAX_REVISION
    requires exact ==> ClearTurn(project, p, turn)
    ensures Level(exact, naming, project, After(project, p, turn))
    ensures After(project, p, turn).observed.snapshot.rev <= p.observed.snapshot.rev + 1
  {
    match turn
    case Between(step) => BetweenKeepsLevel(exact, naming, project, p, step);
    case Delivered(recapture, now) =>
      if p.backlog != [] { DeliveryKeepsLevel(exact, naming, project, p, recapture, now); }
    case Refreshed(tick) => RefreshKeepsLevel(exact, naming, project, p, tick);
  }

  lemma {:induction false} RunKeepsLevel(exact: bool, naming: Naming, project: Projection, p: Pipeline, turns: seq<Turn>)
    requires ElementIds.Collisionless(naming) && AnnotatesOnly(project)
    requires ValidTurns(turns) && forall t | t in turns :: SoundTurn(naming, t)
    requires Level(exact, naming, project, p) && p.observed.snapshot.rev + |turns| <= MAX_REVISION
    requires exact ==> ClearTurns(project, p, turns)
    ensures Level(exact, naming, project, PipelineRun(project, p, turns))
    decreases turns
  {
    if turns != [] {
      assert turns[0] in turns && forall t | t in turns[1..] :: t in turns;
      TurnKeepsLevel(exact, naming, project, p, turns[0]);
      RunKeepsLevel(exact, naming, project, After(project, p, turns[0]), turns[1..]);
    }
  }

  // ------------------------------------------------------------------ the theorem

  /** The wire keeps focus, and focus the wire form. */
  lemma {:induction false} NormalCleared(node: ElementNode)
    ensures Trees.ClearFocus(Wire.NormalElement(node)) == Wire.NormalElement(Trees.ClearFocus(node))
  {
    var a, b := Trees.ClearFocus(Wire.NormalElement(node)), Wire.NormalElement(Trees.ClearFocus(node));
    forall i | 0 <= i < |node.children| ensures a.children[i] == b.children[i] {
      NormalCleared(node.children[i]);
    }
    assert a.children == b.children;
  }

  lemma NormalUnfocused(windows: seq<WindowState>)
    ensures FocusBlind.UnfocusedWindows(Wire.NormalWindows(windows))
      == Wire.NormalWindows(FocusBlind.UnfocusedWindows(windows))
  {
    var normal := Wire.NormalWindows(windows);
    FocusBlind.UnfocusedAre(windows);
    FocusBlind.UnfocusedAre(normal);
    forall i | 0 <= i < |windows|
      ensures FocusBlind.Unfocused(normal[i]) == Wire.NormalWindow(FocusBlind.Unfocused(windows[i]))
    {
      NormalCleared(windows[i].root);
    }
  }

  lemma NormalUpToFocus(a: seq<WindowState>, b: seq<WindowState>)
    requires FocusBlind.SameUpToFocus(a, b)
    ensures FocusBlind.SameUpToFocus(Wire.NormalWindows(a), Wire.NormalWindows(b))
  {
    NormalUnfocused(a);
    NormalUnfocused(b);
  }

  lemma SameMeansNormalEqual(a: seq<WindowState>, b: seq<WindowState>)
    requires WireLaws.SameWindows(a, b)
    ensures Wire.NormalWindows(a) == Wire.NormalWindows(b)
  {
  }

  /** The proxy is live, unflagged, and its mirror shows the windows up to the wire. */
  ghost predicate MirrorShows(exact: bool, system: System, windows: seq<WindowState>) {
    var proxy := Drained(system.proxy, system.inFlight);
    && proxy.Live?
    && proxy.worker.store.resync.None?
    && proxy.worker.store.snapshot.Some?
    && Follows(exact, Wire.NormalWindows(proxy.worker.store.snapshot.value.windows), Wire.NormalWindows(windows))
  }

  /** What it means to be level. */
  lemma LevelShows(exact: bool, naming: Naming, project: Projection, p: Pipeline)
    requires Level(exact, naming, project, p)
    ensures MirrorShows(true, p.system, p.system.session.store.snapshot.value.windows)
    ensures MirrorOf(p.system).rev == p.system.session.store.rev
    ensures p.observed.snapshot.rev == p.system.session.store.rev + |p.backlog|
    ensures p.backlog == [] ==> MirrorShows(exact, p.system, PublishedWindows(project, p.observed.inventory))
  {
    var store := p.system.session.store;
    BacklogIsLead(store, p.backlog);
    SameMeansNormalEqual(store.snapshot.value.windows, MirrorOf(p.system).snapshot.value.windows);
    if p.backlog == [] { NormalUpToFocus(store.snapshot.value.windows, PublishedWindows(project, p.observed.inventory)); }
  }

  /**
   End to end: from opening a session on captured desktops, over every interleaving of refresh
   batches, deliveries, sending, receiving, warnings and action results, the observer leads the
   session by exactly the diffs in the queue, and a mirror that has met everything sent is
   unflagged and shows what the session holds. Once the queue is empty that is the projection
   of the observer's current inventory, recomputed from scratch: apart from focus whatever
   happened, and exactly if every focus move could be restored.
   */
  lemma MirrorShowsInventory(naming: Naming, project: Projection, captured: seq<WindowState>, now: int, turns: seq<Turn>)
    requires ElementIds.Collisionless(naming) && AnnotatesOnly(project) && SoundInventory(naming, captured)
    requires ValidTurns(turns) && (forall t | t in turns :: SoundTurn(naming, t)) && |turns| < MAX_REVISION
    ensures var start := OpenedPipeline(project, captured, now);
      var after := PipelineRun(project, start, turns);
      var published := PublishedWindows(project, after.observed.inventory);
      && after.observed.snapshot.rev == after.system.session.store.rev + |after.backlog|
      && after.system.session.store.snapshot.Some?
      && MirrorShows(true, after.system, after.system.session.store.snapshot.value.windows)
      && MirrorOf(after.system).rev == after.system.session.store.rev
      && (after.backlog == [] ==> MirrorShows(ClearTurns(project, start, turns), after.system, published))
  {
    var start := OpenedPipeline(project, captured, now);
    var exact := ClearTurns(project, start, turns);
    OpenedIsLevel(naming, project, captured, now);
    RunKeepsLevel(exact, naming, project, start, turns);
    LevelShows(exact, naming, project, PipelineRun(project, start, turns));
  }
}
