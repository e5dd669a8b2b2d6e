/**
 The resync protocol: backend events enter the session record, messages cross a FIFO
 stream in wire form, and the proxy's mirror follows.
 */
module Resync {
  import opened Wrappers
  import opened Domain
  import opened StateStore
  import opened Wire
  import opened WireLaws
  import opened Worker
  import Trees

  // ------------------------------------------------------------ the session side

  datatype BackendEvent = BackendDiff(diff: DiffBatch) | BackendWarning(code: string)

  /** A captured snapshot never moves the session's revision backwards. */
  function NormalizeRevision(snapshot: Snapshot, current: Revision): Snapshot {
    if snapshot.rev <= current then snapshot.(rev := NextRevision(current)) else snapshot
  }

  function ResyncSignal(current: Revision, now: int, error: StateError): DiffBatch {
    DiffBatch(current, NextRevision(current), now, [SnapshotResync(Rejected(error))])
  }

  /**
   One backend event: an accepted diff is passed on; a refused one is announced as a resync
   and answered with a recapture, if that succeeds.
   */
  function Forward(record: Record, event: BackendEvent, recapture: Result<Snapshot, string>, now: int)
    : (Record, seq<ServerMessage>)
  {
    match event
    case BackendWarning(code) => (record, [Warning(code)])
    case BackendDiff(diff) =>
      var (updated, error) := RecordDiff(record, diff);
      if error.None? then (updated, [DiffMessage(diff)])
      else
        var current := updated.store.rev;
        var signal := DiffMessage(ResyncSignal(current, now, error.value));
        match recapture
        case Err(_) => (updated, [signal, Warning("session_resync_refresh_failed")])
        case Ok(captured) =>
          var snapshot := NormalizeRevision(captured, current);
          (RecordSnapshot(snapshot), [signal, InitialSnapshot(snapshot), Warning("session_state_recovered")])
  }

  /** Forwards one event to a session whose client asked for the diff stream. */
  method ForwardEvent(record: SessionRecord, event: BackendEvent, recapture: Result<Snapshot, string>, now: int)
    returns (messages: seq<ServerMessage>)
    modifies record, record.state
    ensures (record.View(), messages) == Forward(old(record.View()), event, recapture, now)
  {
    match event {
      case BackendWarning(code) =>
        messages := [Warning(code)];
      case BackendDiff(diff) =>
        var error := record.ApplyBatch(diff);
        if error.None? {
          return [DiffMessage(diff)];
        }
        var current := record.state.rev;
        var signal := DiffMessage(ResyncSignal(current, now, error.value));
        messages := [signal];
        match recapture {
          case Err(_) =>
            messages := messages + [Warning("session_resync_refresh_failed")];
            assert messages == [signal, Warning("session_resync_refresh_failed")];
          case Ok(captured) =>
            var snapshot := NormalizeRevision(captured, current);
            record.ApplySnapshot(snapshot);
            messages := messages + [InitialSnapshot(snapshot), Warning("session_state_recovered")];
            assert messages == [signal, InitialSnapshot(snapshot), Warning("session_state_recovered")];
        }
    }
  }

  // ------------------------------------------------------------------ the stream

  datatype PbMessage =
    | PbHelloAck
    | PbInitialSnapshot(snapshot: PbSnapshot)
    | PbDiffBatch(diff: PbDiff)
    | PbActionResult(answers: Ticket)
    | PbWarning(code: string)
    | PbOther

  ghost function Encode(message: ServerMessage): PbMessage {
    match message
    case HelloAck => PbHelloAck
    case InitialSnapshot(snapshot) => PbInitialSnapshot(EncodeSnapshot(snapshot))
    case DiffMessage(diff) => PbDiffBatch(EncodeDiff(diff))
    case ActionResult(answers) => PbActionResult(answers)
    case Warning(code) => PbWarning(code)
    case Other => PbOther
  }

  function Decode(message: PbMessage): Result<ServerMessage, ConvertError> {
    match message
    case PbHelloAck => Ok(HelloAck)
    case PbInitialSnapshot(snapshot) =>
      (match DecodeSnapshot(snapshot) case Ok(s) => Ok(InitialSnapshot(s)) case Err(e) => Err(e))
    case PbDiffBatch(diff) => (match DecodeDiff(diff) case Ok(d) => Ok(DiffMessage(d)) case Err(e) => Err(e))
    case PbActionResult(answers) => Ok(ActionResult(answers))
    case PbWarning(code) => Ok(Warning(code))
    case PbOther => Ok(Other)
  }

  function NormalMessage(message: ServerMessage): ServerMessage {
    match message
    case InitialSnapshot(snapshot) => InitialSnapshot(NormalSnapshot(snapshot))
    case DiffMessage(diff) => DiffMessage(NormalDiff(diff))
    case _ => message
  }

  /** No snapshot or diff batch the daemon encodes fails to decode; other payloads are opaque here. */
  lemma MessageRoundTrip(message: ServerMessage)
    ensures Decode(Encode(message)) == Ok(NormalMessage(message))
  {
    match message
    case InitialSnapshot(snapshot) => SnapshotRoundTrip(snapshot);
    case DiffMessage(diff) => DiffRoundTrip(diff);
    case _ =>
  }

  // -------------------------------------------------------------- the proxy side

  /** The proxy is starting up, live, or gave up on a message it could not decode. */
  datatype Proxy = Starting(seen: Startup) | Live(worker: WorkerState) | Stopped

  /** The proxy meets the next message of the stream. */
  function Meet(proxy: Proxy, message: PbMessage): Proxy {
    match Decode(message)
    case Err(_) => Stopped
    case Ok(decoded) =>
      match proxy
      case Stopped => Stopped
      case Live(worker) => Live(OnMessage(worker, decoded).0)
      case Starting(seen) =>
        var next := OnStartupMessage(seen, decoded);
        if next.Complete() then Live(OnConnect(NEW_WORKER, 0, next.snapshot.value, false)) else Starting(next)
  }

  // ------------------------------------------------------------------ the system

  datatype System = System(session: Record, inFlight: seq<PbMessage>, proxy: Proxy)

  datatype Step =
    | BackendActs(event: BackendEvent, recapture: Result<Snapshot, string>, now: int)
    | ActionAnswered(ticket: Ticket)
    | ProxyReceives

  ghost function EncodeAll(messages: seq<ServerMessage>): seq<PbMessage> {
    seq(|messages|, i requires 0 <= i < |messages| => Encode(messages[i]))
  }

  /** A session right after subscribing: acknowledged, its first snapshot sent. */
  ghost function Subscribed(first: Snapshot): System {
    System(RecordSnapshot(first), EncodeAll([HelloAck, InitialSnapshot(first)]), Starting(NOTHING_SEEN))
  }

  ghost function Take(system: System, step: Step): System {
    match step
    case BackendActs(event, recapture, now) =>
      var (session, messages) := Forward(system.session, event, recapture, now);
      System(session, system.inFlight + EncodeAll(messages), system.proxy)
    case ActionAnswered(ticket) => system.(inFlight := system.inFlight + EncodeAll([ActionResult(ticket)]))
    case ProxyReceives =>
      if system.inFlight == [] then system
      else System(system.session, system.inFlight[1..], Meet(system.proxy, system.inFlight[0]))
  }

  ghost function Run(system: System, steps: seq<Step>): System
    decreases steps
  {
    if steps == [] then system else Run(Take(system, steps[0]), steps[1..])
  }

  /** The proxy once it has met everything in flight. */
  ghost function Drained(proxy: Proxy, inFlight: seq<PbMessage>): Proxy
    decreases inFlight
  {
    if inFlight == [] then proxy else Drained(Meet(proxy, inFlight[0]), inFlight[1..])
  }

  /** Flagged for resync, or showing exactly what the session holds up to the wire. */
  ghost predicate FlaggedOrMirrors(session: Store, mirror: Store) {
    mirror.snapshot.Some? && (mirror.resync.Some? || Mirrors(session, mirror))
  }

  ghost predicate MirrorSafe(system: System) {
    var proxy := Drained(system.proxy, system.inFlight);
    && system.session.store.snapshot.Some?
    && proxy.Live?
    && FlaggedOrMirrors(system.session.store, proxy.worker.store)
  }

  lemma {:induction false} DrainAppend(proxy: Proxy, first: seq<PbMessage>, second: seq<PbMessage>)
    ensures Drained(proxy, first + second) == Drained(Drained(proxy, first), second)
    decreases first
  {
    if first == [] { assert first + second == second; }
    else {
      DrainAppend(Meet(proxy, first[0]), first[1..], second);
      assert (first + second)[1..] == first[1..] + second;
    }
  }

  /** A live proxy meeting what the daemon sent. */
  function MeetAll(store: Store, messages: seq<ServerMessage>): Store
    decreases messages
  {
    if messages == [] then store else MeetAll(MirrorStep(store, messages[0]), messages[1..])
  }

  function MirrorStep(store: Store, message: ServerMessage): Store {
    match message
    case InitialSnapshot(snapshot) => ReplaceSnapshot(NormalSnapshot(snapshot))
    case DiffMessage(diff) => ApplyDiff(store, NormalDiff(diff)).0
    case _ => store
  }

  lemma MeetCons(store: Store, message: ServerMessage, rest: seq<ServerMessage>)
    ensures MeetAll(store, [message] + rest) == MeetAll(MirrorStep(store, message), rest)
  {
    assert ([message] + rest)[1..] == rest;
  }

  lemma {:induction false} DrainLive(worker: WorkerState, messages: seq<ServerMessage>)
    ensures Drained(Live(worker), EncodeAll(messages)).Live?
    ensures Drained(Live(worker), EncodeAll(messages)).worker.store == MeetAll(worker.store, messages)
    decreases messages
  {
    if messages != [] {
      MessageRoundTrip(messages[0]);
      assert EncodeAll(messages)[1..] == EncodeAll(messages[1..]);
      DrainLive(OnMessage(worker, NormalMessage(messages[0])).0, messages[1..]);
    }
  }

  // ---------------------------------------------------------- store-level steps

  /** Only a snapshot lifts a resync flag. */
  lemma FlagSurvivesDiffs(store: Store, diff: DiffBatch)
    ensures store.resync.Some? ==> ApplyDiff(store, diff).0.resync.Some?
    ensures store.snapshot.Some? ==> ApplyDiff(store, diff).0.snapshot.Some?
  {
  }

  /** The signal flags a mirror in step, and any mirror out of step stays or gets flagged. */
  lemma SignalFlags(mirror: Store, current: Revision, now: int, error: StateError)
    requires mirror.snapshot.Some?
    ensures ApplyDiff(mirror, NormalDiff(ResyncSignal(current, now, error))).0.resync.Some?
    ensures ApplyDiff(mirror, NormalDiff(ResyncSignal(current, now, error))).0.snapshot.Some?
  {
    var signal := NormalDiff(ResyncSignal(current, now, error));
    assert signal.ops == [SnapshotResync(Rejected(error))];
  }

  ghost predicate WireSafeEvent(event: BackendEvent) {
    event.BackendDiff? ==> forall i | 0 <= i < |event.diff.ops| :: WireSafe(event.diff.ops[i])
  }

  /** Forwarding keeps the mirror flagged or in step: accepted, refused, recovered or not. */
  lemma ForwardKeepsMirror(record: Record, mirror: Store, event: BackendEvent, recapture: Result<Snapshot, string>, now: int)
    requires record.store.snapshot.Some? && FlaggedOrMirrors(record.store, mirror) && WireSafeEvent(event)
    ensures var (after, messages) := Forward(record, event, recapture, now);
      after.store.snapshot.Some? && FlaggedOrMirrors(after.store, MeetAll(mirror, messages))
  {
    if event.BackendDiff? {
      var diff := event.diff;
      var (updated, error) := RecordDiff(record, diff);
      var (after, messages) := Forward(record, event, recapture, now);
      if error.None? {
        assert messages[1..] == [];
        FlagSurvivesDiffs(mirror, NormalDiff(diff));
        if Mirrors(record.store, mirror) { AcceptedDiffIsMirrored(record.store, mirror, diff); }
      } else {
        RefusedEventReachesMirror(record, mirror, diff, recapture, now);
      }
    } else {
      assert [Warning(event.code)][1..] == [];
    }
  }

  /** After a refused diff the mirror is flagged, or recovered with the recaptured snapshot. */
  lemma RefusedEventReachesMirror(record: Record, mirror: Store, diff: DiffBatch, recapture: Result<Snapshot, string>,
                                  now: int)
    requires mirror.snapshot.Some? && RecordDiff(record, diff).1.Some?
    ensures var (after, messages) := Forward(record, BackendDiff(diff), recapture, now);
      var met := MeetAll(mirror, messages);
      && met.snapshot.Some?
      && (recapture.Err? ==> met.resync.Some?)
      && (recapture.Ok? ==> met.resync.None? && Mirrors(after.store, met))
  {
    var (updated, error) := RecordDiff(record, diff);
    var (after, messages) := Forward(record, BackendDiff(diff), recapture, now);
    var signal := messages[0];
    SignalFlags(mirror, updated.store.rev, now, error.value);
    var flagged := MirrorStep(mirror, signal);
    MeetCons(mirror, signal, messages[1..]);
    assert messages == [signal] + messages[1..];
    if recapture.Ok? {
      var snapshot := NormalizeRevision(recapture.value, updated.store.rev);
      SnapshotIsMirrored(snapshot);
      var last := Warning("session_state_recovered");
      assert messages[1..] == [InitialSnapshot(snapshot)] + [last];
      MeetCons(flagged, InitialSnapshot(snapshot), [last]);
      assert [last] == [last] + [];
      MeetCons(ReplaceSnapshot(NormalSnapshot(snapshot)), last, []);
    } else {
      var last := Warning("session_resync_refresh_failed");
      assert messages[1..] == [last] + [];
      MeetCons(flagged, last, []);
    }
  }

  // -------------------------------------------------------------- mirror safety

  lemma SubscribedIsSafe(first: Snapshot)
    ensures MirrorSafe(Subscribed(first))
    ensures Drained(Subscribed(first).proxy, Subscribed(first).inFlight).worker.store
         == ReplaceSnapshot(NormalSnapshot(first))
  {
    var messages := [HelloAck, InitialSnapshot(first)];
    var sent := EncodeAll(messages);
    MessageRoundTrip(HelloAck);
    MessageRoundTrip(InitialSnapshot(first));
    SnapshotIsMirrored(first);
    var acknowledged := Starting(Startup(true, None));
    assert Meet(Starting(NOTHING_SEEN), sent[0]) == acknowledged;
    var started := Meet(acknowledged, sent[1]);
    assert started.Live? && started.worker.store == ReplaceSnapshot(NormalSnapshot(first));
    assert Drained(acknowledged, sent[1..]) == Drained(started, sent[1..][1..]);
    assert sent[1..][1..] == [];
  }

  lemma StepKeepsMirrorSafe(system: System, step: Step)
    requires MirrorSafe(system) && (step.BackendActs? ==> WireSafeEvent(step.event))
    ensures MirrorSafe(Take(system, step))
  {
    var proxy := Drained(system.proxy, system.inFlight);
    match step
    case BackendActs(event, recapture, now) =>
      var (session, messages) := Forward(system.session, event, recapture, now);
      ForwardKeepsMirror(system.session, proxy.worker.store, event, recapture, now);
      DrainAppend(system.proxy, system.inFlight, EncodeAll(messages));
      DrainLive(proxy.worker, messages);
    case ActionAnswered(ticket) =>
      var messages := [ActionResult(ticket)];
      DrainAppend(system.proxy, system.inFlight, EncodeAll(messages));
      DrainLive(proxy.worker, messages);
      assert messages[1..] == [];
    case ProxyReceives =>
  }

  /**
   Over every run, through accepted, stale and half-failing diffs, failed and successful
   recaptures and any interleaving of sending and receiving: once the proxy has met
   everything sent so far, its store is flagged for resync or shows the session's revision
   and windows up to the wire.
   */
  lemma {:induction false} MirrorSafetyOverRuns(system: System, steps: seq<Step>)
    requires MirrorSafe(system)
    requires forall i | 0 <= i < |steps| && steps[i].BackendActs? :: WireSafeEvent(steps[i].event)
    ensures MirrorSafe(Run(system, steps))
    decreases steps
  {
    if steps != [] {
      StepKeepsMirrorSafe(system, steps[0]);
      MirrorSafetyOverRuns(Take(system, steps[0]), steps[1..]);
    }
  }

  /** Mirror safety from the very start, and in particular whenever the stream is empty. */
  lemma SubscribedRunsAreSafe(first: Snapshot, steps: seq<Step>)
    requires forall i | 0 <= i < |steps| && steps[i].BackendActs? :: WireSafeEvent(steps[i].event)
    ensures var system := Run(Subscribed(first), steps);
      && MirrorSafe(system)
      && (system.inFlight == [] ==>
            system.proxy.Live? && FlaggedOrMirrors(system.session.store, system.proxy.worker.store))
  {
    SubscribedIsSafe(first);
    MirrorSafetyOverRuns(Subscribed(first), steps);
  }

  /** No batch refused by the session, and none that asks for a resync itself. */
  ghost predicate QuietRun(system: System, steps: seq<Step>)
    decreases steps
  {
    steps != [] ==>
      && (steps[0].BackendActs? && steps[0].event.BackendDiff? ==>
        RecordDiff(system.session, steps[0].event.diff).1.None?
        && RequestedResync(steps[0].event.diff.ops).None?)
      && QuietRun(Take(system, steps[0]), steps[1..])
  }

  /** The flag has a cause: while no batch is refused, the mirror is never flagged and always in step. */
  lemma {:induction false} QuietRunsMirrorExactly(system: System, steps: seq<Step>)
    requires MirrorSafe(system) && Drained(system.proxy, system.inFlight).worker.store.resync.None?
    requires forall i | 0 <= i < |steps| && steps[i].BackendActs? :: WireSafeEvent(steps[i].event)
    requires QuietRun(system, steps)
    ensures MirrorSafe(Run(system, steps))
    ensures var after := Run(system, steps);
      var mirror := Drained(after.proxy, after.inFlight).worker.store;
      mirror.resync.None? && Mirrors(after.session.store, mirror)
    decreases steps
  {
    if steps != [] {
      var step := steps[0];
      var worker := Drained(system.proxy, system.inFlight).worker;
      StepKeepsMirrorSafe(system, step);
      if step.BackendActs? {
        var (session, messages) := Forward(system.session, step.event, step.recapture, step.now);
        DrainAppend(system.proxy, system.inFlight, EncodeAll(messages));
        DrainLive(worker, messages);
        assert messages[1..] == [];
        if step.event.BackendDiff? {
          AcceptedDiffIsMirrored(system.session.store, worker.store, step.event.diff);
          RequestedResyncSame(step.event.diff.ops);
        }
      } else if step.ActionAnswered? {
        var messages := [ActionResult(step.ticket)];
        DrainAppend(system.proxy, system.inFlight, EncodeAll(messages));
        DrainLive(worker, messages);
        assert messages[1..] == [];
      }
      QuietRunsMirrorExactly(Take(system, step), steps[1..]);
    }
  }

  /** Recovery works: a refused diff answered by a recapture leaves the mirror unflagged and in step. */
  lemma RecoveryRestoresMirror(system: System, diff: DiffBatch, captured: Snapshot, now: int)
    requires MirrorSafe(system) && RecordDiff(system.session, diff).1.Some?
    ensures var after := Take(system, BackendActs(BackendDiff(diff), Ok(captured), now));
      var proxy := Drained(after.proxy, after.inFlight);
      && proxy.Live? && proxy.worker.store.resync.None?
      && Mirrors(after.session.store, proxy.worker.store)
      && after.session.store.rev >= system.session.store.rev
      && after.session.store.snapshot.value.windows == captured.windows
  {
    var proxy := Drained(system.proxy, system.inFlight);
    var (session, messages) := Forward(system.session, BackendDiff(diff), Ok(captured), now);
    RefusedEventReachesMirror(system.session, proxy.worker.store, diff, Ok(captured), now);
    DrainAppend(system.proxy, system.inFlight, EncodeAll(messages));
    DrainLive(proxy.worker, messages);
  }

  // ------------------------------------------------------------- revision gaps

  /** A backend that numbers its diffs without gaps and recaptures at revision one. */
  ghost predicate Contiguous(event: BackendEvent, recapture: Result<Snapshot, string>, backendRev: Revision) {
    && (event.BackendDiff? ==> event.diff.baseRev == backendRev && event.diff.newRev == backendRev + 1)
    && (recapture.Ok? ==> recapture.value.rev == 1)
  }

  datatype Delivery = Delivery(event: BackendEvent, recapture: Result<Snapshot, string>, now: int)

  ghost predicate ContiguousRun(backendRev: Revision, deliveries: seq<Delivery>)
    decreases deliveries
  {
    deliveries != [] ==>
      && Contiguous(deliveries[0].event, deliveries[0].recapture, backendRev)
      && ContiguousRun(backendRev + (if deliveries[0].event.BackendDiff? then 1 else 0), deliveries[1..])
  }

  function SessionAfter(record: Record, deliveries: seq<Delivery>): Record
    decreases deliveries
  {
    if deliveries == [] then record
    else SessionAfter(Forward(record, deliveries[0].event, deliveries[0].recapture, deliveries[0].now).0, deliveries[1..])
  }

  function DiffsIn(deliveries: seq<Delivery>): nat {
    if deliveries == [] then 0 else (if deliveries[0].event.BackendDiff? then 1 else 0) + DiffsIn(deliveries[1..])
  }

  /** How often a diff was refused and the recapture failed. */
  function FailedRecoveries(record: Record, deliveries: seq<Delivery>): nat
    decreases deliveries
  {
    if deliveries == [] then 0
    else
      var d := deliveries[0];
      (if d.event.BackendDiff? && RecordDiff(record, d.event.diff).1.Some? && d.recapture.Err? then 1 else 0)
      + FailedRecoveries(Forward(record, d.event, d.recapture, d.now).0, deliveries[1..])
  }

  /** Some diff of the run met a session at another revision. */
  ghost predicate MeetsStale(record: Record, deliveries: seq<Delivery>)
    decreases deliveries
  {
    deliveries != [] &&
    var d := deliveries[0];
    || (d.event.BackendDiff? && RecordDiff(record, d.event.diff).1.Some?
        && RecordDiff(record, d.event.diff).1.value.StaleDiff?)
    || MeetsStale(Forward(record, d.event, d.recapture, d.now).0, deliveries[1..])
  }

  /** What one delivery does to a session that is level with the backend or behind it. */
  lemma OneDelivery(record: Record, backendRev: Revision, d: Delivery)
    requires record.store.snapshot.Some? && 1 <= record.store.rev <= backendRev < MAX_REVISION
    requires Contiguous(d.event, d.recapture, backendRev) && d.event.BackendDiff?
    ensures var next := Forward(record, d.event, d.recapture, d.now).0;
      var refused := RecordDiff(record, d.event.diff).1;
      && next.store.snapshot.Some?
      && next.store.rev == record.store.rev + (if refused.Some? && d.recapture.Err? then 0 else 1)
      && (refused.Some? && refused.value.StaleDiff? <==> record.store.rev < backendRev)
  {
    OpErrorsAreNotStale(record.store.snapshot.value.windows, d.event.diff.ops);
  }

  lemma {:induction false} OpErrorsAreNotStale(windows: seq<WindowState>, ops: seq<DiffOp>)
    ensures var e := ApplyOps(windows, ops).error;
      e.Some? ==> e.value.MissingWindow? || e.value.MissingElement? || e.value.InvalidPropertyUpdate?
    decreases ops
  {
    if ops != [] {
      OpErrorKinds(windows, ops[0]);
      OpErrorsAreNotStale(ApplyOp(windows, ops[0]).windows, ops[1..]);
    }
  }

  lemma OpErrorKinds(windows: seq<WindowState>, op: DiffOp)
    ensures var e := ApplyOp(windows, op).error;
      e.Some? ==> e.value.MissingWindow? || e.value.MissingElement? || e.value.InvalidPropertyUpdate?
  {
    match op
    case NodeAdded(id, node) => EditErrorKinds(windows, id, AttachChild(node));
    case PropertyChanged(id, field, value) => EditErrorKinds(windows, id, SetProperty(field, value));
    case FocusChanged(id, focus) => FocusErrorKinds(windows, id, focus);
    case _ =>
  }

  lemma {:induction false} NodeErrorKinds(node: ElementNode, id: ElementId, edit: NodeEdit)
    ensures EditNode(node, id, edit).Refused? ==> EditNode(node, id, edit).error.InvalidPropertyUpdate?
    decreases node, 1
  {
    if node.elementId != id { ForestErrorKinds(node.children, id, edit); }
  }

  lemma {:induction false} ForestErrorKinds(nodes: seq<ElementNode>, id: ElementId, edit: NodeEdit)
    ensures EditForest(nodes, id, edit).Refused? ==> EditForest(nodes, id, edit).error.InvalidPropertyUpdate?
    decreases nodes, 0
  {
    if nodes != [] {
      NodeErrorKinds(nodes[0], id, edit);
      ForestErrorKinds(nodes[1..], id, edit);
    }
  }

  lemma {:induction false} EditErrorKinds(windows: seq<WindowState>, id: ElementId, edit: NodeEdit)
    ensures EditWindows(windows, id, edit).Refused? ==> EditWindows(windows, id, edit).error.InvalidPropertyUpdate?
  {
    if windows != [] {
      NodeErrorKinds(windows[0].root, id, edit);
      EditErrorKinds(windows[1..], id, edit);
    }
  }

  lemma {:induction false} FocusErrorKinds(windows: seq<WindowState>, id: WindowId, focus: Option<ElementId>)
    ensures var e := ChangeFocus(windows, id, focus).error;
      e.Some? ==> e.value.MissingWindow? || e.value.MissingElement? || e.value.InvalidPropertyUpdate?
  {
    if windows != [] {
      if focus.Some? { NodeErrorKinds(Trees.ClearFocus(windows[0].root), focus.value, SetFocused); }
      FocusErrorKinds(windows[1..], id, focus);
    }
  }

  /**
   With a contiguous backend the gap between the last consumed revision and the session's
   grows by exactly one per failed recovery and never closes: starting level, the gap is the
   number of failed recoveries.
   */
  lemma {:induction false} RevisionGapLaw(record: Record, backendRev: Revision, deliveries: seq<Delivery>)
    requires record.store.snapshot.Some? && 1 <= record.store.rev <= backendRev
    requires backendRev + |deliveries| < MAX_REVISION && ContiguousRun(backendRev, deliveries)
    ensures var after := SessionAfter(record, deliveries);
      && after.store.snapshot.Some?
      && (backendRev + DiffsIn(deliveries)) - after.store.rev
         == (backendRev - record.store.rev) + FailedRecoveries(record, deliveries)
    decreases deliveries
  {
    if deliveries != [] {
      var d := deliveries[0];
      if d.event.BackendDiff? { OneDelivery(record, backendRev, d); }
      RevisionGapLaw(Forward(record, d.event, d.recapture, d.now).0,
                     backendRev + (if d.event.BackendDiff? then 1 else 0), deliveries[1..]);
    }
  }

  /** Some recovery of the run fails while a diff is still to come. */
  ghost predicate DiffAfterFailure(record: Record, deliveries: seq<Delivery>)
    decreases deliveries
  {
    deliveries != [] &&
    var d := deliveries[0];
    || (d.event.BackendDiff? && RecordDiff(record, d.event.diff).1.Some? && d.recapture.Err?
        && DiffsIn(deliveries[1..]) > 0)
    || DiffAfterFailure(Forward(record, d.event, d.recapture, d.now).0, deliveries[1..])
  }

  lemma {:induction false} BehindMeetsStale(record: Record, backendRev: Revision, deliveries: seq<Delivery>)
    requires record.store.snapshot.Some? && 1 <= record.store.rev < backendRev
    requires backendRev + |deliveries| < MAX_REVISION && ContiguousRun(backendRev, deliveries)
    ensures MeetsStale(record, deliveries) <==> DiffsIn(deliveries) > 0
    ensures DiffAfterFailure(record, deliveries) ==> DiffsIn(deliveries) > 0
    decreases deliveries
  {
    if deliveries != [] {
      var d := deliveries[0];
      if d.event.BackendDiff? { OneDelivery(record, backendRev, d); }
      BehindMeetsStale(Forward(record, d.event, d.recapture, d.now).0,
                       backendRev + (if d.event.BackendDiff? then 1 else 0), deliveries[1..]);
    }
  }

  /** A level session meets a stale diff if and only if a recovery fails with a diff still to come. */
  lemma {:induction false} StaleIffRecoveryFailed(record: Record, backendRev: Revision, deliveries: seq<Delivery>)
    requires record.store.snapshot.Some? && 1 <= record.store.rev == backendRev
    requires backendRev + |deliveries| < MAX_REVISION && ContiguousRun(backendRev, deliveries)
    ensures MeetsStale(record, deliveries) <==> DiffAfterFailure(record, deliveries)
    decreases deliveries
  {
    if deliveries != [] {
      var d := deliveries[0];
      var next := Forward(record, d.event, d.recapture, d.now).0;
      if d.event.BackendDiff? {
        OneDelivery(record, backendRev, d);
        if next.store.rev == backendRev + 1 {
          StaleIffRecoveryFailed(next, backendRev + 1, deliveries[1..]);
        } else {
          BehindMeetsStale(next, backendRev + 1, deliveries[1..]);
        }
      } else {
        StaleIffRecoveryFailed(next, backendRev, deliveries[1..]);
      }
    }
  }

  /** Once a gap has opened, every later diff is stale and forces another full capture. */
  lemma {:induction false} OpenGapMakesEveryDiffStale(record: Record, backendRev: Revision, deliveries: seq<Delivery>, k: nat)
    requires record.store.snapshot.Some? && 1 <= record.store.rev < backendRev
    requires backendRev + |deliveries| < MAX_REVISION && ContiguousRun(backendRev, deliveries)
    requires k < |deliveries| && deliveries[k].event.BackendDiff?
    ensures var met := SessionAfter(record, deliveries[..k]);
      RecordDiff(met, deliveries[k].event.diff).1
        == Some(StaleDiff(met.store.rev, backendRev + DiffsIn(deliveries[..k])))
    decreases deliveries
  {
    if k > 0 {
      var d := deliveries[0];
      var next := Forward(record, d.event, d.recapture, d.now).0;
      OpenGapMakesEveryDiffStale(next, backendRev + (if d.event.BackendDiff? then 1 else 0), deliveries[1..], k - 1);
      assert deliveries[..k][1..] == deliveries[1..][..k - 1];
    }
  }
}
