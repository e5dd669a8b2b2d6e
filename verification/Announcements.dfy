/**
 What the client is told: which warnings cross the stream, and that lost continuity reaches
 the proxy exactly when it was lost.
 */
module Announcements {
  import opened Wrappers
  import opened Domain
  import opened Resync
  import opened Worker
  import StateStore

  const RECOVERED := "session_state_recovered"
  const REFRESH_FAILED := "session_resync_refresh_failed"

  /** What the daemon puts on the stream in a step. */
  function SentIn(system: System, step: Step): seq<ServerMessage> {
    match step
    case BackendActs(event, recapture, now) => Forward(system.session, event, recapture, now).1
    case ActionAnswered(ticket) => [ActionResult(ticket)]
    case ProxyReceives => []
  }

  /** The live proxy's state after meeting the messages. */
  function WorkerMeets(worker: WorkerState, messages: seq<ServerMessage>): WorkerState
    decreases messages
  {
    if messages == [] then worker else WorkerMeets(OnMessage(worker, NormalMessage(messages[0])).0, messages[1..])
  }

  lemma {:induction false} DrainWorker(worker: WorkerState, messages: seq<ServerMessage>)
    ensures Drained(Live(worker), EncodeAll(messages)) == Live(WorkerMeets(worker, messages))
    decreases messages
  {
    if messages != [] {
      MessageRoundTrip(messages[0]);
      assert EncodeAll(messages)[1..] == EncodeAll(messages[1..]);
      DrainWorker(OnMessage(worker, NormalMessage(messages[0])).0, messages[1..]);
    }
  }

  /** A step adds what was sent to what the proxy has still to meet. */
  lemma DrainedAfter(system: System, step: Step)
    requires Drained(system.proxy, system.inFlight).Live?
    ensures Drained(Take(system, step).proxy, Take(system, step).inFlight)
      == Live(WorkerMeets(Drained(system.proxy, system.inFlight).worker, SentIn(system, step)))
  {
    var worker := Drained(system.proxy, system.inFlight).worker;
    if !step.ProxyReceives? {
      DrainAppend(system.proxy, system.inFlight, EncodeAll(SentIn(system, step)));
      DrainWorker(worker, SentIn(system, step));
    }
  }

  // ------------------------------------------------------------------ continuity

  /** The worker is told of a recovery by one of the messages. */
  predicate Announces(messages: seq<ServerMessage>) {
    Warning(RECOVERED) in messages
  }

  lemma {:induction false} ContinuityOf(worker: WorkerState, messages: seq<ServerMessage>)
    ensures WorkerMeets(worker, messages).continuityInvalidated <==>
      worker.continuityInvalidated || Announces(messages)
    decreases messages
  {
    if messages != [] {
      ContinuityOf(OnMessage(worker, NormalMessage(messages[0])).0, messages[1..]);
      assert messages == [messages[0]] + messages[1..];
    }
  }

  /** The session refuses a diff and is recaptured. */
  predicate Recovers(system: System, step: Step) {
    && step.BackendActs? && step.event.BackendDiff? && step.recapture.Ok?
    && StateStore.RecordDiff(system.session, step.event.diff).1.Some?
  }

  /** The session loses continuity, or the backend says that it did. */
  predicate LosesContinuity(system: System, step: Step) {
    Recovers(system, step) || (step.BackendActs? && step.event == BackendWarning(RECOVERED))
  }

  lemma AnnouncedIff(system: System, step: Step)
    ensures Announces(SentIn(system, step)) <==> LosesContinuity(system, step)
  {
    if Recovers(system, step) {
      var sent := SentIn(system, step);
      assert sent[2] == Warning(RECOVERED);
    }
  }

  /** A successful recovery reaches the client as lost continuity. */
  lemma RecoveryIsAnnounced(system: System, diff: DiffBatch, captured: Snapshot, now: int)
    requires MirrorSafe(system) && StateStore.RecordDiff(system.session, diff).1.Some?
    ensures var after := Take(system, BackendActs(BackendDiff(diff), Ok(captured), now));
      var proxy := Drained(after.proxy, after.inFlight);
      proxy.Live? && proxy.worker.continuityInvalidated
  {
    var step := BackendActs(BackendDiff(diff), Ok(captured), now);
    DrainedAfter(system, step);
    ContinuityOf(Drained(system.proxy, system.inFlight).worker, SentIn(system, step));
    AnnouncedIff(system, step);
  }

  ghost predicate LosesContinuityIn(system: System, steps: seq<Step>, k: nat)
    requires k < |steps|
  {
    LosesContinuity(Run(system, steps[..k]), steps[k])
  }

  lemma {:induction false} RunSnoc(system: System, steps: seq<Step>)
    requires steps != []
    ensures Run(system, steps) == Take(Run(system, steps[..|steps| - 1]), steps[|steps| - 1])
    decreases steps
  {
    if |steps| > 1 {
      RunSnoc(Take(system, steps[0]), steps[1..]);
      assert steps[1..][..|steps| - 2] == steps[..|steps| - 1][1..];
    } else {
      assert steps == [steps[0]] && steps[1..] == [] && steps[..0] == [];
    }
  }

  /**
   Over every run: once it has met everything sent, the proxy marks continuity as lost if and
   only if it did before, or at some step the session was recovered from a capture or the
   backend itself announced that.
   */
  lemma {:induction false} ContinuityIsTold(system: System, steps: seq<Step>)
    requires Drained(system.proxy, system.inFlight).Live?
    ensures var after := Run(system, steps);
      var proxy := Drained(after.proxy, after.inFlight);
      && proxy.Live?
      && (proxy.worker.continuityInvalidated <==>
            || Drained(system.proxy, system.inFlight).worker.continuityInvalidated
            || exists k | 0 <= k < |steps| :: LosesContinuityIn(system, steps, k))
    decreases |steps|
  {
    if steps != [] {
      var n := |steps| - 1;
      var before := Run(system, steps[..n]);
      ContinuityIsTold(system, steps[..n]);
      RunSnoc(system, steps);
      DrainedAfter(before, steps[n]);
      ContinuityOf(Drained(before.proxy, before.inFlight).worker, SentIn(before, steps[n]));
      AnnouncedIff(before, steps[n]);
      OneMoreLoss(system, steps);
    }
  }

  lemma OneMoreLoss(system: System, steps: seq<Step>)
    requires steps != []
    ensures var n := |steps| - 1;
      (exists k | 0 <= k < |steps| :: LosesContinuityIn(system, steps, k)) <==>
        || LosesContinuityIn(system, steps, n)
        || exists k | 0 <= k < n :: LosesContinuityIn(system, steps[..n], k)
  {
    var n := |steps| - 1;
    var before := steps[..n];
    forall k | 0 <= k < n ensures LosesContinuityIn(system, steps, k) <==> LosesContinuityIn(system, before, k) {
      assert before[..k] == steps[..k];
    }
    if k :| 0 <= k < n && LosesContinuityIn(system, before, k) { assert LosesContinuityIn(system, steps, k); }
  }

  /** From the subscription on the mark has no other cause. */
  lemma SubscribedContinuity(first: Snapshot, steps: seq<Step>)
    ensures var after := Run(Subscribed(first), steps);
      var proxy := Drained(after.proxy, after.inFlight);
      && proxy.Live?
      && (proxy.worker.continuityInvalidated <==>
            exists k | 0 <= k < |steps| :: LosesContinuityIn(Subscribed(first), steps, k))
  {
    SubscribedWorker(first);
    ContinuityIsTold(Subscribed(first), steps);
  }

  lemma SubscribedWorker(first: Snapshot)
    ensures var proxy := Drained(Subscribed(first).proxy, Subscribed(first).inFlight);
      proxy.Live? && !proxy.worker.continuityInvalidated
  {
    var sent := EncodeAll([HelloAck, InitialSnapshot(first)]);
    MessageRoundTrip(HelloAck);
    MessageRoundTrip(InitialSnapshot(first));
    var acknowledged := Meet(Starting(NOTHING_SEEN), sent[0]);
    var started := Meet(acknowledged, sent[1]);
    assert acknowledged == Starting(Startup(true, None));
    assert Drained(acknowledged, sent[1..]) == Drained(started, sent[1..][1..]);
    assert sent[1..][1..] == [];
  }

  // -------------------------------------------------------------------- warnings

  /** The codes of the warnings among the messages. */
  function Codes(messages: seq<ServerMessage>): seq<string> {
    if messages == [] then []
    else (if messages[0].Warning? then [messages[0].code] else []) + Codes(messages[1..])
  }

  /** The warnings due in a step: the backend's own, and how a refusal was dealt with. */
  function DueCodes(system: System, step: Step): seq<string> {
    if !step.BackendActs? then []
    else if step.event.BackendWarning? then [step.event.code]
    else if StateStore.RecordDiff(system.session, step.event.diff).1.None? then []
    else if step.recapture.Ok? then [RECOVERED]
    else [REFRESH_FAILED]
  }

  lemma CodesOfThree(a: ServerMessage, b: ServerMessage, c: ServerMessage)
    ensures Codes([a, b, c]) == Codes([a]) + Codes([b]) + Codes([c])
    ensures Codes([a, b]) == Codes([a]) + Codes([b])
  {
    assert [a, b, c][1..] == [b, c] && [b, c][1..] == [c] && [a, b][1..] == [b];
    assert [a][1..] == [] && [b][1..] == [] && [c][1..] == [];
  }

  /** Exactly the warnings that are due are sent, each once. */
  lemma WarningsAreDue(system: System, step: Step)
    ensures Codes(SentIn(system, step)) == DueCodes(system, step)
  {
    var sent := SentIn(system, step);
    if |sent| == 1 { assert sent[1..] == []; }
    if |sent| == 2 { assert sent == [sent[0], sent[1]]; CodesOfThree(sent[0], sent[1], sent[1]); }
    if |sent| == 3 { assert sent == [sent[0], sent[1], sent[2]]; CodesOfThree(sent[0], sent[1], sent[2]); }
  }

  // -------------------------------------------------------------------- refusals

  /** The signal asks for a resync with the error as its reason, between the session's revision and the next. */
  predicate SignalsRefusal(message: ServerMessage, rev: Revision, error: StateError) {
    && message.DiffMessage?
    && message.diff.baseRev == rev && message.diff.newRev == NextRevision(rev)
    && message.diff.ops == [SnapshotResync(Rejected(error))]
  }

  /**
   A refusal is signalled first; then follows the recovered snapshot, if there is one, before
   the warning that announces it. Its revision is the captured one or the session's next,
   whichever is greater.
   */
  lemma RefusalIsSignalled(system: System, diff: DiffBatch, recapture: Result<Snapshot, string>, now: int)
    requires StateStore.RecordDiff(system.session, diff).1.Some?
    ensures var step := BackendActs(BackendDiff(diff), recapture, now);
      var sent := SentIn(system, step);
      var rev := system.session.store.rev;
      && sent != [] && SignalsRefusal(sent[0], rev, StateStore.RecordDiff(system.session, diff).1.value)
      && (recapture.Ok? ==>
            && |sent| == 3 && sent[1].InitialSnapshot? && sent[2] == Warning(RECOVERED)
            && sent[1].snapshot == recapture.value.(rev := Greater(recapture.value.rev, NextRevision(rev)))
            && Take(system, step).session.store == StateStore.ReplaceSnapshot(sent[1].snapshot))
      && (recapture.Err? ==> |sent| == 2 && sent[1] == Warning(REFRESH_FAILED))
  {
  }

  function Greater(a: Revision, b: Revision): Revision {
    if a >= b then a else b
  }
}
