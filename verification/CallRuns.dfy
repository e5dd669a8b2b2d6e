/**
 How single calls run: a mutating call never opens a stream, fails at once on a lost one, and
 calls on an intact stream complete.
 */
module CallRuns {
  import opened Wrappers
  import opened Domain
  import opened ActionSlot

  /** A mutating call is under way. */
  predicate Mutating(caller: Caller) {
    !caller.Idle? && !caller.call.readOnly
  }

  /** Streams are opened, and counted as reconnects, by read-only calls only. */
  lemma OnlyReadsOpenStreams(system: System, step: Step)
    requires Take(system, step).nextStream != system.nextStream
      || Take(system, step).worker.reconnectCount != system.worker.reconnectCount
    ensures !system.caller.Idle? && system.caller.call.readOnly && step.Connect? && step.snapshot.Some?
    ensures Take(system, step).nextStream == system.nextStream + 1
    ensures Take(system, step).worker.reconnectCount == system.worker.reconnectCount + 1
  {
  }

  /** A call keeps its kind for as long as it runs. */
  lemma CallKeepsKind(system: System, step: Step)
    requires step != Begin(true) && (system.caller.Idle? || Mutating(system.caller))
    ensures Take(system, step).caller.Idle? || Mutating(Take(system, step).caller)
  {
  }

  /** Over every run of mutating calls alone no stream is opened, whatever happens to the one there is. */
  lemma {:induction false} MutatingRunsOpenNoStream(system: System, steps: seq<Step>)
    requires Begin(true) !in steps && (system.caller.Idle? || Mutating(system.caller))
    ensures Run(system, steps).nextStream == system.nextStream
    ensures Run(system, steps).worker.reconnectCount == system.worker.reconnectCount
    decreases steps
  {
    if steps != [] {
      var next := Take(system, steps[0]);
      assert steps[0] in steps && forall s | s in steps[1..] :: s in steps;
      CallKeepsKind(system, steps[0]);
      if next.nextStream != system.nextStream || next.worker.reconnectCount != system.worker.reconnectCount {
        OnlyReadsOpenStreams(system, steps[0]);
      }
      MutatingRunsOpenNoStream(next, steps[1..]);
    }
  }

  // ----------------------------------------------------------------- lost streams

  const MUTATING := Call(false, 0, 0)

  /** No stream, nothing waiting in the slot, nothing outstanding. */
  predicate Lost(system: System) {
    && !system.worker.connected && system.worker.reader.None? && system.worker.outbound.None?
    && system.worker.pending.None? && Outstanding(system) == []
  }

  /** The stream's end and `close` disconnect, empty the slot and drop what was under way. */
  lemma LostStreamDisconnects(system: System, step: Step)
    requires step.CloseSession? || (step.StreamEnds? && system.worker.reader.Some?)
    ensures var after := Take(system, step);
      && Lost(after)
      && after.nextStream == system.nextStream && after.outcomes == system.outcomes
  {
  }

  /** A mutating call has begun on a lost stream and has not looked yet. */
  predicate Unaware(system: System, log: seq<Outcome>) {
    && system.caller == AtLoopTop(MUTATING)
    && !system.worker.connected && system.worker.reader.None? && system.worker.pending.None?
    && system.outcomes == log && Outstanding(system) == []
  }

  /** Looking ends it; nothing else touches it. */
  lemma UnawareStep(system: System, log: seq<Outcome>, step: Step)
    requires Unaware(system, log)
    ensures step.CheckConnected? ==>
      Take(system, step).caller.Idle? && Take(system, step).outcomes == log + [GaveUp(MUTATING)]
      && Outstanding(Take(system, step)) == []
    ensures !step.CheckConnected? ==> Unaware(Take(system, step), log)
  {
    assert system.answers == [] && system.requests == [];
  }

  lemma OutcomesExtend(system: System, step: Step)
    ensures system.outcomes <= Take(system, step).outcomes
  {
  }

  lemma {:induction false} OutcomesGrow(system: System, steps: seq<Step>)
    ensures system.outcomes <= Run(system, steps).outcomes
    decreases steps
  {
    if steps != [] {
      OutcomesExtend(system, steps[0]);
      OutcomesGrow(Take(system, steps[0]), steps[1..]);
    }
  }

  lemma {:induction false} UnawareRuns(system: System, log: seq<Outcome>, steps: seq<Step>)
    requires Unaware(system, log)
    ensures CheckConnected !in steps ==> Unaware(Run(system, steps), log)
    ensures CheckConnected in steps ==> log + [GaveUp(MUTATING)] <= Run(system, steps).outcomes
    decreases steps
  {
    if steps != [] {
      var next := Take(system, steps[0]);
      assert forall s :: s in steps <==> s == steps[0] || s in steps[1..];
      UnawareStep(system, log, steps[0]);
      if steps[0].CheckConnected? { OutcomesGrow(next, steps[1..]); }
      else { UnawareRuns(next, log, steps[1..]); }
    }
  }

  /** A lost stream stays lost until a read-only call opens another. */
  lemma LostUntilReopened(system: System, step: Step)
    requires Lost(system)
    ensures Lost(Take(system, step)) || Take(system, step).nextStream > system.nextStream
  {
    assert system.answers == [] && system.requests == [];
  }

  /**
   Continuity is not papered over: a mutating call that begins after the stream was lost is
   never sent. Over every run it gives up at its first look at the connection, with nothing
   sent, and until then nothing is outstanding for it.
   */
  lemma LostMutatingCallGivesUp(system: System, steps: seq<Step>)
    requires system.caller.Idle? && Lost(system)
    ensures var after := Run(Take(system, Begin(false)), steps);
      && (CheckConnected in steps ==>
            |after.outcomes| > |system.outcomes| && after.outcomes[|system.outcomes|] == GaveUp(MUTATING))
      && (CheckConnected !in steps ==> after.outcomes == system.outcomes && Outstanding(after) == [])
  {
    UnawareRuns(Take(system, Begin(false)), system.outcomes, steps);
    if CheckConnected in steps {
      assert (system.outcomes + [GaveUp(MUTATING)])[|system.outcomes|] == GaveUp(MUTATING);
    }
  }

  // ------------------------------------------------------------- endings of calls

  /** A failed call ends, unless it is the first attempt of a read-only one; that may end by failing to reconnect. */
  lemma FailedCallEnds(system: System)
    requires system.caller.Failed?
    ensures Take(system, GiveUp) ==
      (if MayRetry(system.caller.call) then system else End(system, GaveUp(system.caller.call)))
    ensures MayRetry(system.caller.call) ==>
      Take(system, Connect(None)) == End(system, GaveUp(system.caller.call))
    ensures !MayRetry(system.caller.call) ==> forall s :: Take(system, Connect(s)) == system
  {
  }

  /** A read-only call on a lost stream reconnects, or gives up if it cannot; it does not go on without. */
  lemma LostReadReconnects(system: System, snapshot: Option<Snapshot>)
    requires system.caller.AtLoopTop? && !system.worker.connected && system.caller.call.readOnly
    ensures Take(system, CheckConnected) == system
    ensures var after := Take(system, Connect(snapshot));
      if snapshot.Some?
      then after.caller == Ready(system.caller.call) && after.worker.connected
           && after.nextStream == system.nextStream + 1 && after.worker.continuityInvalidated
      else after.caller.Idle? && after.outcomes == system.outcomes + [GaveUp(system.caller.call)]
  {
  }

  /** A call up to its turn in the slot. */
  function Placing(system: System, readOnly: bool): System {
    Take(Take(Take(system, Begin(readOnly)), CheckConnected), Place)
  }

  /** From the slot to the answer. */
  function Answering(system: System): System {
    Take(Take(Take(Take(system, Send(true)), DaemonAnswers), ReaderReads), TakeMail)
  }

  lemma ConnectedCallIsPlaced(system: System, readOnly: bool)
    requires Inv(system) && system.caller.Idle? && system.worker.connected && system.worker.pending.None?
    ensures var after := Placing(system, readOnly);
      && after.worker == system.worker.(pending := Some(system.nextTicket))
      && after.caller == SlotTaken(Call(readOnly, 0, 0), system.nextTicket, system.worker.outbound.value)
      && after.outcomes == system.outcomes && after.mail.None? && after.requests == [] && after.answers == []
  {
    assert Outstanding(system) == [];
  }

  lemma SentCallIsAnswered(system: System)
    requires system.caller.SlotTaken? && system.mail.None? && system.requests == [] && system.answers == []
    requires system.worker.pending == Some(system.caller.ticket) && system.worker.reader == Some(system.caller.stream)
    ensures var call, ticket := system.caller.call, system.caller.ticket;
      var after := Answering(system);
      && after.caller.Idle? && after.worker.pending.None? && Outstanding(after) == []
      && after.outcomes == system.outcomes + [Completed(call.(sends := call.sends + 1), ticket, ticket)]
  {
    var ticket := system.caller.ticket;
    var sent := Take(system, Send(true));
    assert sent.requests == [ticket];
    var answered := Take(sent, DaemonAnswers);
    assert answered.answers == [ticket] && answered.requests == [];
    var read := Take(answered, ReaderReads);
    assert read.mail == Some(Answer(ticket)) && read.answers == [];
  }

  /** On an intact stream with a free slot a call of either kind is sent once and completes with its own answer. */
  lemma ConnectedCallCompletes(system: System, readOnly: bool)
    requires Inv(system) && system.caller.Idle? && system.worker.connected && system.worker.pending.None?
    ensures var after := Answering(Placing(system, readOnly));
      && after.caller.Idle? && after.worker.pending.None? && Outstanding(after) == []
      && after.outcomes == system.outcomes + [Completed(Call(readOnly, 0, 1), system.nextTicket, system.nextTicket)]
  {
    ConnectedCallIsPlaced(system, readOnly);
    SentCallIsAnswered(Placing(system, readOnly));
  }

  /** When the stream breaks under a waiting call, the call learns of it. */
  lemma BrokenStreamFailsTheCall(system: System)
    requires Inv(system) && system.caller.Awaiting? && system.worker.pending.Some? && system.worker.reader.Some?
    ensures var after := Take(Take(system, StreamEnds), TakeMail);
      after.caller == Failed(system.caller.call) && !after.worker.connected && after.outcomes == system.outcomes
  {
  }
}
