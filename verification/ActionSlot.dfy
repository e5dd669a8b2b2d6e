/**
 One unlabelled slot matches action results to requests. The system below runs
 `execute_action` step by step against the reader loop, a daemon that answers each stream's
 requests once and in order, timeouts, broken streams, reconnects and `close`.
 */
module ActionSlot {
  import opened Wrappers
  import opened Domain
  import opened Worker

  // ------------------------------------------------------------------ the caller

  /** One call of `execute_action`: how often it may still retry and how often it sent its request. */
  datatype Call = Call(readOnly: bool, attempt: nat, sends: nat)

  /** Where the holder of the action lock stands. */
  datatype Caller =
    | Idle
    | AtLoopTop(call: Call)
    | Ready(call: Call)
    | SlotTaken(call: Call, ticket: Ticket, stream: StreamId)
    | Awaiting(call: Call, ticket: Ticket)
    | Failed(call: Call)

  /** What arrived on the caller's one-shot channel. */
  datatype Mail = Answer(of: Ticket) | Failure

  /** How calls ended: with the answer to some request, or with an error. */
  datatype Outcome = Completed(call: Call, ticket: Ticket, answerOf: Ticket) | GaveUp(call: Call)

  datatype System = System(
    worker: WorkerState,
    caller: Caller,
    mail: Option<Mail>,
    requests: seq<Ticket>,   // sent on the reader's stream, not yet answered
    answers: seq<Ticket>,    // answered on the reader's stream, not yet read
    nextTicket: Ticket,
    nextStream: StreamId,
    outcomes: seq<Outcome>)

  /** A session right after `open`: connected to its first stream, no call yet. */
  function Opened(snapshot: Snapshot): System {
    System(OnConnect(NEW_WORKER, 0, snapshot, false), Idle, None, [], [], 0, 1, [])
  }

  datatype Step =
    | Begin(readOnly: bool)
    | CheckConnected
    | Connect(snapshot: Option<Snapshot>)
    | Place
    | EncodeFails
    | Send(delivered: bool)
    | DaemonAnswers
    | ReaderReads
    | ReaderReadsOther(message: ServerMessage)
    | StreamEnds
    | TakeMail
    | TimeOut
    | GiveUp
    | CloseSession

  /** The ticket whose one-shot receiver is still alive. */
  function LiveTicket(caller: Caller): Option<Ticket> {
    match caller
    case SlotTaken(_, ticket, _) => Some(ticket)
    case Awaiting(_, ticket) => Some(ticket)
    case _ => None
  }

  /** A sender fires; only a live receiver notices. */
  function Deliver(system: System, to: Option<Ticket>, mail: Mail): System {
    if to.Some? && to == LiveTicket(system.caller) then system.(mail := Some(mail)) else system
  }

  function End(system: System, outcome: Outcome): System {
    system.(caller := Idle, mail := None, outcomes := system.outcomes + [outcome])
  }

  /** The error path of a call: read-only calls reconnect once, others give up. */
  function Fail(system: System, call: Call): System {
    system.(caller := Failed(call), mail := None)
  }

  predicate MayRetry(call: Call) {
    call.readOnly && call.attempt == 0
  }

  /** A connection attempt by the lock holder, from the loop top or after a failed read-only attempt. */
  function Reconnect(system: System, call: Call, snapshot: Option<Snapshot>, next: Caller): System {
    match snapshot
    case None => End(system, GaveUp(call))
    case Some(s) =>
      system.(worker := OnConnect(system.worker, system.nextStream, s, true), nextStream := system.nextStream + 1,
              requests := [], answers := [], caller := next, mail := None)
  }

  /** One step; a step that does not apply where the system stands changes nothing. */
  function Take(system: System, step: Step): System {
    match step
    case Begin(readOnly) =>
      if system.caller.Idle? then system.(caller := AtLoopTop(Call(readOnly, 0, 0))) else system
    case CheckConnected =>
      if system.caller.AtLoopTop? && system.worker.connected then system.(caller := Ready(system.caller.call))
      else if system.caller.AtLoopTop? && !system.caller.call.readOnly then End(system, GaveUp(system.caller.call))
      else system
    case Connect(snapshot) =>
      if system.caller.AtLoopTop? && !system.worker.connected && system.caller.call.readOnly then
        Reconnect(system, system.caller.call, snapshot, Ready(system.caller.call))
      else if system.caller.Failed? && MayRetry(system.caller.call) then
        Reconnect(system, system.caller.call, snapshot, AtLoopTop(system.caller.call.(attempt := 1)))
      else system
    case Place =>
      if system.caller.Ready? then
        var call, ticket := system.caller.call, system.nextTicket;
        var (worker, placement) := OnPlace(system.worker, ticket);
        var placed := system.(worker := worker, nextTicket := ticket + 1, mail := None);
        match placement
        case Placed(stream) => placed.(caller := SlotTaken(call, ticket, stream))
        case NotConnected => Fail(placed, call)
        case AlreadyPending => Fail(placed, call)
      else system
    case EncodeFails => if system.caller.SlotTaken? then Fail(system, system.caller.call) else system
    case Send(delivered) =>
      if system.caller.SlotTaken? then
        var call, ticket, stream := system.caller.call, system.caller.ticket, system.caller.stream;
        if delivered then
          system.(caller := Awaiting(call.(sends := call.sends + 1), ticket),
                  requests := if system.worker.reader == Some(stream) then system.requests + [ticket] else system.requests)
        else
          Fail(system.(worker := OnFailPending(system.worker).0), call)
      else system
    case DaemonAnswers =>
      if system.requests != [] then
        system.(requests := system.requests[1..], answers := system.answers + [system.requests[0]])
      else system
    case ReaderReads =>
      if system.answers != [] then
        var (worker, to) := OnMessage(system.worker, ActionResult(system.answers[0]));
        Deliver(system.(worker := worker, answers := system.answers[1..]), to, Answer(system.answers[0]))
      else system
    case ReaderReadsOther(message) =>
      if system.worker.reader.Some? && !message.ActionResult? then
        system.(worker := OnMessage(system.worker, message).0)
      else system
    case StreamEnds =>
      if system.worker.reader.Some? then
        var (worker, to) := OnStreamEnd(system.worker);
        Deliver(system.(worker := worker, requests := [], answers := []), to, Failure)
      else system
    case TakeMail =>
      if system.caller.Awaiting? && system.mail.Some? then
        (match system.mail.value
         case Answer(of) => End(system, Completed(system.caller.call, system.caller.ticket, of))
         case Failure => Fail(system, system.caller.call))
      else if system.caller.Awaiting? && system.worker.pending != Some(system.caller.ticket) then
        Fail(system, system.caller.call)
      else system
    case TimeOut => if system.caller.Awaiting? && system.mail.None? then Fail(system, system.caller.call) else system
    case GiveUp =>
      if system.caller.Failed? && !MayRetry(system.caller.call) then End(system, GaveUp(system.caller.call)) else system
    case CloseSession => system.(worker := OnClose(system.worker), requests := [], answers := [])
  }

  function Run(system: System, steps: seq<Step>): System
    decreases steps
  {
    if steps == [] then system else Run(Take(system, steps[0]), steps[1..])
  }

  // ---------------------------------------------------------------- the invariant

  function Outstanding(system: System): seq<Ticket> {
    system.answers + system.requests
  }

  /** The caller's live waiter, its slot and its request belong together. */
  ghost predicate CallerMatchesSlot(system: System) {
    match system.caller
    case SlotTaken(_, ticket, stream) =>
      && Outstanding(system) == []
      && (if system.worker.pending.Some?
          then system.worker.pending == Some(ticket) && system.worker.reader == Some(stream) && system.mail.None?
          else system.worker.reader.None? && (system.mail.None? || system.mail == Some(Failure)))
    case Awaiting(_, ticket) =>
      if system.worker.pending.Some? then
        && system.worker.pending == Some(ticket) && system.mail.None?
        && (Outstanding(system) == [ticket] || Outstanding(system) == [])
      else
        && Outstanding(system) == []
        && (system.mail.Some? && system.mail.value.Answer? ==> system.mail.value.of == ticket)
    case _ => system.mail.None?
  }

  /** How many requests a call may have sent by where it stands. */
  ghost predicate SendsBounded(call: Call) {
    && call.sends <= call.attempt + 1
    && call.attempt <= (if call.readOnly then 1 else 0)
  }

  ghost predicate CallerSends(caller: Caller) {
    match caller
    case Idle => true
    case AtLoopTop(call) => call.sends <= call.attempt && SendsBounded(call)
    case Ready(call) => call.sends <= call.attempt && SendsBounded(call)
    case SlotTaken(call, _, _) => call.sends <= call.attempt && SendsBounded(call)
    case Awaiting(call, _) => SendsBounded(call)
    case Failed(call) => SendsBounded(call)
  }

  ghost predicate GoodOutcome(outcome: Outcome) {
    && SendsBounded(outcome.call)
    && (outcome.Completed? ==> outcome.answerOf == outcome.ticket)
  }

  /** At most one request is outstanding on the current stream, and an empty slot means none is. */
  ghost predicate SlotInv(system: System) {
    && |Outstanding(system)| <= 1
    && (system.worker.pending.None? ==> Outstanding(system) == [])
    && CallerMatchesSlot(system)
    && (system.worker.connected <==> system.worker.outbound.Some?)
    && system.worker.outbound == system.worker.reader
  }

  ghost predicate OutcomesGood(outcomes: seq<Outcome>) {
    forall i | 0 <= i < |outcomes| :: GoodOutcome(outcomes[i])
  }

  ghost predicate Inv(system: System) {
    SlotInv(system) && CallerSends(system.caller) && OutcomesGood(system.outcomes)
  }

  /** Steps of the holder of the action lock. */
  predicate CallerStep(step: Step) {
    !step.DaemonAnswers? && !step.ReaderReads? && !step.ReaderReadsOther? && !step.StreamEnds? && !step.CloseSession?
  }

  lemma CallerStepKeepsSlotInv(system: System, step: Step)
    requires SlotInv(system) && CallerStep(step)
    ensures SlotInv(Take(system, step))
  {
    assert Outstanding(system) == [] ==> system.answers == [] && system.requests == [];
  }

  lemma EnvironmentStepKeepsSlotInv(system: System, step: Step)
    requires SlotInv(system) && !CallerStep(step)
    ensures SlotInv(Take(system, step))
  {
    var after := Take(system, step);
    if step.DaemonAnswers? && system.requests != [] {
      assert system.requests == [system.requests[0]] + system.requests[1..];
      assert Outstanding(after) == Outstanding(system);
    }
    if step.ReaderReads? && system.answers != [] {
      assert Outstanding(system) == [system.answers[0]];
      assert Outstanding(after) == [];
    }
  }

  lemma StepKeepsCall(system: System, step: Step)
    requires CallerSends(system.caller)
    ensures CallerSends(Take(system, step).caller)
  {
  }

  /** A step adds at most one outcome, and a completed one carries the answer found in the mail. */
  lemma StepKeepsOutcomes(system: System, step: Step)
    requires Inv(system)
    ensures OutcomesGood(Take(system, step).outcomes)
  {
    var after := Take(system, step);
    if after.outcomes != system.outcomes {
      assert |after.outcomes| == |system.outcomes| + 1 && after.outcomes[..|system.outcomes|] == system.outcomes;
      assert GoodOutcome(after.outcomes[|system.outcomes|]);
    }
  }

  lemma StepKeepsInv(system: System, step: Step)
    requires Inv(system)
    ensures Inv(Take(system, step))
  {
    if CallerStep(step) { CallerStepKeepsSlotInv(system, step); } else { EnvironmentStepKeepsSlotInv(system, step); }
    StepKeepsCall(system, step);
    StepKeepsOutcomes(system, step);
  }

  /**
   Each answer goes to its own request: in every run, a call that completes does so with the
   answer to the request it is waiting for, across timeouts, late results, replaced slots,
   disconnects and reconnects. A mutating call is sent at most once, a read-only one at most
   twice.
   */
  lemma {:induction false} AnswersReachTheirRequests(system: System, steps: seq<Step>)
    requires Inv(system)
    ensures Inv(Run(system, steps))
    decreases steps
  {
    if steps != [] {
      StepKeepsInv(system, steps[0]);
      AnswersReachTheirRequests(Take(system, steps[0]), steps[1..]);
    }
  }

  lemma OpenedRunsAnswerTheirOwn(snapshot: Snapshot, steps: seq<Step>)
    ensures var after := Run(Opened(snapshot), steps);
      && |Outstanding(after)| <= 1
      && (after.worker.pending.None? ==> Outstanding(after) == [])
      && forall i | 0 <= i < |after.outcomes| ::
        && (after.outcomes[i].Completed? ==> after.outcomes[i].answerOf == after.outcomes[i].ticket)
        && after.outcomes[i].call.sends <= (if after.outcomes[i].call.readOnly then 2 else 1)
  {
    AnswersReachTheirRequests(Opened(snapshot), steps);
    var after := Run(Opened(snapshot), steps);
    forall i | 0 <= i < |after.outcomes| ensures GoodOutcome(after.outcomes[i]) {
    }
  }

  // ---------------------------------------------------------------- the wedged slot

  /** The slot holds a dead waiter and no answer is under way to take it out. */
  ghost predicate Wedged(system: System) {
    && system.worker.pending.Some?
    && Outstanding(system) == []
    && LiveTicket(system.caller).None?
  }

  lemma CallerStepKeepsWedge(system: System, step: Step)
    requires Wedged(system) && CallerStep(step)
    ensures Wedged(Take(system, step))
  {
  }

  lemma EnvironmentStepKeepsWedgeIff(system: System, step: Step)
    requires Wedged(system) && !CallerStep(step)
    ensures Wedged(Take(system, step)) <==>
      !(step.CloseSession? || (step.StreamEnds? && system.worker.reader.Some?))
  {
    assert system.answers == [] && system.requests == [];
  }

  /** The log is as it was, or one call gave up. */
  predicate AddsNoCompletion(before: seq<Outcome>, after: seq<Outcome>) {
    || after == before
    || (|after| == |before| + 1 && after[..|before|] == before && after[|before|].GaveUp?)
  }

  lemma WedgedStepCompletesNothing(system: System, step: Step)
    requires Wedged(system)
    ensures AddsNoCompletion(system.outcomes, Take(system, step).outcomes)
  {
  }

  /** Every new call is refused at the slot, and none completes. */
  lemma WedgeHolds(system: System, step: Step)
    requires Wedged(system)
    ensures Wedged(Take(system, step)) <==>
      !(step.CloseSession? || (step.StreamEnds? && system.worker.reader.Some?))
    ensures AddsNoCompletion(system.outcomes, Take(system, step).outcomes)
  {
    if CallerStep(step) { CallerStepKeepsWedge(system, step); } else { EnvironmentStepKeepsWedgeIff(system, step); }
    WedgedStepCompletesNothing(system, step);
  }

  /** Completed calls in a log. */
  function CompletedIn(outcomes: seq<Outcome>): nat {
    if outcomes == [] then 0
    else CompletedIn(outcomes[..|outcomes| - 1]) + if outcomes[|outcomes| - 1].Completed? then 1 else 0
  }

  /**
   A wedged slot stays wedged until the stream ends or the session is closed: no call
   completes however often it is retried and reconnected.
   */
  lemma {:induction false} WedgedRunsCompleteNothing(system: System, steps: seq<Step>)
    requires Wedged(system)
    requires forall i | 0 <= i < |steps| :: !steps[i].StreamEnds? && !steps[i].CloseSession?
    ensures Wedged(Run(system, steps))
    ensures CompletedIn(Run(system, steps).outcomes) == CompletedIn(system.outcomes)
    decreases steps
  {
    if steps != [] {
      WedgeHolds(system, steps[0]);
      WedgedRunsCompleteNothing(Take(system, steps[0]), steps[1..]);
    }
  }

  /** The two ways a read-only call opens a new stream: after a failed first attempt, and when it finds none. */
  predicate Reopens(system: System) {
    || (system.caller.Failed? && MayRetry(system.caller.call))
    || (system.caller.AtLoopTop? && !system.worker.connected && system.caller.call.readOnly)
  }

  /** The next attempt on the new stream, up to the slot. */
  function NextAttempt(system: System, snapshot: Snapshot): System {
    Take(Take(Take(system, Connect(Some(snapshot))), CheckConnected), Place)
  }

  /**
   A read-only call resumes on a new stream if and only if the slot was empty when the stream
   took over, whatever made it reopen: otherwise its own reconnect abandons the stream on which
   the slot could still be emptied, and wedges it.
   */
  lemma ResumesIffSlotEmpty(system: System, snapshot: Snapshot)
    requires Inv(system) && Reopens(system)
    ensures NextAttempt(system, snapshot).caller.SlotTaken? <==> system.worker.pending.None?
    ensures Wedged(Take(system, Connect(Some(snapshot)))) <==> system.worker.pending.Some?
  {
  }

  /** The step by which a call fails. */
  predicate FailsBy(system: System, step: Step) {
    !system.caller.Failed? && Take(system, step).caller.Failed?
  }

  /**
   Which failures leave the slot occupied: a timeout that no answer beat, an encoding error
   while the waiter is in the slot, and a refusal at an occupied slot. A failed send and a
   message that the stream broke leave it empty.
   */
  lemma FailureLeavesSlotIff(system: System, step: Step)
    requires Inv(system) && FailsBy(system, step)
    ensures Take(system, step).worker.pending.Some? <==>
      (step.TimeOut? || step.EncodeFails? || step.Place?) && system.worker.pending.Some?
  {
  }

  /**
   Any first attempt of a read-only call that fails is resumed if and only if its failure left
   the slot empty; a timeout before the answer does not.
   */
  lemma FailedReadResumesIff(system: System, step: Step, snapshot: Snapshot)
    requires Inv(system) && FailsBy(system, step) && MayRetry(Take(system, step).caller.call)
    ensures var failed := Take(system, step);
      NextAttempt(failed, snapshot).caller.SlotTaken? <==>
        !((step.TimeOut? || step.EncodeFails? || step.Place?) && system.worker.pending.Some?)
    ensures step.TimeOut? ==>
      (Wedged(Take(Take(system, step), Connect(Some(snapshot)))) <==> system.worker.pending.Some?)
  {
    StepKeepsInv(system, step);
    FailureLeavesSlotIff(system, step);
    ResumesIffSlotEmpty(Take(system, step), snapshot);
  }

  /** When the stream itself broke, the slot was emptied and the retry reaches it. */
  lemma BrokenStreamRetryIsPlaced(system: System, snapshot: Snapshot)
    requires Inv(system) && system.caller.Awaiting? && MayRetry(system.caller.call)
    requires system.worker.reader.Some? && system.worker.pending.Some?
    ensures var broken := Take(Take(system, StreamEnds), TakeMail);
      var retry := Take(Take(Take(broken, Connect(Some(snapshot))), CheckConnected), Place);
      && retry.caller.SlotTaken? && retry.worker.pending == Some(retry.caller.ticket)
      && Outstanding(retry) == []
  {
  }

  /** The wedge is reachable: one read-only call that times out and reconnects. */
  lemma WedgeIsReachable(snapshot: Snapshot)
    ensures Wedged(Run(Opened(snapshot),
      [Begin(true), CheckConnected, Place, Send(true), TimeOut, Connect(Some(snapshot))]))
  {
    var s0 := Opened(snapshot);
    var s1 := Take(s0, Begin(true));
    var s2 := Take(s1, CheckConnected);
    var s3 := Take(s2, Place);
    var s4 := Take(s3, Send(true));
    var s5 := Take(s4, TimeOut);
    var s6 := Take(s5, Connect(Some(snapshot)));
    assert s4.caller == Awaiting(Call(true, 0, 1), 0) && s4.worker.pending == Some(0);
    assert Wedged(s6);
    RunCons(s5, Connect(Some(snapshot)), []);
    RunCons(s4, TimeOut, [Connect(Some(snapshot))]);
    RunCons(s3, Send(true), [TimeOut, Connect(Some(snapshot))]);
    RunCons(s2, Place, [Send(true), TimeOut, Connect(Some(snapshot))]);
    RunCons(s1, CheckConnected, [Place, Send(true), TimeOut, Connect(Some(snapshot))]);
    RunCons(s0, Begin(true), [CheckConnected, Place, Send(true), TimeOut, Connect(Some(snapshot))]);
  }

  lemma RunCons(system: System, step: Step, rest: seq<Step>)
    ensures forall steps | steps == [step] + rest :: Run(system, steps) == Run(Take(system, step), rest)
  {
    assert ([step] + rest)[1..] == rest;
  }

  // ------------------------------------------------------------ lost continuity

  /** The daemon announced a recovery on a stream the proxy was reading. */
  ghost predicate RecoveryRead(system: System, steps: seq<Step>)
    decreases steps
  {
    steps != [] &&
    (|| (steps[0] == ReaderReadsOther(Warning("session_state_recovered")) && system.worker.reader.Some?)
     || RecoveryRead(Take(system, steps[0]), steps[1..]))
  }

  /** One step opens at most one stream, counts it, and marks continuity as lost. */
  lemma StepReportsContinuity(system: System, step: Step)
    ensures var after := Take(system, step);
      && system.nextStream <= after.nextStream
      && after.worker.reconnectCount - system.worker.reconnectCount == after.nextStream - system.nextStream
      && (after.worker.continuityInvalidated <==>
            || system.worker.continuityInvalidated
            || system.nextStream < after.nextStream
            || (step == ReaderReadsOther(Warning("session_state_recovered")) && system.worker.reader.Some?))
  {
  }

  /**
   Lost continuity is always reported and never invented: over every run the reconnect count
   is the number of streams opened, and continuity is marked lost if and only if it was, a
   stream was reopened, or the daemon announced a recovery.
   */
  lemma {:induction false} ContinuityIsReported(system: System, steps: seq<Step>)
    ensures var after := Run(system, steps);
      && system.nextStream <= after.nextStream
      && after.worker.reconnectCount - system.worker.reconnectCount == after.nextStream - system.nextStream
      && (after.worker.continuityInvalidated <==>
            || system.worker.continuityInvalidated
            || system.nextStream < after.nextStream
            || RecoveryRead(system, steps))
    decreases steps
  {
    if steps != [] {
      StepReportsContinuity(system, steps[0]);
      ContinuityIsReported(Take(system, steps[0]), steps[1..]);
    }
  }
}
