/**
 The daemon's side of one session stream: hello, subscribe, then actions answered one at a
 time. What the backend answers to each message, and whether the reply can still be sent,
 comes with the message.
 */
module DaemonSession {
  import opened Wrappers
  import opened Domain
  import opened Worker

  datatype ClientMessage =
    | Hello(profileValid: bool)
    | Subscribe(backend: Result<Snapshot, string>)
    | ActionRequest(ticket: Ticket, executes: bool)
    | ReadArtifact
    | Ping
    | Malformed

  datatype Arrival = Arrival(message: ClientMessage, replySent: bool)

  datatype SessionError =
    | RepeatedHello
    | InvalidProfile
    | HelloMissing
    | RepeatedSubscribe
    | SubscribeMissing
    | BackendFailed
    | StreamClosed
    | InvalidMessage

  datatype Phase = Unknown | Greeted | Subscribed

  /** The stream's state, and whether the registry counts it active and a forwarder runs for it. */
  datatype Session = Session(
    phase: Phase,
    active: bool,
    forwarding: bool,
    replies: seq<ServerMessage>,
    error: Option<SessionError>)

  const NEW_SESSION := Session(Unknown, false, false, [], None)

  function Refuse(session: Session, error: SessionError): Session {
    session.(error := Some(error))
  }

  /** A reply, what holds once it is due and what holds once it was sent. */
  datatype Response = Response(reply: ServerMessage, due: Session, sent: Session)

  function Respond(session: Session, message: ClientMessage): Result<Response, SessionError> {
    match message
    case Malformed => Err(InvalidMessage)
    case Ping => Ok(Response(Other, session, session))
    case ReadArtifact => Ok(Response(Warning("use_read_artifact_rpc"), session, session))
    case Hello(profileValid) =>
      if session.phase != Unknown then Err(RepeatedHello)
      else if !profileValid then Err(InvalidProfile)
      else
        var listed := session.(active := true);
        Ok(Response(HelloAck, listed, listed.(phase := Greeted)))
    case Subscribe(backend) =>
      if session.phase == Unknown then Err(HelloMissing)
      else if session.phase == Subscribed then Err(RepeatedSubscribe)
      else if backend.Err? then Err(BackendFailed)
      else Ok(Response(InitialSnapshot(backend.value), session, session.(phase := Subscribed, forwarding := true)))
    case ActionRequest(ticket, executes) =>
      if session.phase == Unknown then Err(HelloMissing)
      else if session.phase == Greeted then Err(SubscribeMissing)
      else if !executes then Err(BackendFailed)
      else Ok(Response(ActionResult(ticket), session, session))
  }

  /** A reply the client no longer takes ends the session before anything after it happens. */
  function Handle(session: Session, arrival: Arrival): Session {
    match Respond(session, arrival.message)
    case Err(error) => Refuse(session, error)
    case Ok(response) =>
      if arrival.replySent then response.sent.(replies := session.replies + [response.reply])
      else Refuse(response.due, StreamClosed)
  }

  /** The session after the arrivals, stopping at the first error. */
  function Handled(arrivals: seq<Arrival>): Session {
    if arrivals == [] then NEW_SESSION
    else
      var before := Handled(arrivals[..|arrivals| - 1]);
      if before.error.Some? then before else Handle(before, arrivals[|arrivals| - 1])
  }

  /** Only a stream that ends without an error is cleaned up. */
  function Finished(session: Session): Session {
    if session.error.None? && session.phase != Unknown then session.(active := false, forwarding := false)
    else session
  }

  /** Serves the stream until it ends or a message fails. */
  method ProcessSession(arrivals: seq<Arrival>) returns (session: Session)
    ensures session == Finished(Handled(arrivals))
  {
    session := NEW_SESSION;
    var i := 0;
    while i < |arrivals|
      invariant 0 <= i <= |arrivals|
      invariant session == Handled(arrivals[..i]) && session.error.None?
    {
      assert arrivals[..i + 1][..i] == arrivals[..i];
      session := Handle(session, arrivals[i]);
      i := i + 1;
      if session.error.Some? {
        StopsAtError(arrivals, i);
        return session;
      }
    }
    assert arrivals[..i] == arrivals;
    if session.phase != Unknown {
      session := session.(active := false, forwarding := false);
    }
  }

  lemma {:induction false} StopsAtError(arrivals: seq<Arrival>, n: nat)
    requires n <= |arrivals| && Handled(arrivals[..n]).error.Some?
    ensures Handled(arrivals) == Handled(arrivals[..n])
    decreases |arrivals|
  {
    if n < |arrivals| {
      var before := arrivals[..|arrivals| - 1];
      assert before[..n] == arrivals[..n];
      StopsAtError(before, n);
    } else {
      assert arrivals[..n] == arrivals;
    }
  }

  // ----------------------------------------------------------------- protocol

  /** Tickets of the results among the replies. */
  function Answers(replies: seq<ServerMessage>): seq<Ticket> {
    if replies == [] then []
    else
      var last := replies[|replies| - 1];
      Answers(replies[..|replies| - 1]) + if last.ActionResult? then [last.answers] else []
  }

  /** Tickets of the requests among the arrivals. */
  function Requests(arrivals: seq<Arrival>): seq<Ticket> {
    if arrivals == [] then []
    else
      var last := arrivals[|arrivals| - 1].message;
      Requests(arrivals[..|arrivals| - 1]) + if last.ActionRequest? then [last.ticket] else []
  }

  lemma AnswersOfExtended(replies: seq<ServerMessage>, message: ServerMessage)
    ensures Answers(replies + [message]) == Answers(replies) + if message.ActionResult? then [message.answers] else []
  {
    assert (replies + [message])[..|replies|] == replies;
  }

  lemma RespondAnswers(session: Session, message: ClientMessage)
    ensures Respond(session, message).Ok? ==>
      var reply := Respond(session, message).value.reply;
      (reply.ActionResult? <==> message.ActionRequest?)
      && (reply.ActionResult? ==> reply.answers == message.ticket)
  {
  }

  lemma HandleAnswers(session: Session, arrival: Arrival)
    requires session.error.None?
    ensures Answers(Handle(session, arrival).replies) == Answers(session.replies) +
      if Handle(session, arrival).error.None? && arrival.message.ActionRequest? then [arrival.message.ticket] else []
  {
    RespondAnswers(session, arrival.message);
    if Respond(session, arrival.message).Ok? {
      AnswersOfExtended(session.replies, Respond(session, arrival.message).value.reply);
    }
  }

  /**
   Requests are answered once each and in the order they arrived: the results sent are a
   prefix of the requests, and all of them unless the session ended in an error.
   */
  lemma {:induction false} AnswersFollowRequests(arrivals: seq<Arrival>)
    ensures Answers(Handled(arrivals).replies) <= Requests(arrivals)
    ensures Handled(arrivals).error.None? ==> Answers(Handled(arrivals).replies) == Requests(arrivals)
    decreases |arrivals|
  {
    if arrivals != [] {
      var before := arrivals[..|arrivals| - 1];
      AnswersFollowRequests(before);
      if Handled(before).error.None? {
        HandleAnswers(Handled(before), arrivals[|arrivals| - 1]);
      }
    }
  }

  /** Acknowledged before the snapshot, and the snapshot before any result, each at most once. */
  ghost predicate WellOrdered(replies: seq<ServerMessage>) {
    && (forall i | 0 <= i < |replies| && replies[i].InitialSnapshot? :: HelloAck in replies[..i])
    && (forall i | 0 <= i < |replies| && replies[i].ActionResult? ::
      exists j | 0 <= j < i :: replies[j].InitialSnapshot?)
    && (forall i, j | 0 <= i < j < |replies| && replies[i] == HelloAck :: replies[j] != HelloAck)
    && (forall i, j | 0 <= i < j < |replies| && replies[i].InitialSnapshot? :: !replies[j].InitialSnapshot?)
  }

  /** What the phase says about the replies so far. */
  ghost predicate PhaseMatches(session: Session) {
    && (session.phase == Unknown <==> HelloAck !in session.replies)
    && (session.phase == Subscribed <==> exists j | 0 <= j < |session.replies| :: session.replies[j].InitialSnapshot?)
    && (session.phase == Subscribed <==> session.forwarding)
    && (session.phase != Unknown ==> session.active)
  }

  lemma ReplyKeepsOrder(replies: seq<ServerMessage>, message: ServerMessage)
    requires WellOrdered(replies)
    requires message == HelloAck ==> HelloAck !in replies
    requires message.InitialSnapshot? ==>
      HelloAck in replies && forall j | 0 <= j < |replies| :: !replies[j].InitialSnapshot?
    requires message.ActionResult? ==> exists j | 0 <= j < |replies| :: replies[j].InitialSnapshot?
    ensures WellOrdered(replies + [message])
  {
    var all := replies + [message];
    forall i | 0 <= i < |all| && all[i].InitialSnapshot? ensures HelloAck in all[..i] {
      assert i < |replies| ==> all[..i] == replies[..i];
      assert all[..|replies|] == replies;
    }
    forall i | 0 <= i < |all| && all[i].ActionResult? ensures exists j | 0 <= j < i :: all[j].InitialSnapshot? {
      if i < |replies| {
        var j :| 0 <= j < i && replies[j].InitialSnapshot?;
        assert all[j].InitialSnapshot?;
      } else {
        var j :| 0 <= j < |replies| && replies[j].InitialSnapshot?;
        assert all[j].InitialSnapshot?;
      }
    }
  }

  /** Each phase lets through only the replies that are due. */
  lemma RespondIsDue(session: Session, message: ClientMessage)
    requires Respond(session, message).Ok?
    ensures var r := Respond(session, message).value;
      && (r.reply == HelloAck ==> session.phase == Unknown && r.sent.phase == Greeted)
      && (r.reply.InitialSnapshot? ==> session.phase == Greeted && r.sent.phase == Subscribed)
      && (r.reply.ActionResult? ==> session.phase == Subscribed)
      && (r.reply != HelloAck && !r.reply.InitialSnapshot? ==> r.sent == session)
      && r.sent.forwarding == (session.forwarding || r.reply.InitialSnapshot?)
      && r.sent.active == (session.active || r.reply == HelloAck)
      && r.due == session.(active := r.due.active) && (session.active ==> r.due.active)
  {
  }

  lemma HandleKeepsOrder(session: Session, arrival: Arrival)
    requires WellOrdered(session.replies) && PhaseMatches(session)
    ensures WellOrdered(Handle(session, arrival).replies) && PhaseMatches(Handle(session, arrival))
  {
    if Respond(session, arrival.message).Ok? {
      RespondIsDue(session, arrival.message);
      if arrival.replySent {
        var reply := Respond(session, arrival.message).value.reply;
        ReplyKeepsOrder(session.replies, reply);
        var all := session.replies + [reply];
        assert all[|session.replies|] == reply;
        assert forall j | 0 <= j < |session.replies| :: all[j] == session.replies[j];
      }
    }
  }

  /** Every stream's replies keep the protocol order, however the client behaves. */
  lemma {:induction false} RepliesAreWellOrdered(arrivals: seq<Arrival>)
    ensures WellOrdered(Handled(arrivals).replies) && PhaseMatches(Handled(arrivals))
    decreases |arrivals|
  {
    if arrivals != [] {
      RepliesAreWellOrdered(arrivals[..|arrivals| - 1]);
      HandleKeepsOrder(Handled(arrivals[..|arrivals| - 1]), arrivals[|arrivals| - 1]);
    }
  }

  /** A valid hello was met before any error. */
  ghost predicate Greets(arrivals: seq<Arrival>) {
    exists i | 0 <= i < |arrivals| :: GreetsAt(arrivals, i)
  }

  ghost predicate GreetsAt(arrivals: seq<Arrival>, i: nat)
    requires i < |arrivals|
  {
    Handled(arrivals[..i]).error.None? && Handled(arrivals[..i]).phase == Unknown
    && arrivals[i].message == Hello(true)
  }

  lemma HandleActive(session: Session, arrival: Arrival)
    ensures Handle(session, arrival).active
      <==> session.active || (session.phase == Unknown && arrival.message == Hello(true))
  {
  }

  lemma {:induction false} ActiveIffGreeted(arrivals: seq<Arrival>)
    ensures Handled(arrivals).active <==> Greets(arrivals)
    decreases |arrivals|
  {
    if arrivals != [] {
      var n := |arrivals| - 1;
      ActiveIffGreeted(arrivals[..n]);
      HandleActive(Handled(arrivals[..n]), arrivals[n]);
      GreetsExtends(arrivals);
    }
  }

  lemma GreetsExtends(arrivals: seq<Arrival>)
    requires arrivals != []
    ensures var n := |arrivals| - 1;
      Greets(arrivals) <==> Greets(arrivals[..n]) || GreetsAt(arrivals, n)
  {
    var n := |arrivals| - 1;
    var before := arrivals[..n];
    forall i | 0 <= i < n ensures GreetsAt(arrivals, i) <==> GreetsAt(before, i) {
      assert before[..i] == arrivals[..i];
    }
    if i :| 0 <= i < n && GreetsAt(before, i) { assert GreetsAt(arrivals, i); }
  }

  /**
   Closing happens on the clean path only: once the stream is over, the registry still
   counts the session active if and only if a hello had been accepted and the stream ended in
   an error.
   */
  lemma StaysActiveIff(arrivals: seq<Arrival>)
    ensures Finished(Handled(arrivals)).active <==> Handled(arrivals).error.Some? && Greets(arrivals)
  {
    ActiveIffGreeted(arrivals);
    RepliesAreWellOrdered(arrivals);
    UnknownMeansUnactive(arrivals);
  }

  /** Without an error, a session still unknown is not active. */
  lemma {:induction false} UnknownMeansUnactive(arrivals: seq<Arrival>)
    ensures Handled(arrivals).error.None? && Handled(arrivals).phase == Unknown ==> !Handled(arrivals).active
    decreases |arrivals|
  {
    if arrivals != [] {
      UnknownMeansUnactive(arrivals[..|arrivals| - 1]);
    }
  }

  // --------------------------------------------------- what a client may send, and gets

  predicate Hailed(arrivals: seq<Arrival>) {
    exists i | 0 <= i < |arrivals| :: arrivals[i].message.Hello?
  }

  predicate AskedToSubscribe(arrivals: seq<Arrival>) {
    exists i | 0 <= i < |arrivals| :: arrivals[i].message.Subscribe?
  }

  /** What may follow the messages sent so far: one hello, then one subscription, then actions. */
  predicate Allowed(before: seq<Arrival>, message: ClientMessage) {
    match message
    case Hello(profileValid) => !Hailed(before) && profileValid
    case Subscribe(backend) => Hailed(before) && !AskedToSubscribe(before) && backend.Ok?
    case ActionRequest(_, executes) => AskedToSubscribe(before) && executes
    case ReadArtifact => true
    case Ping => true
    case Malformed => false
  }

  /** The reply of a message's own kind; a subscription gets the snapshot the backend opened with. */
  predicate IsReplyTo(message: ClientMessage, reply: ServerMessage) {
    match message
    case Hello(_) => reply == HelloAck
    case Subscribe(backend) => backend.Ok? && reply == InitialSnapshot(backend.value)
    case ActionRequest(ticket, _) => reply == ActionResult(ticket)
    case ReadArtifact => reply == Warning("use_read_artifact_rpc")
    case Ping => reply == Other
    case Malformed => false
  }

  predicate ServedAt(arrivals: seq<Arrival>, i: nat)
    requires i < |arrivals|
  {
    Allowed(arrivals[..i], arrivals[i].message) && arrivals[i].replySent
  }

  /** The phase of an unbroken session is what the client has sent. */
  ghost predicate PhaseIsHistory(session: Session, arrivals: seq<Arrival>) {
    session.error.None? ==>
      && (session.phase == Unknown <==> !Hailed(arrivals))
      && (session.phase == Subscribed <==> AskedToSubscribe(arrivals))
  }

  lemma HistoryGrows(arrivals: seq<Arrival>, arrival: Arrival)
    ensures Hailed(arrivals + [arrival]) <==> Hailed(arrivals) || arrival.message.Hello?
    ensures AskedToSubscribe(arrivals + [arrival]) <==> AskedToSubscribe(arrivals) || arrival.message.Subscribe?
  {
    var all := arrivals + [arrival];
    assert all[|arrivals|] == arrival;
    if i :| 0 <= i < |arrivals| && arrivals[i].message.Hello? { assert all[i].message.Hello?; }
    if i :| 0 <= i < |arrivals| && arrivals[i].message.Subscribe? { assert all[i].message.Subscribe?; }
  }

  /** One more message: served if it is allowed and its reply is taken, the end otherwise. */
  lemma HandleServes(session: Session, before: seq<Arrival>, arrival: Arrival)
    requires session.error.None? && PhaseIsHistory(session, before)
    ensures var after := Handle(session, arrival);
      && (after.error.None? <==> Allowed(before, arrival.message) && arrival.replySent)
      && (after.error == Some(StreamClosed) <==> Allowed(before, arrival.message) && !arrival.replySent)
      && (after.error.Some? ==> after.replies == session.replies)
      && (after.error.None? ==> exists reply ::
            IsReplyTo(arrival.message, reply) && after.replies == session.replies + [reply])
      && PhaseIsHistory(after, before + [arrival])
  {
    HistoryGrows(before, arrival);
    if Respond(session, arrival.message).Ok? {
      assert IsReplyTo(arrival.message, Respond(session, arrival.message).value.reply);
    }
  }

  /**
   Message by message, a client gets the replies to what it sent up to its first fault: a
   message that may not follow those before it, or a reply it no longer takes. The session ends
   in an error if and only if there is such a fault, and for a reply that was not taken if and
   only if the message was allowed.
   */
  lemma {:induction false} MessagesAreAnswered(arrivals: seq<Arrival>)
    ensures var session := Handled(arrivals);
      var served := |session.replies|;
      && served <= |arrivals|
      && (forall i | 0 <= i < served :: ServedAt(arrivals, i) && IsReplyTo(arrivals[i].message, session.replies[i]))
      && (session.error.None? <==> served == |arrivals|)
      && (served < |arrivals| ==> !ServedAt(arrivals, served))
      && (served < |arrivals| ==>
            (session.error == Some(StreamClosed) <==> Allowed(arrivals[..served], arrivals[served].message)))
    ensures PhaseIsHistory(Handled(arrivals), arrivals)
    decreases |arrivals|
  {
    if arrivals != [] {
      var n := |arrivals| - 1;
      var before := arrivals[..n];
      MessagesAreAnswered(before);
      assert before + [arrivals[n]] == arrivals;
      assert forall i | 0 <= i < n :: before[i] == arrivals[i] && before[..i] == arrivals[..i];
      assert forall i | 0 <= i < n :: ServedAt(before, i) == ServedAt(arrivals, i);
      if Handled(before).error.None? {
        HandleServes(Handled(before), before, arrivals[n]);
      }
    }
  }

  /** So a session ends without an error if and only if every message was allowed and its reply taken. */
  lemma EndsCleanlyIff(arrivals: seq<Arrival>)
    ensures Handled(arrivals).error.None? <==> forall i | 0 <= i < |arrivals| :: ServedAt(arrivals, i)
  {
    MessagesAreAnswered(arrivals);
  }
}
