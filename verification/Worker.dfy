/**
 The proxy's side of a daemon session: connection state, the mirror store and the single
 slot for the waiter of the action in flight. Streams and waiters are numbered.
 */
module Worker {
  import opened Wrappers
  import opened Domain
  import StateStore

  type Ticket = nat
  type StreamId = nat

  /** Decoded messages from the daemon; a result carries the ticket of the request it answers. */
  datatype ServerMessage =
    | HelloAck
    | InitialSnapshot(snapshot: Snapshot)
    | DiffMessage(diff: DiffBatch)
    | ActionResult(answers: Ticket)
    | Warning(code: string)
    | Other

  datatype WorkerState = WorkerState(
    connected: bool,
    outbound: Option<StreamId>,
    reader: Option<StreamId>,
    pending: Option<Ticket>,
    store: StateStore.Store,
    reconnectCount: nat,
    continuityInvalidated: bool)

  const NEW_WORKER := WorkerState(false, None, None, None, StateStore.EMPTY_STORE, 0, false)

  /** One message through the reader loop; a result goes to whoever occupies the slot. */
  function OnMessage(state: WorkerState, message: ServerMessage): (WorkerState, Option<Ticket>) {
    match message
    case InitialSnapshot(snapshot) => (state.(store := StateStore.ReplaceSnapshot(snapshot)), None)
    case DiffMessage(diff) => (state.(store := StateStore.ApplyDiff(state.store, diff).0), None)
    case ActionResult(_) => (state.(pending := None), state.pending)
    case Warning(code) =>
      (state.(continuityInvalidated := state.continuityInvalidated || code == "session_state_recovered"), None)
    case HelloAck => (state, None)
    case Other => (state, None)
  }

  /** The reader loop ends: the waiter in the slot is told, everything of the stream is dropped. */
  function OnStreamEnd(state: WorkerState): (WorkerState, Option<Ticket>) {
    (state.(connected := false, outbound := None, reader := None, pending := None), state.pending)
  }

  /** A new stream takes over; the slot is not touched. */
  function OnConnect(state: WorkerState, stream: StreamId, snapshot: Snapshot, isReconnect: bool): WorkerState {
    var base := state.(connected := true, outbound := Some(stream), reader := Some(stream),
                       store := StateStore.ReplaceSnapshot(snapshot));
    if isReconnect then base.(reconnectCount := state.reconnectCount + 1, continuityInvalidated := true) else base
  }

  function OnClose(state: WorkerState): WorkerState {
    state.(connected := false, outbound := None, reader := None, pending := None)
  }

  datatype Placement = NotConnected | AlreadyPending | Placed(stream: StreamId)

  /** A waiter enters the slot even when it is refused because the slot was taken. */
  function OnPlace(state: WorkerState, ticket: Ticket): (WorkerState, Placement) {
    if state.outbound.None? then (state, NotConnected)
    else if state.pending.Some? then (state.(pending := Some(ticket)), AlreadyPending)
    else (state.(pending := Some(ticket)), Placed(state.outbound.value))
  }

  function OnFailPending(state: WorkerState): (WorkerState, Option<Ticket>) {
    (state.(pending := None), state.pending)
  }

  // ------------------------------------------------------------------- startup

  /** What the startup loop has seen; it drops everything but the two messages it waits for. */
  datatype Startup = Startup(helloSeen: bool, snapshot: Option<Snapshot>) {
    predicate Complete() { helloSeen && snapshot.Some? }
  }

  const NOTHING_SEEN := Startup(false, None)

  function OnStartupMessage(seen: Startup, message: ServerMessage): Startup {
    match message
    case HelloAck => seen.(helloSeen := true)
    case InitialSnapshot(snapshot) => seen.(snapshot := Some(snapshot))
    case _ => seen
  }

  /** How many of the messages startup consumes, or none when they run out first. */
  function StartupLength(seen: Startup, messages: seq<ServerMessage>): Option<nat>
    decreases messages
  {
    if seen.Complete() then Some(0)
    else if messages == [] then None
    else
      match StartupLength(OnStartupMessage(seen, messages[0]), messages[1..])
      case Some(n) => Some(n + 1)
      case None => None
  }

  function StartupSeen(seen: Startup, messages: seq<ServerMessage>): Startup
    decreases messages
  {
    if seen.Complete() || messages == [] then seen
    else StartupSeen(OnStartupMessage(seen, messages[0]), messages[1..])
  }

  // --------------------------------------------------------------------- object

  class DaemonSessionWorker {
    var connected: bool
    var outbound: Option<StreamId>
    var reader: Option<StreamId>
    var pending: Option<Ticket>
    const snapshot: StateStore.UiStateStore
    var reconnectCount: nat
    var continuityInvalidated: bool

    function View(): WorkerState
      reads this, snapshot
    {
      WorkerState(connected, outbound, reader, pending, snapshot.View(), reconnectCount, continuityInvalidated)
    }

    constructor ()
      ensures View() == NEW_WORKER && fresh(snapshot)
    {
      snapshot := new StateStore.UiStateStore();
      connected, outbound, reader, pending := false, None, None, None;
      reconnectCount, continuityInvalidated := 0, false;
    }

    /** Reads startup messages until acknowledgement and snapshot are both there; fails if they never are. */
    method Connect(messages: seq<ServerMessage>, stream: StreamId, isReconnect: bool) returns (used: Option<nat>)
      modifies this, snapshot
      ensures used == StartupLength(NOTHING_SEEN, messages)
      ensures View() ==
        if used.None? then old(View())
        else
          var seen := StartupSeen(NOTHING_SEEN, messages);
          OnConnect(old(View()), stream, if seen.snapshot.Some? then seen.snapshot.value else Snapshot(0, 0, []),
                    isReconnect)
    {
      var seen := NOTHING_SEEN;
      var n := 0;
      while !seen.Complete()
        invariant 0 <= n <= |messages|
        invariant StartupSeen(NOTHING_SEEN, messages) == StartupSeen(seen, messages[n..])
        invariant StartupLength(NOTHING_SEEN, messages) ==
          match StartupLength(seen, messages[n..]) { case Some(m) => Some(n + m) case None => None }
        decreases |messages| - n
      {
        if n == |messages| {
          return None;
        }
        seen := OnStartupMessage(seen, messages[n]);
        assert messages[n..][1..] == messages[n + 1..];
        n := n + 1;
      }
      connected := true;
      outbound := Some(stream);
      reader := Some(stream);
      snapshot.Replace(seen.snapshot.value);
      if isReconnect {
        reconnectCount := reconnectCount + 1;
        continuityInvalidated := true;
      }
      return Some(n);
    }

    /** One turn of the reader loop; returns the waiter that was handed a result. */
    method Receive(message: ServerMessage) returns (delivered: Option<Ticket>)
      modifies this, snapshot
      ensures (View(), delivered) == OnMessage(old(View()), message)
    {
      delivered := None;
      match message {
        case InitialSnapshot(s) => snapshot.Replace(s);
        case DiffMessage(diff) => var _ := snapshot.Apply(diff);
        case ActionResult(_) =>
          delivered := pending;
          pending := None;
        case Warning(code) =>
          if code == "session_state_recovered" {
            continuityInvalidated := true;
          }
        case HelloAck =>
        case Other =>
      }
    }

    /** The reader loop's last act. */
    method EndOfStream() returns (told: Option<Ticket>)
      modifies this
      ensures (View(), told) == OnStreamEnd(old(View()))
    {
      connected, outbound, reader := false, None, None;
      told := pending;
      pending := None;
    }

    method Close()
      modifies this
      ensures View() == OnClose(old(View()))
    {
      reader := None;
      connected := false;
      outbound := None;
      pending := None;
    }

    method PlaceWaiter(ticket: Ticket) returns (placement: Placement)
      modifies this
      ensures (View(), placement) == OnPlace(old(View()), ticket)
    {
      if outbound.None? {
        return NotConnected;
      }
      var occupied := pending.Some?;
      pending := Some(ticket);
      if occupied {
        return AlreadyPending;
      }
      return Placed(outbound.value);
    }

    method FailPending() returns (told: Option<Ticket>)
      modifies this
      ensures (View(), told) == OnFailPending(old(View()))
    {
      told := pending;
      pending := None;
    }
  }
}
