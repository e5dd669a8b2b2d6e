/**
 The snapshot an action reads: the session's cache unless the session is flagged, else a fresh
 capture. A batch that fails half way leaves no flag of its own, so whether its partial edits
 are served depends on how it failed.
 */
module BestEffort {
  import opened Wrappers
  import opened Domain
  import opened StateStore
  import opened Resync
  import RoundTrip
  import WireLaws

  /** What an action gets, given what a capture would answer. */
  function Served(record: Record, capture: Result<Snapshot, string>): Result<Snapshot, string> {
    if record.store.snapshot.Some? && record.store.resync.None? then Ok(record.store.snapshot.value)
    else Captured(record.store.rev, capture)
  }

  function Captured(rev: Revision, capture: Result<Snapshot, string>): Result<Snapshot, string> {
    match capture case Ok(snapshot) => Ok(NormalizeRevision(snapshot, rev)) case Err(e) => Err(e)
  }

  /** The session after a batch and a recapture that fails if it is needed. */
  function Unrecovered(record: Record, diff: DiffBatch, reason: string, now: int): Record {
    Forward(record, BackendDiff(diff), Err(reason), now).0
  }

  /** The refusals that flag the session themselves: by revision, or because the batch asks for it. */
  predicate FlaggingRefusal(error: StateError, diff: DiffBatch) {
    || error.StaleDiff?
    || error.NonMonotonicDiff?
    || (!error.MissingSnapshot? && RequestedResync(diff.ops).Some?)
  }

  /** After a refusal without recovery a session is flagged exactly if it was, or the refusal is of that kind. */
  lemma FlaggedAfterRefusalIff(record: Record, diff: DiffBatch, reason: string, now: int)
    requires RecordDiff(record, diff).1.Some?
    ensures Unrecovered(record, diff, reason, now).store.resync.Some? <==>
      record.store.resync.Some? || FlaggingRefusal(RecordDiff(record, diff).1.value, diff)
  {
    if record.store.snapshot.Some? { OpErrorsAreNotStale(record.store.snapshot.value.windows, diff.ops); }
  }

  /**
   What is served after a refusal without recovery: to a session that was unflagged, the cache
   with the edits up to the failing operation, unless the refusal flagged it; to any other, a
   fresh capture. The mirror is flagged in either case.
   */
  lemma ServedAfterRefusal(record: Record, diff: DiffBatch, reason: string, now: int, capture: Result<Snapshot, string>)
    requires RecordDiff(record, diff).1.Some? && record.store.snapshot.Some?
    ensures var cache := record.store.snapshot.value;
      Served(Unrecovered(record, diff, reason, now), capture)
        == if record.store.resync.Some? || FlaggingRefusal(RecordDiff(record, diff).1.value, diff)
           then Captured(record.store.rev, capture)
           else Ok(cache.(windows := ApplyOps(cache.windows, diff.ops).windows))
  {
    FlaggedAfterRefusalIff(record, diff, reason, now);
    OpErrorsAreNotStale(record.store.snapshot.value.windows, diff.ops);
  }

  /** An action reads what the client sees, over every run, as long as neither side is flagged. */
  lemma ServedIsMirrored(first: Snapshot, steps: seq<Step>, capture: Result<Snapshot, string>)
    requires forall i | 0 <= i < |steps| && steps[i].BackendActs? :: WireSafeEvent(steps[i].event)
    ensures var system := Run(Subscribed(first), steps);
      var proxy := Drained(system.proxy, system.inFlight);
      && proxy.Live? && proxy.worker.store.snapshot.Some?
      && (system.session.store.resync.None? && proxy.worker.store.resync.None? ==>
            var served := Served(system.session, capture);
            served.Ok? && WireLaws.SameWindows(served.value.windows, proxy.worker.store.snapshot.value.windows))
  {
    SubscribedRunsAreSafe(first, steps);
  }

  /**
   A desktop that never was: the batch removes the only window and then fails on a missing
   element. The action reads an empty desktop, at the old revision.
   */
  lemma EmptyDesktopIsServed(reason: string, now: int, capture: Result<Snapshot, string>)
    ensures var record := RecordSnapshot(Snapshot(1, 0, [RoundTrip.PairWindow(false)]));
      var diff := DiffBatch(1, 2, now, [WindowRemoved("window"), NodeRemoved("gone")]);
      && RecordDiff(record, diff).1 == Some(MissingElement("gone"))
      && Served(Unrecovered(record, diff, reason, now), capture) == Ok(Snapshot(1, 0, []))
  {
    var windows := [RoundTrip.PairWindow(false)];
    var ops := [WindowRemoved("window"), NodeRemoved("gone")];
    assert windows[1..] == [] && ops[1..] == [NodeRemoved("gone")];
    assert ApplyOps(windows, ops) == ApplyOps([], ops[1..]);
    assert RequestedResync(ops[1..]).None?;
    ServedAfterRefusal(RecordSnapshot(Snapshot(1, 0, windows)), DiffBatch(1, 2, now, ops), reason, now, capture);
  }
}
