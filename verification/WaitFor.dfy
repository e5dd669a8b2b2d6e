/**
 Waiting for a condition: the daemon looks at the session's snapshot once at the start and
 once after every published revision. What a look finds, and when, is a parameter.
 */
module WaitFor {
  import opened Wrappers
  import opened Domain

  type Condition = Snapshot -> bool

  /** One turn of the loop: the snapshot obtained, and the two clock readings after it. */
  datatype Turn = Turn(seen: Result<Snapshot, string>, matchedAt: int, checkedAt: int)

  datatype Waited = Completed(turn: nat) | TimedOut | CaptureFailed(error: string)

  predicate Matches(condition: Condition, turn: Turn) {
    turn.seen.Ok? && condition(turn.seen.value)
  }

  /** The turns from `j` to `k` all match and the one before `j`, if any, does not. */
  predicate SatisfiedSince(condition: Condition, turns: seq<Turn>, j: nat, k: nat) {
    && j <= k < |turns|
    && (forall i | j <= i <= k :: Matches(condition, turns[i]))
    && (j > 0 ==> !Matches(condition, turns[j - 1]))
  }

  /** The condition has been seen to hold for long enough by turn `k`. */
  predicate StableAt(condition: Condition, turns: seq<Turn>, stableFor: nat, k: nat) {
    exists j | 0 <= j <= k :: Since(condition, turns, stableFor, j, k)
  }

  predicate Since(condition: Condition, turns: seq<Turn>, stableFor: nat, j: nat, k: nat) {
    SatisfiedSince(condition, turns, j, k) && turns[k].matchedAt - turns[j].matchedAt >= stableFor
  }

  /** Turn `i` leaves the loop waiting: captured, short of the deadline and not yet stable. */
  predicate Passed(condition: Condition, turns: seq<Turn>, stableFor: nat, deadline: int, i: nat)
    requires i < |turns|
  {
    turns[i].seen.Ok? && turns[i].checkedAt < deadline && !StableAt(condition, turns, stableFor, i)
  }

  /** The loop takes turn `k`: it passed every earlier one. */
  predicate Reaches(condition: Condition, turns: seq<Turn>, stableFor: nat, deadline: int, k: nat) {
    k <= |turns| && forall i: nat | i < k :: Passed(condition, turns, stableFor, deadline, i)
  }

  /** Some turn finds the condition stable and is taken. */
  predicate Completes(condition: Condition, turns: seq<Turn>, stableFor: nat, deadline: int) {
    exists k: nat | k < |turns| :: CompletesAt(condition, turns, stableFor, deadline, k)
  }

  predicate CompletesAt(condition: Condition, turns: seq<Turn>, stableFor: nat, deadline: int, k: nat)
    requires k < |turns|
  {
    Reaches(condition, turns, stableFor, deadline, k) && StableAt(condition, turns, stableFor, k)
  }

  /** Some turn is taken whose snapshot cannot be had. */
  predicate FailsWith(condition: Condition, turns: seq<Turn>, stableFor: nat, deadline: int, error: string) {
    exists k: nat | k < |turns| :: FailsAt(condition, turns, stableFor, deadline, error, k)
  }

  predicate FailsAt(condition: Condition, turns: seq<Turn>, stableFor: nat, deadline: int, error: string, k: nat)
    requires k < |turns|
  {
    Reaches(condition, turns, stableFor, deadline, k) && turns[k].seen == Err(error)
  }

  lemma SinceIsUnique(condition: Condition, turns: seq<Turn>, i: nat, j: nat, k: nat)
    requires SatisfiedSince(condition, turns, i, k) && SatisfiedSince(condition, turns, j, k)
    ensures i == j
  {
  }

  /** Stability is measured from the one turn the condition has been satisfied since. */
  lemma StableSince(condition: Condition, turns: seq<Turn>, stableFor: nat, j: nat, k: nat)
    requires SatisfiedSince(condition, turns, j, k)
    ensures StableAt(condition, turns, stableFor, k) <==> turns[k].matchedAt - turns[j].matchedAt >= stableFor
  {
    if turns[k].matchedAt - turns[j].matchedAt >= stableFor { assert Since(condition, turns, stableFor, j, k); }
    if i: nat :| i <= k && Since(condition, turns, stableFor, i, k) { SinceIsUnique(condition, turns, i, j, k); }
  }

  lemma UnsatisfiedIsUnstable(condition: Condition, turns: seq<Turn>, stableFor: nat, k: nat)
    requires k < |turns| && !Matches(condition, turns[k])
    ensures !StableAt(condition, turns, stableFor, k)
  {
  }

  /** The first turn not passed decides the outcome. */
  lemma FirstNotPassedDecides(condition: Condition, turns: seq<Turn>, stableFor: nat, deadline: int, k: nat)
    requires k < |turns| && Reaches(condition, turns, stableFor, deadline, k)
    requires !Passed(condition, turns, stableFor, deadline, k)
    ensures Completes(condition, turns, stableFor, deadline) <==> StableAt(condition, turns, stableFor, k)
    ensures forall e :: FailsWith(condition, turns, stableFor, deadline, e) <==> turns[k].seen == Err(e)
  {
    if StableAt(condition, turns, stableFor, k) { assert CompletesAt(condition, turns, stableFor, deadline, k); }
    forall i: nat | i < |turns| && CompletesAt(condition, turns, stableFor, deadline, i) ensures i == k {
      LastReached(condition, turns, stableFor, deadline, i, k);
    }
    forall e ensures FailsWith(condition, turns, stableFor, deadline, e) <==> turns[k].seen == Err(e) {
      if turns[k].seen == Err(e) { assert FailsAt(condition, turns, stableFor, deadline, e, k); }
      forall i: nat | i < |turns| && FailsAt(condition, turns, stableFor, deadline, e, i) ensures i == k {
        LastReached(condition, turns, stableFor, deadline, i, k);
      }
    }
  }

  /** Of two turns the loop takes and does not pass, neither comes first. */
  lemma LastReached(condition: Condition, turns: seq<Turn>, stableFor: nat, deadline: int, i: nat, k: nat)
    requires i < |turns| && Reaches(condition, turns, stableFor, deadline, i)
    requires k < |turns| && Reaches(condition, turns, stableFor, deadline, k)
    requires !Passed(condition, turns, stableFor, deadline, i) && !Passed(condition, turns, stableFor, deadline, k)
    ensures i == k
  {
  }

  lemma AllPassedTimesOut(condition: Condition, turns: seq<Turn>, stableFor: nat, deadline: int)
    requires Reaches(condition, turns, stableFor, deadline, |turns|)
    ensures !Completes(condition, turns, stableFor, deadline)
    ensures forall e :: !FailsWith(condition, turns, stableFor, deadline, e)
  {
    forall i: nat | i < |turns| ensures turns[i].seen.Ok? && !StableAt(condition, turns, stableFor, i) {
      assert Passed(condition, turns, stableFor, deadline, i);
    }
  }

  /**
   Waits over the turns that revisions trigger; when they run out the timer fires. Completion
   is reported at the first turn that finds the condition stable, no turn having met the
   deadline before.
   */
  method ExecuteWaitFor(condition: Condition, turns: seq<Turn>, stableFor: nat, startedAt: int, timeout: nat)
    returns (waited: Waited)
    ensures var deadline := startedAt + if timeout == 0 then 1 else timeout;
      && (waited.Completed? <==> Completes(condition, turns, stableFor, deadline))
      && (waited.Completed? ==>
            waited.turn < |turns| && CompletesAt(condition, turns, stableFor, deadline, waited.turn))
      && forall e :: waited == CaptureFailed(e) <==> FailsWith(condition, turns, stableFor, deadline, e)
  {
    var deadline := startedAt + if timeout == 0 then 1 else timeout;
    var satisfiedSince: Option<int> := None;
    ghost var j: nat := 0;
    for k := 0 to |turns|
      invariant Reaches(condition, turns, stableFor, deadline, k)
      invariant satisfiedSince.Some? <==> k > 0 && Matches(condition, turns[k - 1])
      invariant satisfiedSince.Some? ==>
        SatisfiedSince(condition, turns, j, k - 1) && satisfiedSince == Some(turns[j].matchedAt)
    {
      if turns[k].seen.Err? {
        FirstNotPassedDecides(condition, turns, stableFor, deadline, k);
        return CaptureFailed(turns[k].seen.error);
      }
      if condition(turns[k].seen.value) {
        if satisfiedSince.None? {
          satisfiedSince := Some(turns[k].matchedAt);
          j := k;
        }
        StableSince(condition, turns, stableFor, j, k);
        if turns[k].matchedAt - satisfiedSince.value >= stableFor {
          FirstNotPassedDecides(condition, turns, stableFor, deadline, k);
          return Completed(k);
        }
      } else {
        satisfiedSince := None;
        UnsatisfiedIsUnstable(condition, turns, stableFor, k);
      }
      if turns[k].checkedAt >= deadline {
        FirstNotPassedDecides(condition, turns, stableFor, deadline, k);
        return TimedOut;
      }
    }
    AllPassedTimesOut(condition, turns, stableFor, deadline);
    return TimedOut;
  }

  /**
   What a wait can miss: once the condition holds for good from turn `j` on, completion needs
   another revision late enough, and before the deadline, to trigger a look; that the
   condition itself lasts is not enough.
   */
  lemma LastingConditionCompletesIff(condition: Condition, turns: seq<Turn>, stableFor: nat, deadline: int, j: nat)
    requires j < |turns|
    requires forall i | 0 <= i < |turns| :: turns[i].seen.Ok?
    requires forall i | 0 <= i < |turns| :: Matches(condition, turns[i]) <==> j <= i
    ensures Completes(condition, turns, stableFor, deadline)
      <==> (exists k: nat | j <= k < |turns| :: LooksInTime(turns, stableFor, deadline, j, k))
  {
    forall k: nat | k < |turns| ensures StableAt(condition, turns, stableFor, k)
      <==> j <= k && turns[k].matchedAt - turns[j].matchedAt >= stableFor
    {
      StableMeansSinceFirst(condition, turns, stableFor, j, k);
    }
    if k: nat :| j <= k < |turns| && LooksInTime(turns, stableFor, deadline, j, k) {
      FirstStable(condition, turns, stableFor, deadline, k);
    }
    if k: nat :| k < |turns| && CompletesAt(condition, turns, stableFor, deadline, k) {
      forall i: nat | i < k ensures turns[i].checkedAt < deadline {
        assert Passed(condition, turns, stableFor, deadline, i);
      }
      assert LooksInTime(turns, stableFor, deadline, j, k);
    }
  }

  /** Turn `k` looks late enough after turn `j`, and no turn before it has met the deadline. */
  predicate LooksInTime(turns: seq<Turn>, stableFor: nat, deadline: int, j: nat, k: nat)
    requires j <= k < |turns|
  {
    && turns[k].matchedAt - turns[j].matchedAt >= stableFor
    && forall i | 0 <= i < k :: turns[i].checkedAt < deadline
  }

  lemma StableMeansSinceFirst(condition: Condition, turns: seq<Turn>, stableFor: nat, j: nat, k: nat)
    requires j < |turns| && k < |turns|
    requires forall i | 0 <= i < |turns| :: Matches(condition, turns[i]) <==> j <= i
    ensures StableAt(condition, turns, stableFor, k)
      <==> j <= k && turns[k].matchedAt - turns[j].matchedAt >= stableFor
  {
    if j <= k { StableSince(condition, turns, stableFor, j, k); }
  }

  /** Of the stable turns before the deadline, the loop reaches the first. */
  lemma {:induction false} FirstStable(condition: Condition, turns: seq<Turn>, stableFor: nat, deadline: int, k: nat)
    requires k < |turns| && StableAt(condition, turns, stableFor, k)
    requires forall i | 0 <= i < |turns| :: turns[i].seen.Ok?
    requires forall i | 0 <= i < k :: turns[i].checkedAt < deadline
    ensures Completes(condition, turns, stableFor, deadline)
  {
    if i: nat :| i < k && StableAt(condition, turns, stableFor, i) {
      FirstStable(condition, turns, stableFor, deadline, i);
    } else {
      assert CompletesAt(condition, turns, stableFor, deadline, k);
    }
  }

  /** A desktop that satisfies the condition from the start and then rests times every stable wait out. */
  lemma RestingDesktopTimesOut(condition: Condition, turn: Turn, stableFor: nat, deadline: int)
    requires Matches(condition, turn) && stableFor > 0
    ensures !Completes(condition, [turn], stableFor, deadline)
  {
    StableMeansSinceFirst(condition, [turn], stableFor, 0, 0);
  }
}
