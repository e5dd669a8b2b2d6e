/** Laws of artifact retention: minimal eviction, surviving one's own write, and the byte books. */
module ArtifactLaws {
  import opened Artifacts
  import Sorting

  // ------------------------------------------------------------ minimal eviction

  /** Bytes the counter charges beyond the live records. */
  function Slack(account: Account): int {
    account.totalBytes - Sum(account.live)
  }

  lemma AllowedIffFits(account: Account, retention: Retention, now: int, k: nat)
    requires k <= |account.live| && Slack(account) >= 0
    requires k < |account.live| || Slack(account) == 0
    ensures Allowed(retention, now, account.live[k..], Slack(account))
            <==> Fits(account.live, account.totalBytes, retention, now, k)
  {
    var rest := account.live[k..];
    SumSplits(account.live, k);
    if forall a | a in rest :: !Expired(retention, now, a) {
      forall i | k <= i < |account.live| ensures !Expired(retention, now, account.live[i]) {
        assert account.live[i] == rest[i - k];
      }
    }
  }

  lemma {:induction false} FitsIsMonotone(records: seq<Artifact>, total: nat, retention: Retention, now: int, j: nat, k: nat)
    requires j <= k <= |records| && Fits(records, total, retention, now, j)
    ensures Fits(records, total, retention, now, k)
  {
    SumSplits(records[..k], j);
    assert records[..k][..j] == records[..j];
  }

  /** Which tails the policy allows, charging the counter's slack beside them. */
  lemma TailAllowedIff(account: Account, retention: Retention, now: int, j: nat)
    requires Slack(account) >= 0
    requires j < |account.live| || (j == |account.live| && Slack(account) == 0)
    ensures Allowed(retention, now, account.live[j..], Slack(account))
      <==> Cut(account.live, account.totalBytes, retention, now) <= j
  {
    var n := |account.live|;
    var k := Cut(account.live, account.totalBytes, retention, now);
    AllowedIffFits(account, retention, now, j);
    if k <= j {
      if k < n { FitsIsMonotone(account.live, account.totalBytes, retention, now, k, j); }
      else { SumSplits(account.live, n); assert account.live[..n] == account.live; }
    }
  }

  /**
   A successful cleanup keeps the longest allowed tail of the records in age order, charging
   the counter's slack beside it, and leaves the counter exact. The kept records satisfy the
   policy, and evicting any fewer would not have.
   */
  lemma CleanupKeepsLongestAllowedTail(account: Account, retention: Retention, now: int, undeletable: set<ArtifactId>)
    requires Slack(account) >= 0
    requires CleanupSucceeds(account, retention, now, undeletable)
    ensures var k := |account.live| - |Cleaned(account, retention, now, undeletable).live|;
      && 0 <= k && Cleaned(account, retention, now, undeletable).live == account.live[k..]
      && forall j: nat | j < |account.live| || (j == |account.live| && Slack(account) == 0) ::
        Allowed(retention, now, account.live[j..], Slack(account)) <==> k <= j
    ensures Allowed(retention, now, Cleaned(account, retention, now, undeletable).live, 0)
    ensures Slack(Cleaned(account, retention, now, undeletable)) == 0
  {
    var k := Cut(account.live, account.totalBytes, retention, now);
    SucceedsIff(account, retention, now, undeletable);
    var n := |account.live|;
    forall j: nat | j < n || (j == n && Slack(account) == 0)
      ensures Allowed(retention, now, account.live[j..], Slack(account)) <==> k <= j
    {
      TailAllowedIff(account, retention, now, j);
    }
    if k < n { AllowedIffFits(account, retention, now, k); }
  }

  /**
   A write newer than everything kept survives the cleanup it triggers if and only if it has
   not expired, artifacts may be kept at all and it fits the byte budget beside the counter's
   slack, which is zero unless a delete failed since the last successful cleanup; the caller
   gets its descriptor either way.
   */
  lemma NewestSurvivesIff(account: Account, retention: Retention, a: Artifact, now: int, undeletable: set<ArtifactId>)
    requires Slack(account) >= 0
    requires forall r | r in account.live :: Older(r, a)
    requires CleanupSucceeds(Recorded(account, a), retention, now, undeletable)
    ensures a in Cleaned(Recorded(account, a), retention, now, undeletable).live
      <==> !Expired(retention, now, a) && retention.maxCount >= 1 && a.size + Slack(account) <= retention.maxBytes
  {
    var recorded := Recorded(account, a);
    var k := Cut(recorded.live, recorded.totalBytes, retention, now);
    InsertNewest(account.live, a);
    SumOfInserted(a, account.live);
    SucceedsIff(recorded, retention, now, undeletable);
    LastOfTail(account.live, a, k);
    TailAllowedIff(recorded, retention, now, |account.live|);
    AllowedAlone(retention, now, a, Slack(account));
  }

  lemma LastOfTail(live: seq<Artifact>, a: Artifact, k: nat)
    requires k <= |live| + 1
    ensures (live + [a])[|live|..] == [a]
    ensures a in (live + [a])[k..] <==> k <= |live|
  {
    if k <= |live| { assert (live + [a])[k..][|live| - k] == a; }
  }

  lemma AllowedAlone(retention: Retention, now: int, a: Artifact, slack: nat)
    ensures Allowed(retention, now, [a], slack)
      <==> !Expired(retention, now, a) && retention.maxCount >= 1 && a.size + slack <= retention.maxBytes
  {
    assert Sum([a]) == a.size;
    assert a in [a];
  }

  lemma {:induction false} InsertNewest(live: seq<Artifact>, a: Artifact)
    requires forall r | r in live :: Older(r, a)
    ensures Sorting.Insert(NotNewer, a, live) == live + [a]
  {
    if live != [] {
      assert live[0] in live;
      InsertNewest(live[1..], a);
      assert live == [live[0]] + live[1..];
    }
  }

  // ------------------------------------------------------------------ whole runs

  datatype Event =
    | Write(artifact: Artifact, stored: bool, now: int, undeletable: set<ArtifactId>)
    | Cleanup(now: int, undeletable: set<ArtifactId>)

  /** The account an event's cleanup starts from, if it gets that far. */
  function Entering(account: Account, event: Event): Account {
    if event.Write? && event.stored then Recorded(account, event.artifact) else account
  }

  predicate Cleans(event: Event) {
    event.Cleanup? || event.stored
  }

  function After(account: Account, retention: Retention, event: Event): Account {
    if Cleans(event) then Cleaned(Entering(account, event), retention, event.now, event.undeletable) else account
  }

  function Run(account: Account, retention: Retention, events: seq<Event>): Account {
    if events == [] then account
    else After(Run(account, retention, events[..|events| - 1]), retention, events[|events| - 1])
  }

  predicate Fails(account: Account, retention: Retention, event: Event) {
    Cleans(event) && !CleanupSucceeds(Entering(account, event), retention, event.now, event.undeletable)
  }

  /** Bytes of the records a failing cleanup drops. */
  function Dropped(account: Account, retention: Retention, event: Event): nat {
    if Fails(account, retention, event) then
      SaturatingSub(Sum(Entering(account, event).live), Sum(After(account, retention, event).live))
    else 0
  }

  /**
   Bytes dropped by failed cleanups: `pending` since the last successful cleanup, `forgotten`
   before it.
   */
  datatype Lost = Lost(pending: nat, forgotten: nat)

  function LostIn(account: Account, retention: Retention, events: seq<Event>): Lost {
    if events == [] then Lost(0, 0)
    else
      var before := events[..|events| - 1];
      var event := events[|events| - 1];
      var lost := LostIn(account, retention, before);
      var at := Run(account, retention, before);
      if Fails(at, retention, event) then lost.(pending := lost.pending + Dropped(at, retention, event))
      else if Cleans(event) then Lost(0, lost.forgotten + lost.pending)
      else lost
  }

  /** Every write gets an id that no live artifact has. */
  predicate FreshIds(account: Account, retention: Retention, events: seq<Event>) {
    events == [] || (
      var before := events[..|events| - 1];
      var event := events[|events| - 1];
      && FreshIds(account, retention, before)
      && (event.Write? ==> event.artifact.id !in Ids(Run(account, retention, before).live)))
  }

  lemma SumOfInserted(a: Artifact, live: seq<Artifact>)
    ensures Sum(Sorting.Insert(NotNewer, a, live)) == a.size + Sum(live)
  {
    if live != [] && !NotNewer(a, live[0]) {
      SumOfInserted(a, live[1..]);
    }
  }

  /** What one event does to the books. */
  lemma EventBalances(account: Account, retention: Retention, event: Event)
    requires Slack(account) >= 0
    ensures var after := After(account, retention, event);
      && (Fails(account, retention, event) ==>
        && after.writtenBytes - account.writtenBytes == after.totalBytes - account.totalBytes
        && after.deletedBytes == account.deletedBytes
        && Slack(after) == Slack(account) + Dropped(account, retention, event))
      && (Cleans(event) && !Fails(account, retention, event) ==>
        && Slack(after) == 0
        && after.writtenBytes - account.writtenBytes
           == after.totalBytes + after.deletedBytes - account.totalBytes - account.deletedBytes + Slack(account))
      && (!Cleans(event) ==> after == account)
  {
    if Cleans(event) {
      if event.Write? { SumOfInserted(event.artifact, account.live); }
      CleanedBalances(Entering(account, event), retention, event.now, event.undeletable);
    }
  }

  /** A failing cleanup leaves the counters, a successful one moves what it evicts. */
  lemma CleanedBalances(account: Account, retention: Retention, now: int, undeletable: set<ArtifactId>)
    ensures var after := Cleaned(account, retention, now, undeletable);
      && Sum(after.live) <= Sum(account.live)
      && after.writtenBytes == account.writtenBytes
      && (if CleanupSucceeds(account, retention, now, undeletable)
          then after.totalBytes == Sum(after.live)
               && after.deletedBytes == account.deletedBytes + Sum(account.live) - Sum(after.live)
          else after.totalBytes == account.totalBytes && after.deletedBytes == account.deletedBytes)
  {
    var planned := Planned(account, retention, now);
    var n := Deletable(planned, undeletable);
    SucceedsIff(account, retention, now, undeletable);
    SumSplits(account.live, n);
    assert planned[..n] == account.live[..n];
    assert n == |planned| ==> planned[..n] == planned;
    if n < |planned| { SumSplits(account.live, n + 1); }
  }

  /**
   Over every run from opening: the live records stay an inventory in age order; the byte
   counter never falls below their sum and exceeds it by exactly the bytes failed cleanups
   dropped since the last successful one; and what was written or swept equals the counter
   plus the deleted bytes plus exactly the bytes that a successful cleanup made the store
   forget.
   */
  lemma {:induction false} BooksBalance(orphans: seq<nat>, retention: Retention, events: seq<Event>)
    requires FreshIds(Opened(orphans), retention, events)
    ensures var s := Run(Opened(orphans), retention, events);
      var lost := LostIn(Opened(orphans), retention, events);
      && Inventory(s.live)
      && s.totalBytes == Sum(s.live) + lost.pending
      && s.writtenBytes + SumOf(orphans) == s.totalBytes + s.deletedBytes + lost.forgotten
    decreases |events|
  {
    if events != [] {
      var before := events[..|events| - 1];
      var event := events[|events| - 1];
      BooksBalance(orphans, retention, before);
      var at := Run(Opened(orphans), retention, before);
      EventBalances(at, retention, event);
      EventKeepsInventory(at, retention, event);
    }
  }

  lemma EventKeepsInventory(account: Account, retention: Retention, event: Event)
    requires Inventory(account.live)
    requires event.Write? ==> event.artifact.id !in Ids(account.live)
    ensures Inventory(After(account, retention, event).live)
  {
    if Cleans(event) {
      var entering := Entering(account, event);
      if event.Write? { RecordedKeepsInventory(account, event.artifact); }
      CleanedKeepsInventory(entering, retention, event.now, event.undeletable);
    }
  }

  lemma RecordedKeepsInventory(account: Account, a: Artifact)
    requires Inventory(account.live) && a.id !in Ids(account.live)
    ensures Inventory(Recorded(account, a).live)
  {
    forall r | r in account.live ensures r.id != a.id {
      var i :| 0 <= i < |account.live| && account.live[i] == r;
      assert Ids(account.live)[i] == r.id;
    }
    InsertKeepsInventory(a, account.live);
  }

  lemma CleanedKeepsInventory(account: Account, retention: Retention, now: int, undeletable: set<ArtifactId>)
    requires Inventory(account.live)
    ensures Inventory(Cleaned(account, retention, now, undeletable).live)
  {
    var planned := Planned(account, retention, now);
    var n := Deletable(planned, undeletable);
    InventoryOfTail(account.live, if n < |planned| then n + 1 else n);
  }

  lemma InventoryOfTail(records: seq<Artifact>, k: nat)
    requires Inventory(records) && k <= |records|
    ensures Inventory(records[k..])
  {
  }

  // ------------------------------------------------------------ which runs lose

  /** The records a failing cleanup drops: those it could delete, and the first that it could not. */
  function DroppedRecords(account: Account, retention: Retention, event: Event): seq<Artifact> {
    var planned := Planned(Entering(account, event), retention, event.now);
    var n := Deletable(planned, event.undeletable);
    if Cleans(event) && n < |planned| then planned[..n + 1] else []
  }

  /** A cleanup that fails and drops an artifact that is not empty. */
  predicate Loses(account: Account, retention: Retention, event: Event) {
    exists a | a in DroppedRecords(account, retention, event) :: a.size > 0
  }

  lemma {:induction false} SumPositiveIff(records: seq<Artifact>)
    ensures Sum(records) > 0 <==> exists a | a in records :: a.size > 0
  {
    if records != [] {
      SumPositiveIff(records[1..]);
      assert forall a :: a in records <==> a == records[0] || a in records[1..];
    }
  }

  lemma DroppedSum(account: Account, retention: Retention, now: int, n: nat)
    requires n < |Planned(account, retention, now)|
    ensures Sum(account.live) == Sum(Planned(account, retention, now)[..n + 1]) + Sum(account.live[n + 1..])
  {
    SumSplits(account.live, n + 1);
    assert Planned(account, retention, now)[..n + 1] == account.live[..n + 1];
  }

  /** The bytes a failing cleanup drops are those of the records it drops. */
  lemma DroppedIs(account: Account, retention: Retention, event: Event)
    ensures Dropped(account, retention, event) == Sum(DroppedRecords(account, retention, event))
  {
    var entering := Entering(account, event);
    var planned := Planned(entering, retention, event.now);
    var n := Deletable(planned, event.undeletable);
    SucceedsIff(entering, retention, event.now, event.undeletable);
    if n < |planned| { DroppedSum(entering, retention, event.now, n); }
  }

  lemma LosesIffDrops(account: Account, retention: Retention, event: Event)
    ensures Loses(account, retention, event) <==> Dropped(account, retention, event) > 0
  {
    DroppedIs(account, retention, event);
    SumPositiveIff(DroppedRecords(account, retention, event));
  }

  predicate LosesAt(account: Account, retention: Retention, events: seq<Event>, i: nat)
    requires i < |events|
  {
    Loses(Run(account, retention, events[..i]), retention, events[i])
  }

  predicate SucceedsAt(account: Account, retention: Retention, events: seq<Event>, i: nat)
    requires i < |events|
  {
    Cleans(events[i]) && !Fails(Run(account, retention, events[..i]), retention, events[i])
  }

  predicate SucceedsAfter(account: Account, retention: Retention, events: seq<Event>, i: nat) {
    exists j | i < j < |events| :: SucceedsAt(account, retention, events, j)
  }

  /** A failing cleanup drops bytes and a later one succeeds. */
  predicate ForgetsBytes(account: Account, retention: Retention, events: seq<Event>) {
    exists i | 0 <= i < |events| :: ForgottenAt(account, retention, events, i)
  }

  predicate ForgottenAt(account: Account, retention: Retention, events: seq<Event>, i: nat)
    requires i < |events|
  {
    LosesAt(account, retention, events, i) && SucceedsAfter(account, retention, events, i)
  }

  /** A failing cleanup drops bytes and no later one succeeds. */
  predicate OwesBytes(account: Account, retention: Retention, events: seq<Event>) {
    exists i | 0 <= i < |events| :: OwedAt(account, retention, events, i)
  }

  predicate OwedAt(account: Account, retention: Retention, events: seq<Event>, i: nat)
    requires i < |events|
  {
    LosesAt(account, retention, events, i) && !SucceedsAfter(account, retention, events, i)
  }

  /** What an event adds to what is known of the events before it. */
  lemma LossesOfPrefix(account: Account, retention: Retention, events: seq<Event>, i: nat)
    requires i < |events| - 1
    ensures var before, last := events[..|events| - 1], |events| - 1;
      && (LosesAt(account, retention, events, i) <==> LosesAt(account, retention, before, i))
      && (SucceedsAfter(account, retention, events, i) <==>
            SucceedsAfter(account, retention, before, i) || SucceedsAt(account, retention, events, last))
  {
    var before := events[..|events| - 1];
    assert before[..i] == events[..i];
    forall j | i < j < |before|
      ensures SucceedsAt(account, retention, events, j) <==> SucceedsAt(account, retention, before, j)
    {
      assert before[..j] == events[..j];
    }
  }

  lemma AtOfPrefix(account: Account, retention: Retention, events: seq<Event>, i: nat)
    requires i < |events| - 1
    ensures var before, succeeds := events[..|events| - 1], SucceedsAt(account, retention, events, |events| - 1);
      && (OwedAt(account, retention, events, i) <==> OwedAt(account, retention, before, i) && !succeeds)
      && (ForgottenAt(account, retention, events, i) <==>
            ForgottenAt(account, retention, before, i) || (OwedAt(account, retention, before, i) && succeeds))
  {
    LossesOfPrefix(account, retention, events, i);
  }

  lemma AtLast(account: Account, retention: Retention, events: seq<Event>)
    requires events != []
    ensures !ForgottenAt(account, retention, events, |events| - 1)
    ensures OwedAt(account, retention, events, |events| - 1) <==> LosesAt(account, retention, events, |events| - 1)
  {
    assert !SucceedsAfter(account, retention, events, |events| - 1);
  }

  lemma OneMoreForgets(account: Account, retention: Retention, events: seq<Event>)
    requires events != []
    ensures var before, last := events[..|events| - 1], |events| - 1;
      ForgetsBytes(account, retention, events) <==>
        || ForgetsBytes(account, retention, before)
        || (SucceedsAt(account, retention, events, last) && OwesBytes(account, retention, before))
  {
    var before, last := events[..|events| - 1], |events| - 1;
    AtLast(account, retention, events);
    if i :| 0 <= i < |events| && ForgottenAt(account, retention, events, i) {
      if i < last { AtOfPrefix(account, retention, events, i); }
    }
    if i :| 0 <= i < last && ForgottenAt(account, retention, before, i) { AtOfPrefix(account, retention, events, i); }
    if i :| 0 <= i < last && OwedAt(account, retention, before, i) { AtOfPrefix(account, retention, events, i); }
  }

  lemma StillOwes(account: Account, retention: Retention, events: seq<Event>)
    requires events != [] && !SucceedsAt(account, retention, events, |events| - 1)
    requires OwesBytes(account, retention, events[..|events| - 1])
    ensures OwesBytes(account, retention, events)
  {
    var before := events[..|events| - 1];
    var i :| 0 <= i < |before| && OwedAt(account, retention, before, i);
    AtOfPrefix(account, retention, events, i);
  }

  lemma OwedBefore(account: Account, retention: Retention, events: seq<Event>)
    requires events != []
    requires OwesBytes(account, retention, events) && !LosesAt(account, retention, events, |events| - 1)
    ensures !SucceedsAt(account, retention, events, |events| - 1)
    ensures OwesBytes(account, retention, events[..|events| - 1])
  {
    var i :| 0 <= i < |events| && OwedAt(account, retention, events, i);
    AtOfPrefix(account, retention, events, i);
  }

  lemma OneMoreOwes(account: Account, retention: Retention, events: seq<Event>)
    requires events != []
    ensures var before, last := events[..|events| - 1], |events| - 1;
      OwesBytes(account, retention, events) <==>
        || LosesAt(account, retention, events, last)
        || (!SucceedsAt(account, retention, events, last) && OwesBytes(account, retention, before))
  {
    var before, last := events[..|events| - 1], |events| - 1;
    if LosesAt(account, retention, events, last) {
      AtLast(account, retention, events);
    } else if OwesBytes(account, retention, events) {
      OwedBefore(account, retention, events);
    } else if !SucceedsAt(account, retention, events, last) && OwesBytes(account, retention, before) {
      StillOwes(account, retention, events);
    }
  }

  /** How the last event changes what is lost. */
  lemma LastEventLoses(account: Account, retention: Retention, events: seq<Event>)
    requires events != []
    ensures var lost, last := LostIn(account, retention, events[..|events| - 1]), |events| - 1;
      var after := LostIn(account, retention, events);
      && (LosesAt(account, retention, events, last) ==> after.pending > 0 && after.forgotten == lost.forgotten)
      && (SucceedsAt(account, retention, events, last) ==> after == Lost(0, lost.forgotten + lost.pending))
      && (!LosesAt(account, retention, events, last) && !SucceedsAt(account, retention, events, last) ==> after == lost)
    ensures LosesAt(account, retention, events, |events| - 1) ==> !SucceedsAt(account, retention, events, |events| - 1)
  {
    LosesIffDrops(Run(account, retention, events[..|events| - 1]), retention, events[|events| - 1]);
  }

  lemma {:induction false} LostIffEvents(account: Account, retention: Retention, events: seq<Event>)
    ensures LostIn(account, retention, events).forgotten > 0 <==> ForgetsBytes(account, retention, events)
    ensures LostIn(account, retention, events).pending > 0 <==> OwesBytes(account, retention, events)
    decreases |events|
  {
    if events != [] {
      var before, last := events[..|events| - 1], |events| - 1;
      LostIffEvents(account, retention, before);
      OneMoreForgets(account, retention, events);
      OneMoreOwes(account, retention, events);
      LastEventLoses(account, retention, events);
    }
  }

  /**
   Bytes are conserved, at the end of a run, if and only if no failing cleanup that dropped a
   non-empty artifact was followed by a successful one; the counter is exact if and only if
   every such cleanup was. Runs without delete errors satisfy both, and after any run a
   successful cleanup leaves only what the policy allows.
   */
  lemma ConservationIff(orphans: seq<nat>, retention: Retention, events: seq<Event>)
    requires FreshIds(Opened(orphans), retention, events)
    ensures var s := Run(Opened(orphans), retention, events);
      && (s.writtenBytes + SumOf(orphans) == s.totalBytes + s.deletedBytes <==>
            !ForgetsBytes(Opened(orphans), retention, events))
      && (s.totalBytes == Sum(s.live) <==> !OwesBytes(Opened(orphans), retention, events))
      && ((forall i | 0 <= i < |events| :: events[i].undeletable == {}) ==>
            LostIn(Opened(orphans), retention, events) == Lost(0, 0))
      && forall now, undeletable | CleanupSucceeds(s, retention, now, undeletable) ::
        Allowed(retention, now, Cleaned(s, retention, now, undeletable).live, 0)
  {
    BooksBalance(orphans, retention, events);
    LostIffEvents(Opened(orphans), retention, events);
    var s := Run(Opened(orphans), retention, events);
    forall now, undeletable | CleanupSucceeds(s, retention, now, undeletable)
      ensures Allowed(retention, now, Cleaned(s, retention, now, undeletable).live, 0)
    {
      CleanupKeepsLongestAllowedTail(s, retention, now, undeletable);
    }
    if forall i | 0 <= i < |events| :: events[i].undeletable == {} {
      DeletableFilesLoseNothing(Opened(orphans), retention, events);
    }
  }

  lemma {:induction false} DeletableFilesLoseNothing(account: Account, retention: Retention, events: seq<Event>)
    requires forall i | 0 <= i < |events| :: events[i].undeletable == {}
    ensures LostIn(account, retention, events) == Lost(0, 0)
    decreases |events|
  {
    if events != [] {
      DeletableFilesLoseNothing(account, retention, events[..|events| - 1]);
    }
  }

  const ROOM_FOR_ONE := Retention(1000, 1000, 1)
  const FIRST := Artifact("a", 1, 5)
  const SECOND := Artifact("b", 2, 7)
  const WRITE_FIRST := Write(FIRST, true, 1, {})
  const WRITE_SECOND := Write(SECOND, true, 2, {"a"})

  lemma NothingToEvict(account: Account, retention: Retention, now: int, undeletable: set<ArtifactId>)
    requires Fits(account.live, account.totalBytes, retention, now, 0)
    ensures Cleaned(account, retention, now, undeletable)
      == account.(totalBytes := Sum(account.live), cleanupRuns := account.cleanupRuns + 1)
  {
    CutIsUnique(account.live, account.totalBytes, retention, now,
                Cut(account.live, account.totalBytes, retention, now), 0);
    assert account.live[0..] == account.live;
  }

  lemma FirstWriteIsKept()
    ensures After(Opened([]), ROOM_FOR_ONE, WRITE_FIRST) == Account([FIRST], 5, 5, 0, 0, 1)
  {
    var account := Recorded(Opened([]), FIRST);
    assert account.live == [FIRST] && account.live[..0] == [];
    assert Sum([FIRST]) == 5;
    NothingToEvict(account, ROOM_FOR_ONE, 1, {});
  }

  lemma SecondWriteFails()
    ensures After(Account([FIRST], 5, 5, 0, 0, 1), ROOM_FOR_ONE, WRITE_SECOND) == Account([SECOND], 12, 12, 0, 0, 1)
  {
    assert Sorting.Insert(NotNewer, SECOND, [FIRST]) == [FIRST, SECOND];
    CutIsUnique([FIRST, SECOND], 12, ROOM_FOR_ONE, 2, Cut([FIRST, SECOND], 12, ROOM_FOR_ONE, 2), 1);
  }

  lemma NextCleanupForgets()
    ensures After(Account([SECOND], 12, 12, 0, 0, 1), ROOM_FOR_ONE, Cleanup(3, {})) == Account([SECOND], 7, 12, 0, 0, 2)
  {
    var account := Account([SECOND], 12, 12, 0, 0, 1);
    assert account.live[..0] == [];
    assert Sum([SECOND]) == 7;
    NothingToEvict(account, ROOM_FOR_ONE, 3, {});
  }

  /**
   A concrete loss: with room for one artifact, the second write cannot delete the first
   one's file, and the next cleanup forgets its bytes.
   */
  lemma DeleteErrorLosesBytes() returns (retention: Retention, events: seq<Event>)
    ensures FreshIds(Opened([]), retention, events)
    ensures var s := Run(Opened([]), retention, events);
      s.live == [SECOND] && s.writtenBytes == 12 && s.totalBytes + s.deletedBytes == 7
  {
    FirstWriteIsKept();
    SecondWriteFails();
    NextCleanupForgets();
    retention, events := ROOM_FOR_ONE, [WRITE_FIRST, WRITE_SECOND, Cleanup(3, {})];
    RunThrough(retention, events, Account([FIRST], 5, 5, 0, 0, 1), Account([SECOND], 12, 12, 0, 0, 1));
  }

  lemma RunThrough(retention: Retention, events: seq<Event>, one: Account, two: Account)
    requires |events| == 3
    requires After(Opened([]), retention, events[0]) == one && After(one, retention, events[1]) == two
    requires events[1].Write? && events[2].Cleanup? && |one.live| == 1 && one.live[0].id != events[1].artifact.id
    ensures FreshIds(Opened([]), retention, events)
    ensures Run(Opened([]), retention, events) == After(two, retention, events[2])
  {
    RunOfThree(Opened([]), retention, events[0], events[1], events[2]);
    assert events == [events[0], events[1], events[2]];
  }

  lemma RunOfThree(start: Account, retention: Retention, e1: Event, e2: Event, e3: Event)
    ensures var one := After(start, retention, e1);
      var two := After(one, retention, e2);
      && Run(start, retention, [e1, e2, e3]) == After(two, retention, e3)
      && (FreshIds(start, retention, [e1, e2, e3])
        <==> (e1.Write? ==> e1.artifact.id !in Ids(start.live))
             && (e2.Write? ==> e2.artifact.id !in Ids(one.live))
             && (e3.Write? ==> e3.artifact.id !in Ids(two.live)))
  {
    RunOfOneMore(start, retention, [], e1);
    RunOfOneMore(start, retention, [e1], e2);
    RunOfOneMore(start, retention, [e1, e2], e3);
    assert [] + [e1] == [e1] && [e1] + [e2] == [e1, e2] && [e1, e2] + [e3] == [e1, e2, e3];
  }

  lemma RunOfOneMore(account: Account, retention: Retention, events: seq<Event>, event: Event)
    ensures Run(account, retention, events + [event]) == After(Run(account, retention, events), retention, event)
    ensures FreshIds(account, retention, events + [event])
      <==> FreshIds(account, retention, events)
           && (event.Write? ==> event.artifact.id !in Ids(Run(account, retention, events).live))
  {
    assert (events + [event])[..|events|] == events;
  }
}
