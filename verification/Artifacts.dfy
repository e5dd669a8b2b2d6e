/**
 The artifact store: what a write keeps, what a cleanup evicts, and how the byte counters
 relate over whole runs. Files are steps that may fail; timestamps count nanoseconds.
 */
module Artifacts {
  import opened Wrappers
  import opened Sorting
  import Text

  type ArtifactId = string

  datatype Artifact = Artifact(id: ArtifactId, createdAt: int, size: nat)

  datatype Retention = Retention(maxAge: nat, maxBytes: nat, maxCount: nat)

  datatype ArtifactError = WriteFile(id: ArtifactId) | DeleteFile(id: ArtifactId)

  datatype CleanupOutcome = CleanupOutcome(removedCount: nat, removedBytes: nat, remainingCount: nat, remainingBytes: nat)

  /** The store's books; `live` lists the records oldest first. */
  datatype Account = Account(
    live: seq<Artifact>,
    totalBytes: nat,
    writtenBytes: nat,
    deletedCount: nat,
    deletedBytes: nat,
    cleanupRuns: nat)

  predicate Older(a: Artifact, b: Artifact) {
    a.createdAt < b.createdAt || (a.createdAt == b.createdAt && Text.Before(a.id, b.id))
  }

  predicate NotNewer(a: Artifact, b: Artifact) {
    !Older(b, a)
  }

  function Sum(artifacts: seq<Artifact>): nat {
    if artifacts == [] then 0 else artifacts[0].size + Sum(artifacts[1..])
  }

  function Ids(artifacts: seq<Artifact>): seq<ArtifactId> {
    seq(|artifacts|, i requires 0 <= i < |artifacts| => artifacts[i].id)
  }

  predicate Expired(retention: Retention, now: int, artifact: Artifact) {
    artifact.createdAt < now - retention.maxAge
  }

  function SaturatingSub(a: nat, b: nat): nat {
    if a < b then 0 else a - b
  }

  // ------------------------------------------------------------------ retention

  /** The records may all stay, with `slack` bytes charged beside them. */
  predicate Allowed(retention: Retention, now: int, artifacts: seq<Artifact>, slack: nat) {
    && (forall a | a in artifacts :: !Expired(retention, now, a))
    && |artifacts| <= retention.maxCount
    && Sum(artifacts) + slack <= retention.maxBytes
  }

  /** Evicting the `k` oldest records satisfies the policy, as the code keeps count. */
  predicate Fits(records: seq<Artifact>, totalBytes: nat, retention: Retention, now: int, k: nat)
    requires k <= |records|
  {
    && (forall i | k <= i < |records| :: !Expired(retention, now, records[i]))
    && |records| - k <= retention.maxCount
    && SaturatingSub(totalBytes, Sum(records[..k])) <= retention.maxBytes
  }

  /** `k` is the least number of oldest records whose eviction fits, or all of them. */
  predicate IsCut(records: seq<Artifact>, totalBytes: nat, retention: Retention, now: int, k: nat) {
    && k <= |records|
    && (forall j: nat | j < k :: !Fits(records, totalBytes, retention, now, j))
    && (k < |records| ==> Fits(records, totalBytes, retention, now, k))
  }

  function CutFrom(records: seq<Artifact>, totalBytes: nat, retention: Retention, now: int, k: nat): (cut: nat)
    requires k <= |records|
    requires forall j: nat | j < k :: !Fits(records, totalBytes, retention, now, j)
    ensures IsCut(records, totalBytes, retention, now, cut)
    decreases |records| - k
  {
    if k == |records| || Fits(records, totalBytes, retention, now, k) then k
    else CutFrom(records, totalBytes, retention, now, k + 1)
  }

  function Cut(records: seq<Artifact>, totalBytes: nat, retention: Retention, now: int): (cut: nat)
    ensures IsCut(records, totalBytes, retention, now, cut)
  {
    CutFrom(records, totalBytes, retention, now, 0)
  }

  lemma CutIsUnique(records: seq<Artifact>, totalBytes: nat, retention: Retention, now: int, j: nat, k: nat)
    requires IsCut(records, totalBytes, retention, now, j) && IsCut(records, totalBytes, retention, now, k)
    ensures j == k
  {
  }

  /** Sorted by age and listed once each. */
  ghost predicate Inventory(records: seq<Artifact>) {
    && Sorted(Older, records)
    && forall i, j | 0 <= i < j < |records| :: records[i].id != records[j].id
  }

  lemma {:induction false} SumSplits(artifacts: seq<Artifact>, k: nat)
    requires k <= |artifacts|
    ensures Sum(artifacts) == Sum(artifacts[..k]) + Sum(artifacts[k..])
  {
    if k == 0 { assert artifacts[..0] == [] && artifacts[0..] == artifacts; }
    else {
      SumSplits(artifacts[1..], k - 1);
      assert artifacts[1..][..k - 1] == artifacts[..k][1..] && artifacts[1..][k - 1..] == artifacts[k..];
    }
  }

  lemma SumOfNext(artifacts: seq<Artifact>, k: nat)
    requires k < |artifacts|
    ensures Sum(artifacts[..k + 1]) == Sum(artifacts[..k]) + artifacts[k].size
  {
    SumSplits(artifacts[..k + 1], k);
    assert artifacts[..k + 1][..k] == artifacts[..k] && artifacts[..k + 1][k..] == [artifacts[k]];
  }

  // ------------------------------------------------------------------- planning

  /** First pass: the expired records, which come first. */
  method PlanExpired(records: seq<Artifact>, totalBytes: nat, retention: Retention, now: int)
    returns (removeIds: seq<ArtifactId>, remainingCount: nat, remainingBytes: nat)
    requires Sorted(Older, records)
    ensures var e := |removeIds|;
      && e <= |records| && removeIds == Ids(records[..e])
      && (forall j | 0 <= j < |records| :: Expired(retention, now, records[j]) <==> j < e)
      && remainingCount == |records| - e
      && remainingBytes == SaturatingSub(totalBytes, Sum(records[..e]))
  {
    removeIds, remainingCount, remainingBytes := [], |records|, totalBytes;
    for i := 0 to |records|
      invariant |removeIds| <= i && removeIds == Ids(records[..|removeIds|])
      invariant forall j | 0 <= j < i :: Expired(retention, now, records[j]) <==> j < |removeIds|
      invariant remainingCount == |records| - |removeIds|
      invariant remainingBytes == SaturatingSub(totalBytes, Sum(records[..|removeIds|]))
    {
      if Expired(retention, now, records[i]) {
        assert |removeIds| < i ==> Older(records[|removeIds|], records[i]);
        SumOfNext(records, |removeIds|);
        remainingCount := SaturatingSub(remainingCount, 1);
        remainingBytes := SaturatingSub(remainingBytes, records[i].size);
        removeIds := removeIds + [records[i].id];
      }
    }
  }

  /** Some budget is still exceeded once the `k` oldest records are gone. */
  predicate OverBudget(records: seq<Artifact>, totalBytes: nat, retention: Retention, k: nat)
    requires k <= |records|
  {
    |records| - k > retention.maxCount || SaturatingSub(totalBytes, Sum(records[..k])) > retention.maxBytes
  }

  /**
   Both passes of a cleanup over the sorted records: first the expired ones, then the oldest
   others while a budget is exceeded. The plan is the least prefix whose eviction fits.
   */
  method PlanEviction(records: seq<Artifact>, totalBytes: nat, retention: Retention, now: int)
    returns (removeIds: seq<ArtifactId>)
    requires Inventory(records)
    ensures removeIds == Ids(records[..Cut(records, totalBytes, retention, now)])
  {
    var remainingCount: nat, remainingBytes: nat;
    removeIds, remainingCount, remainingBytes := PlanExpired(records, totalBytes, retention, now);
    ghost var e: nat := |removeIds|;
    for i := 0 to |records|
      invariant e <= |removeIds| <= |records| && removeIds == Ids(records[..|removeIds|])
      invariant |removeIds| == (if i < e then e else i)
        || (|removeIds| < i && !OverBudget(records, totalBytes, retention, |removeIds|))
      invariant forall j: nat | e <= j < |removeIds| :: OverBudget(records, totalBytes, retention, j)
      invariant remainingCount == |records| - |removeIds|
      invariant remainingBytes == SaturatingSub(totalBytes, Sum(records[..|removeIds|]))
    {
      PlannedIffInPrefix(records, |removeIds|, i);
      if records[i].id in removeIds {
        continue;
      }
      var overCount := remainingCount > retention.maxCount;
      var overBytes := remainingBytes > retention.maxBytes;
      if !overCount && !overBytes {
        continue;
      }
      SumOfNext(records, |removeIds|);
      remainingCount := SaturatingSub(remainingCount, 1);
      remainingBytes := SaturatingSub(remainingBytes, records[i].size);
      removeIds := removeIds + [records[i].id];
    }
    PassesReachCut(records, totalBytes, retention, now, e, |removeIds|);
  }

  lemma PassesReachCut(records: seq<Artifact>, totalBytes: nat, retention: Retention, now: int, e: nat, p: nat)
    requires e <= p <= |records|
    requires forall j | 0 <= j < |records| :: Expired(retention, now, records[j]) <==> j < e
    requires forall j: nat | e <= j < p :: OverBudget(records, totalBytes, retention, j)
    requires p < |records| ==> !OverBudget(records, totalBytes, retention, p)
    ensures p == Cut(records, totalBytes, retention, now)
  {
    forall j: nat | j < p ensures !Fits(records, totalBytes, retention, now, j) {
      if j < e { assert Expired(retention, now, records[j]); }
      else { assert OverBudget(records, totalBytes, retention, j); }
    }
    CutIsUnique(records, totalBytes, retention, now, p, Cut(records, totalBytes, retention, now));
  }

  lemma PlannedIffInPrefix(records: seq<Artifact>, p: nat, i: nat)
    requires Inventory(records) && p <= |records| && i < |records|
    ensures records[i].id in Ids(records[..p]) <==> i < p
  {
    if i < p { assert Ids(records[..p])[i] == records[i].id; }
  }

  // ------------------------------------------------------------- specification

  /** How many planned records come before the first whose file cannot be deleted. */
  function Deletable(planned: seq<Artifact>, undeletable: set<ArtifactId>): (n: nat)
    ensures n <= |planned|
    ensures forall i | 0 <= i < n :: planned[i].id !in undeletable
    ensures n < |planned| ==> planned[n].id in undeletable
  {
    if planned == [] || planned[0].id in undeletable then 0
    else 1 + Deletable(planned[1..], undeletable)
  }

  function Planned(account: Account, retention: Retention, now: int): seq<Artifact> {
    account.live[..Cut(account.live, account.totalBytes, retention, now)]
  }

  predicate CleanupSucceeds(account: Account, retention: Retention, now: int, undeletable: set<ArtifactId>) {
    forall a | a in Planned(account, retention, now) :: a.id !in undeletable
  }

  lemma SucceedsIff(account: Account, retention: Retention, now: int, undeletable: set<ArtifactId>)
    ensures var planned := Planned(account, retention, now);
      CleanupSucceeds(account, retention, now, undeletable) <==> Deletable(planned, undeletable) == |planned|
  {
    var planned := Planned(account, retention, now);
    var n := Deletable(planned, undeletable);
    if n < |planned| { assert planned[n] in planned; }
  }

  /** Records leave the store before their file does, and a failing delete ends the cleanup. */
  function Cleaned(account: Account, retention: Retention, now: int, undeletable: set<ArtifactId>): Account {
    var planned := Planned(account, retention, now);
    var n := Deletable(planned, undeletable);
    if n < |planned| then account.(live := account.live[n + 1..])
    else account.(
      live := account.live[n..],
      totalBytes := Sum(account.live[n..]),
      deletedCount := account.deletedCount + n,
      deletedBytes := account.deletedBytes + Sum(planned),
      cleanupRuns := account.cleanupRuns + 1)
  }

  function Recorded(account: Account, artifact: Artifact): Account {
    account.(
      live := Insert(NotNewer, artifact, account.live),
      totalBytes := account.totalBytes + artifact.size,
      writtenBytes := account.writtenBytes + artifact.size)
  }

  /** A store opens empty; orphaned files of an earlier process are deleted and counted. */
  function Opened(orphans: seq<nat>): Account {
    Account([], 0, 0, |orphans|, SumOf(orphans), if orphans == [] then 0 else 1)
  }

  function SumOf(sizes: seq<nat>): nat {
    if sizes == [] then 0 else SumOf(sizes[..|sizes| - 1]) + sizes[|sizes| - 1]
  }

  // ------------------------------------------------------- records by their age

  ghost predicate WellKeyed(artifacts: map<ArtifactId, Artifact>) {
    forall id | id in artifacts :: artifacts[id].id == id
  }

  lemma AgeIsStrictOrder()
    ensures StrictOrder(Older)
    ensures forall a, b :: Older(a, b) || a.id == b.id || Older(b, a)
  {
    forall a: Artifact, b: Artifact ensures Older(a, b) || a.id == b.id || Older(b, a) { Text.BeforeTotal(a.id, b.id); }
    forall a, b, c | Older(a, b) && Older(b, c) ensures Older(a, c) { OlderTransitive(a, b, c); }
    forall a ensures !Older(a, a) { Text.BeforeIrreflexive(a.id); }
  }

  lemma OlderTransitive(a: Artifact, b: Artifact, c: Artifact)
    requires Older(a, b) && Older(b, c)
    ensures Older(a, c)
  {
    if a.createdAt == b.createdAt == c.createdAt { Text.BeforeTransitive(a.id, b.id, c.id); }
  }

  lemma InsertMember(a: Artifact, records: seq<Artifact>, x: Artifact)
    ensures x in Insert(NotNewer, a, records) <==> x == a || x in records
  {
    InsertPermutes(NotNewer, a, records);
    assert x in Insert(NotNewer, a, records) <==> x in multiset(Insert(NotNewer, a, records));
    assert x in [a] + records <==> x in multiset([a] + records);
  }

  /** A record with a new id goes to its place by age. */
  lemma {:induction false} InsertKeepsInventory(a: Artifact, records: seq<Artifact>)
    requires Inventory(records) && forall r | r in records :: r.id != a.id
    ensures Inventory(Insert(NotNewer, a, records))
  {
    AgeIsStrictOrder();
    if records != [] && !NotNewer(a, records[0]) {
      var rest := Insert(NotNewer, a, records[1..]);
      InsertKeepsInventory(a, records[1..]);
      forall j | 0 <= j < |rest| ensures Older(records[0], rest[j]) && records[0].id != rest[j].id {
        assert rest[j] in rest;
        InsertMember(a, records[1..], rest[j]);
        assert records[0] in records;
      }
    } else {
      forall j | 0 <= j < |records| ensures Older(a, records[j]) {
        assert records[j] in records;
        if j > 0 { assert Older(records[0], records[j]); }
      }
    }
  }

  ghost function AnyKey(artifacts: map<ArtifactId, Artifact>): (id: ArtifactId)
    requires artifacts != map[]
    ensures id in artifacts
  {
    assert artifacts.Keys != {};
    var id :| id in artifacts;
    id
  }

  /** The records of a map, oldest first. */
  ghost function Records(artifacts: map<ArtifactId, Artifact>): seq<Artifact>
    requires WellKeyed(artifacts)
  {
    if artifacts == map[] then []
    else
      var id := AnyKey(artifacts);
      Insert(NotNewer, artifacts[id], Records(artifacts - {id}))
  }

  /** `records` lists exactly the map's records, oldest first. */
  ghost predicate Lists(records: seq<Artifact>, artifacts: map<ArtifactId, Artifact>) {
    && Inventory(records)
    && forall a :: a in records <==> a.id in artifacts && artifacts[a.id] == a
  }

  lemma {:induction false} RecordsList(artifacts: map<ArtifactId, Artifact>)
    requires WellKeyed(artifacts)
    ensures Lists(Records(artifacts), artifacts)
    decreases |artifacts|
  {
    if artifacts != map[] {
      var id := AnyKey(artifacts);
      var rest := Records(artifacts - {id});
      RecordsList(artifacts - {id});
      InsertKeepsInventory(artifacts[id], rest);
      forall a ensures a in Records(artifacts) <==> a.id in artifacts && artifacts[a.id] == a {
        InsertMember(artifacts[id], rest, a);
      }
    }
  }

  /** A map's records are determined by their members. */
  lemma RecordsAre(artifacts: map<ArtifactId, Artifact>, records: seq<Artifact>)
    requires WellKeyed(artifacts) && Lists(records, artifacts)
    ensures Records(artifacts) == records
  {
    AgeIsStrictOrder();
    RecordsList(artifacts);
    StrictlySortedUnique(Older, Records(artifacts), records);
  }

  lemma RecordsOfInserted(artifacts: map<ArtifactId, Artifact>, a: Artifact)
    requires WellKeyed(artifacts) && a.id !in artifacts
    ensures Records(artifacts[a.id := a]) == Insert(NotNewer, a, Records(artifacts))
  {
    var records := Records(artifacts);
    RecordsList(artifacts);
    InsertKeepsInventory(a, records);
    forall x ensures x in Insert(NotNewer, a, records) <==> x.id in artifacts[a.id := a] && artifacts[a.id := a][x.id] == x {
      InsertMember(a, records, x);
    }
    RecordsAre(artifacts[a.id := a], Insert(NotNewer, a, records));
  }

  lemma RecordsWithoutOldest(artifacts: map<ArtifactId, Artifact>)
    requires WellKeyed(artifacts) && Records(artifacts) != []
    ensures var oldest := Records(artifacts)[0];
      oldest.id in artifacts && artifacts[oldest.id] == oldest
      && Records(artifacts - {oldest.id}) == Records(artifacts)[1..]
  {
    var records := Records(artifacts);
    var oldest := records[0];
    RecordsList(artifacts);
    assert oldest in records;
    TailLists(records, artifacts);
    RecordsAre(artifacts - {oldest.id}, records[1..]);
  }

  lemma TailLists(records: seq<Artifact>, artifacts: map<ArtifactId, Artifact>)
    requires Lists(records, artifacts) && records != []
    ensures Lists(records[1..], artifacts - {records[0].id})
  {
    var rest := artifacts - {records[0].id};
    forall x ensures x in records[1..] <==> x.id in rest && rest[x.id] == x {
      assert x in records <==> x == records[0] || x in records[1..];
      if x in records[1..] {
        var i :| 0 <= i < |records[1..]| && records[1..][i] == x;
        assert records[0].id != records[i + 1].id;
      }
    }
  }

  /** The records in an arbitrary order, then sorted by age and id. */
  method RecordsByAge(artifacts: map<ArtifactId, Artifact>) returns (records: seq<Artifact>)
    requires WellKeyed(artifacts)
    ensures records == Records(artifacts)
  {
    var todo := artifacts;
    var collected: seq<Artifact> := [];
    ghost var sorted: seq<Artifact> := [];
    while todo != map[]
      invariant WellKeyed(todo) && Inventory(sorted)
      invariant forall id | id in todo :: id in artifacts && todo[id] == artifacts[id]
      invariant forall a :: a in sorted <==> a.id in artifacts && a.id !in todo && artifacts[a.id] == a
      invariant sorted == SortBy(NotNewer, collected)
      decreases |todo|
    {
      assert todo.Keys != {};
      var id :| id in todo;
      var a := todo[id];
      InsertKeepsInventory(a, sorted);
      forall x ensures x in Insert(NotNewer, a, sorted) <==> x == a || x in sorted { InsertMember(a, sorted, x); }
      sorted := Insert(NotNewer, a, sorted);
      collected := [a] + collected;
      todo := todo - {id};
    }
    records := SortBy(NotNewer, collected);
    RecordsAre(artifacts, sorted);
  }

  // ------------------------------------------------------------------- the store

  lemma DeletableIs(planned: seq<Artifact>, undeletable: set<ArtifactId>, n: nat)
    requires n <= |planned|
    requires forall i | 0 <= i < n :: planned[i].id !in undeletable
    requires n < |planned| ==> planned[n].id in undeletable
    ensures Deletable(planned, undeletable) == n
  {
  }

  class ArtifactStore {
    const retention: Retention
    var artifacts: map<ArtifactId, Artifact>
    var totalBytes: nat
    var writtenBytes: nat
    var deletedCount: nat
    var deletedBytes: nat
    var cleanupRuns: nat

    ghost predicate Valid()
      reads this
    {
      WellKeyed(artifacts)
    }

    ghost function Books(): Account
      requires Valid()
      reads this
    {
      Account(Records(artifacts), totalBytes, writtenBytes, deletedCount, deletedBytes, cleanupRuns)
    }

    /** Opening sweeps the files an earlier process left; a sweep that fails opens no store. */
    constructor (retention: Retention, orphans: seq<nat>)
      ensures Valid() && this.retention == retention
      ensures Books() == Opened(orphans)
    {
      this.retention := retention;
      artifacts, totalBytes, writtenBytes, deletedCount, deletedBytes, cleanupRuns := map[], 0, 0, 0, 0, 0;
      new;
      var removedCount, removedBytes: nat := 0, 0;
      for i := 0 to |orphans|
        invariant removedCount == i && removedBytes == SumOf(orphans[..i])
        modifies {}
      {
        assert orphans[..i + 1][..i] == orphans[..i];
        removedCount := removedCount + 1;
        removedBytes := removedBytes + orphans[i];
      }
      assert orphans[..|orphans|] == orphans;
      if removedCount > 0 {
        cleanupRuns := cleanupRuns + 1;
        deletedCount := deletedCount + removedCount;
        deletedBytes := deletedBytes + removedBytes;
      }
    }

    /**
     Evicts the plan, oldest first. A file that cannot be deleted ends the cleanup: its record
     and those before it are gone, and the counters are not updated.
     */
    method Cleanup(now: int, undeletable: set<ArtifactId>) returns (r: Result<CleanupOutcome, ArtifactError>)
      requires Valid()
      modifies this
      ensures Valid()
      ensures Books() == Cleaned(old(Books()), retention, now, undeletable)
      ensures r.Ok? <==> CleanupSucceeds(old(Books()), retention, now, undeletable)
      ensures r.Ok? ==> r.value.remainingCount == |Books().live| && r.value.remainingBytes == totalBytes
      ensures r.Ok? ==> r.value.removedCount + r.value.remainingCount == |old(Books()).live|
      ensures r.Ok? ==> r.value.removedBytes + r.value.remainingBytes == Sum(old(Books()).live)
      ensures r.Err? ==> r.error.DeleteFile? && r.error.id in undeletable
    {
      ghost var was := Books();
      ghost var planned := Planned(was, retention, now);
      var removeIds := PlanNow(now);
      SucceedsIff(was, retention, now, undeletable);
      var removedCount, removedBytes, failed := Evict(removeIds, undeletable);
      if failed.Some? {
        return Err(DeleteFile(failed.value));
      }
      assert planned[..|planned|] == planned;
      SumSplits(was.live, |planned|);
      BookRemoval(removedCount, removedBytes);
      r := Ok(CleanupOutcome(removedCount, removedBytes, |artifacts|, totalBytes));
    }

    /** Makes the byte counter exact and counts what a finished cleanup removed. */
    method BookRemoval(removedCount: nat, removedBytes: nat)
      requires Valid()
      modifies `totalBytes, `cleanupRuns, `deletedCount, `deletedBytes
      ensures var before, live := old(Books()), Books().live;
        && Books() == Account(before.live, Sum(live), before.writtenBytes, before.deletedCount + removedCount,
                              before.deletedBytes + removedBytes, before.cleanupRuns + 1)
        && |artifacts| == |live|
    {
      RecordCount(artifacts);
      var kept := RecordsByAge(artifacts);
      totalBytes := Sum(kept);
      cleanupRuns := cleanupRuns + 1;
      deletedCount := deletedCount + removedCount;
      deletedBytes := deletedBytes + removedBytes;
    }

    /** The ids a cleanup at this time would remove. */
    method PlanNow(now: int) returns (removeIds: seq<ArtifactId>)
      requires Valid()
      ensures removeIds == Ids(Planned(Books(), retention, now))
    {
      var records := RecordsByAge(artifacts);
      RecordsList(artifacts);
      removeIds := PlanEviction(records, totalBytes, retention, now);
    }

    /** Drops the oldest records one by one, up to the first whose file stays. */
    method Evict(removeIds: seq<ArtifactId>, undeletable: set<ArtifactId>)
      returns (removedCount: nat, removedBytes: nat, failed: Option<ArtifactId>)
      requires Valid() && |removeIds| <= |Records(artifacts)|
      requires removeIds == Ids(Records(artifacts)[..|removeIds|])
      modifies this`artifacts
      ensures Valid()
      ensures var planned := old(Records(artifacts))[..|removeIds|];
        var n := Deletable(planned, undeletable);
        && removedCount == n && removedBytes == Sum(planned[..n])
        && failed == (if n < |planned| then Some(planned[n].id) else None)
        && Records(artifacts) == old(Records(artifacts))[if failed.Some? then n + 1 else n..]
    {
      ghost var records := Records(artifacts);
      ghost var planned := records[..|removeIds|];
      removedCount, removedBytes, failed := 0, 0, None;
      for i := 0 to |removeIds|
        invariant Valid() && Records(artifacts) == records[i..]
        invariant removedCount == i && removedBytes == Sum(planned[..i])
        invariant forall j | 0 <= j < i :: planned[j].id !in undeletable
        invariant failed == None
      {
        RecordsWithoutOldest(artifacts);
        SumOfNext(planned, i);
        assert removeIds[i] == planned[i].id == records[i..][0].id;
        if removeIds[i] in artifacts {
          var artifact := artifacts[removeIds[i]];
          artifacts := artifacts - {removeIds[i]};
          if removeIds[i] in undeletable {
            DeletableIs(planned, undeletable, i);
            failed := Some(removeIds[i]);
            return;
          }
          removedCount := removedCount + 1;
          removedBytes := removedBytes + artifact.size;
        }
      }
      DeletableIs(planned, undeletable, |planned|);
    }

    /** A write that reaches the disk is recorded first and enforces retention afterwards. */
    method WriteBytes(artifact: Artifact, stored: bool, now: int, undeletable: set<ArtifactId>)
      returns (r: Result<ArtifactId, ArtifactError>)
      requires Valid() && artifact.id !in artifacts
      modifies this
      ensures Valid()
      ensures !stored ==> r == Err(WriteFile(artifact.id)) && Books() == old(Books())
      ensures stored ==> Books() == Cleaned(Recorded(old(Books()), artifact), retention, now, undeletable)
      ensures stored ==>
        (r == Ok(artifact.id) <==> CleanupSucceeds(Recorded(old(Books()), artifact), retention, now, undeletable))
      ensures stored && r.Err? ==> r.error.DeleteFile?
    {
      if !stored {
        return Err(WriteFile(artifact.id));
      }
      RecordsOfInserted(artifacts, artifact);
      totalBytes := totalBytes + artifact.size;
      writtenBytes := writtenBytes + artifact.size;
      artifacts := artifacts[artifact.id := artifact];
      assert Books() == Recorded(old(Books()), artifact);
      var outcome := Cleanup(now, undeletable);
      r := match outcome case Ok(_) => Ok(artifact.id) case Err(error) => Err(error);
    }
  }

  lemma {:induction false} RecordCount(artifacts: map<ArtifactId, Artifact>)
    requires WellKeyed(artifacts)
    ensures |Records(artifacts)| == |artifacts|
    decreases |artifacts|
  {
    RecordsList(artifacts);
    assert forall id | id in artifacts :: artifacts[id] in Records(artifacts);
    if Records(artifacts) == [] {
      assert artifacts == map[];
    } else {
      RecordsWithoutOldest(artifacts);
      RecordCount(artifacts - {Records(artifacts)[0].id});
    }
  }
}
