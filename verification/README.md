# vmui-agent in Dafny

vmui-agent keeps a cached tree of the Windows desktop in step with the desktop. The Windows
observer captures windows, gives them stable ids and emits revisioned diffs. The daemon's
session store applies the diffs, or announces a resync and recaptures. The MCP proxy keeps a
mirror of the session, fed over gRPC, and sends actions through the same stream. This project
models that pipeline, from raw observation to mirror, and proves that each incremental stage
agrees with its plain specification; it also covers baseline comparison, waiting for a
condition, and artifact retention.

| file | part of the system |
|---|---|
| `Domain.dfy`, `Wrappers.dfy`, `Text.dfy`, `Sorting.dfy` | protocol entities, options and results, string order, stable sorting |
| `Trees.dfy`, `StateStore.dfy`, `EditLaws.dfy`, `StoreLaws.dfy` | element trees, the session store and its record, what each operation means and what every one keeps |
| `SnapshotDiff.dfy`, `DiffContents.dfy`, `RoundTrip.dfy`, `FocusBlind.dfy` | the diff producer, what a batch says, producer and consumer as inverses, and what an ambiguous focus move can and cannot cost |
| `Materialize.dfy`, `ElementIds.dfy`, `Fingerprints.dfy`, `WireLocators.dfy` | locators, ids and fingerprints of captured windows, resolving elements, also by locators that crossed the wire |
| `Stabilization.dfy`, `Preferences.dfy`, `StabilizedIds.dfy` | greedy rebinding of ids across captures, and which earlier element wins |
| `Observer.dfy`, `Captures.dfy`, `Coalescing.dfy`, `Refreshes.dfy` | refresh batches, the inventory, emitted diffs, what a refresh shows, merged requests, and what whole runs of refreshes keep |
| `Wire.dfy`, `WireLaws.dfy`, `WireDrift.dfy` | the gRPC form, its normal form, editing commutes with the wire, and exactly when it does not |
| `DaemonSession.dfy`, `WaitFor.dfy`, `Resync.dfy`, `Announcements.dfy` | the daemon's session stream, waiting, the resync protocol with the mirror, and what the client is told |
| `BestEffort.dfy` | the snapshot that actions read |
| `Pipeline.dfy` | observer, queue, session, wire and mirror end to end |
| `Worker.dfy`, `ActionSlot.dfy`, `CallRuns.dfy` | the proxy's worker, its single action slot, and what becomes of a call |
| `Comparison.dfy`, `ComparisonLaws.dfy` | comparing a snapshot with a baseline, and what the report says |
| `Artifacts.dfy`, `ArtifactLaws.dfy` | artifact retention and the byte counters |

Objects that the program updates in place are classes (`UiStateStore`, `SessionRecord`,
`RefreshObserver`, `DaemonSessionWorker`, `ArtifactStore`); its loops are methods with
invariants. Each is proved against a specification, mostly a function on values, and the laws
are lemmas about those specifications, over all inputs or all runs. Clocks, captures, file operations, the daemon's peers
and the network are parameters: any outcome may be supplied at any step. String normalization,
hashing and the rendering of fields are function parameters; no law depends on which function
is supplied, beyond an explicit hypothesis. Of the hash it is `Collisionless(naming)`: no collision
among the finitely many texts that are hashed, which a 64-bit hash can satisfy.

Ids and strings are Dafny strings under lexicographic order, which is Rust's order on UTF-8
text. Floats are reals. Revisions are naturals that saturate at the `u64` maximum.

## Where the code falls short of the plain statement

These are facts about the code, each with the exact condition under which the expected
property holds.

- A diff followed by its application reproduces the next snapshot if and only if no window
  whose reported focus moved has several focused nodes, or a focused node whose id an earlier
  node of the window has too (`RoundTrip.RoundTripExactIff`; `RoundTrip.TwoFocusedNodesAreLost`
  is an input that is lost). No operation reads focus (`FocusBlind.OpIsFocusBlind`), so such a
  move costs focus flags and nothing else: over every run of captured desktops each later diff
  is accepted, and windows stay exact apart from focus (`Refreshes.CapturedSessionFollows`).
- Stabilizing keeps element ids unique if and only if no unmatched node's own id is one that a
  matched node took over (`StabilizedIds.StabilizedIdsUniqueIff`); the clash does occur
  (`StabilizedIds.NewSiblingMayRepeatId`). The same holds of window ids
  (`StabilizedIds.StabilizedWindowIdsUniqueIff`); windows with distinct handles never meet the
  clash, so over whole runs of them window ids stay unique and root ids owned by one window
  (`Refreshes.SoundRunsAreDiffable`).
- Of siblings without handles, a child takes its id from the one that alone shares its automation
  id unless that one shares nothing else and another shares class, name, last segment and bounds;
  `Preferences.ScoreIsEvidence` gives the whole order (`Preferences.SharedAutomationIdWins`).
- A captured tree repeats no id if and only if no text is spelled at two different siblings and
  the hash has no collision among that tree's own texts (`ElementIds.CapturedIdsUniqueIff`). Names
  that contain the path separator `/` are harmless unless one spells the way to a sibling's
  child; `ElementIds.SpellingNameRepeatsId` gives such a tree.
- One failed recapture opens a revision gap that never closes: every later diff is stale and
  forces another full capture (`Resync.OpenGapMakesEveryDiffStale`). `docs/protocol.md:38`
  promises a refreshed snapshot after a resync signal; it follows if and only if the recapture
  succeeds (`Resync.RefusedEventReachesMirror`).
- After a refusal with a failed recapture the mirror is flagged, but the session is flagged if and
  only if it was before, the batch was refused for its revision, or the batch itself asks for a
  resync (`BestEffort.FlaggedAfterRefusalIff`). Otherwise actions go on reading the cache with the
  edits up to the failing operation, a desktop that need never have existed
  (`BestEffort.ServedAfterRefusal`; `BestEffort.EmptyDesktopIsServed` is such an input).
- An operation means the same on both sides of the wire if and only if it is not a focus move to
  the empty id in a window that is there (`WireDrift.ApplyOpSameIff`). Such a move arrives as a
  move to nothing, and when the session accepts it the mirror drifts without a flag
  (`WireDrift.EmptyFocusIdDrifts`; `WireDrift.NamelessWindowDrifts` is an input). The Windows
  observer cannot emit one: its ids are never empty (`WireDrift.DiffOpsAreWireSafe`, `Pipeline.PublishedIdsAreNotEmpty`). Another backend could.
- A locator read from a snapshot that crossed the wire resolves to its node if and only if the
  wire left it as it was, and to nothing otherwise: a first sibling's ordinal 0 arrives as none
  (`WireLocators.WireLocatorResolvesIff`; `WireLocators.FirstTwinIsLost` is an input).
- A read-only call is meant to resume after a reconnect (the MCP bridge's requirement on safe
  reconnects; `crates/vmui-mcp-proxy/src/lib.rs:728-732`). It does, whatever made it reopen the
  stream, if and only if the action slot was empty when the new stream took over
  (`ActionSlot.ResumesIffSlotEmpty`). After a timeout that no answer beat it is not, because
  `connect` leaves the waiter in the slot, and then no call completes until the stream ends or
  the session is closed (`ActionSlot.FailedReadResumesIff`, `ActionSlot.WedgedRunsCompleteNothing`).
- A snapshot compared with itself matches if and only if every window has a non-blank process
  name, 1C profile or root class (`Comparison.SelfComparison`).
- Equal tree signatures mean equal trees, up to the order of children, where no text shown
  contains a bracket (`ComparisonLaws.SignatureEqualIff`). With brackets a changed tree can count
  as unchanged: `ComparisonLaws.SpelledSiblingsCollide`.
- A condition that holds for good completes a wait if and only if some later revision triggers
  a look late enough and before the deadline (`WaitFor.LastingConditionCompletesIff`).
- The registry counts a session active after its stream is over if and only if a hello had been
  accepted and the stream ended in an error (`DaemonSession.StaysActiveIff`).
- Artifact bytes are conserved if and only if no failing cleanup that dropped a non-empty artifact
  was followed by a successful one (`ArtifactLaws.ConservationIff`).

## Model

| member | source | states |
|---|---|---|
| `Trees.ReparentIsWellParented` | crates/vmui-core/src/lib.rs:1026-1031 | Reparenting a subtree makes every node below name its actual parent |
| `Trees.FocusedIffCounted` | crates/vmui-platform-windows/src/lib.rs:798-804 | A focused id is reported exactly when some node is focused, and it is an id of the tree |
| `StateStore.UiStateStore.Replace` | crates/vmui-core/src/lib.rs:107-111 | A snapshot replaces cache and revision and lifts the resync flag |
| `StateStore.UiStateStore.MarkResyncRequired` | crates/vmui-core/src/lib.rs:113-115 | Only the resync flag changes |
| `StateStore.UiStateStore.Apply` | crates/vmui-core/src/lib.rs:117-156 | The whole new store and the error, for missing, stale, non-monotonic, half-failing and accepted batches, edits of a failing batch included |
| `StateStore.SessionRecord.ApplySnapshot` | crates/vmui-core/src/lib.rs:221-234 | A snapshot replaces the store, empties the ring of recent diffs and is the reported revision |
| `StateStore.SessionRecord.ApplyBatch` | crates/vmui-core/src/lib.rs:236-252 | An accepted batch enters the ring, which drops its oldest at sixteen; a refused one leaves ring and reported revision alone |
| `EditLaws.PropertyChangeReadsBack` | crates/vmui-core/src/lib.rs:955-999 | A property change succeeds exactly for the values its name takes; the name then reads back what was written, every other name reads as before, and identity and place stay |
| `EditLaws.UpsertChildEffect` | crates/vmui-core/src/lib.rs:903-923 | Adding a child replaces the first sibling with its id in place or appends it, and leaves the others |
| `EditLaws.EditReachesElement` | crates/vmui-core/src/lib.rs:1033-1058 | An edit reaches exactly the element a lookup by id finds, reports its refusal, and is missing when there is none |
| `EditLaws.EditIsPointUpdate` | crates/vmui-core/src/lib.rs:955-1020 | In preorder a property or focus edit changes the first node with the id and nothing else |
| `EditLaws.RewriteFindsIff` | crates/vmui-core/src/lib.rs:1060-1100 | Removing or replacing below a root succeeds exactly when a node there has the id |
| `EditLaws.RewriteIsSplice` | crates/vmui-core/src/lib.rs:1060-1100 | In preorder the subtree of one node with the id gives way to the reparented replacement, or to nothing, and nothing else changes |
| `StoreLaws.ApplyOpKeepsShape` | crates/vmui-core/src/lib.rs:854-1107 | Every operation, failing or not, keeps window ids unique and every parent id true |
| `StoreLaws.ApplyDiffKeepsShape` | crates/vmui-core/src/lib.rs:117-156 | So does a batch that fails half way; an accepted one leaves the windows strictly sorted |
| `StoreLaws.BatchStopsAtFailure` | crates/vmui-core/src/lib.rs:146-149 | A batch fails if and only if one of its operations does on what those before it left, and ends with that one's windows and error |
| `StoreLaws.FlagAfterBatch` | crates/vmui-core/src/lib.rs:139-149 | Past the revision guards the flag shows the first resync the batch requests, and otherwise what it showed before |
| `StoreLaws.RingHoldsAcceptedChain` | crates/vmui-core/src/lib.rs:236-252 | After any run the ring is the last sixteen accepted batches, whose revisions chain from the snapshot to the store |
| `StoreLaws.RingReplaysRecord` | crates/vmui-core/src/lib.rs:221-252 | With at most sixteen batches and none refused, replaying the ring on the snapshot rebuilds the record |
| `SnapshotDiff.DiffSnapshots` | crates/vmui-platform-windows/src/lib.rs:727-786 | The loop over both snapshots' ids emits each id's operations in ascending id order, `DiffContents.DiffHoldsIff` says which they are |
| `SnapshotDiff.PushWindowOps` | crates/vmui-platform-windows/src/lib.rs:744-783 | One id's operations: added, removed, shell replaced, tree replaced, then focus |
| `DiffContents.DiffHoldsIff` | crates/vmui-platform-windows/src/lib.rs:727-804 | An operation is in the batch if and only if the snapshots warrant it: removed when gone or when more than the tree changed, added when new or when that changed, root replaced when the tree alone changed, focus moved when the focused element did; no other operation occurs |
| `DiffContents.ChangedWindowOps` | crates/vmui-platform-windows/src/lib.rs:757-779 | The same for a window on both sides: which of its four possible operations the batch holds |
| `DiffContents.OneSidedOps` | crates/vmui-platform-windows/src/lib.rs:747-756 | A window on one side only is removed or added, and nothing else |
| `DiffContents.DiffOpsDiffer` | crates/vmui-platform-windows/src/lib.rs:727-786 | No operation occurs twice in a batch |
| `DiffContents.FocusIsFirstInPreorder` | crates/vmui-platform-windows/src/lib.rs:798-804 | The focused element reported is the first focused one in preorder |
| `RoundTrip.SetFocusFinds` | crates/vmui-core/src/lib.rs:1001-1020 | Setting focus reaches exactly the ids that are in the tree and moves no id |
| `RoundTrip.RefocusRestores` | crates/vmui-core/src/lib.rs:1001-1020 | Clearing focus and restoring the one focused node by its id gives the tree back, if that id leads to it first |
| `RoundTrip.SettleIsIdentityIff` | crates/vmui-core/src/lib.rs:1001-1020 | A trailing focus operation leaves the tree alone if and only if at most one node is focused and its id leads to it first |
| `RoundTrip.WindowOpsRetarget` | crates/vmui-platform-windows/src/lib.rs:744-783 | One id's operations succeed on any mixture of old and new windows and change that window only |
| `RoundTrip.OpsForIdsProcess` | crates/vmui-core/src/lib.rs:146-149 | Along the batch, processed ids hold the new windows and all others are untouched |
| `RoundTrip.DiffOpsReachNext` | crates/vmui-platform-windows/src/lib.rs:727-786 | Applied to the previous windows the batch never fails and, sorted, leaves the next windows, focus settled |
| `RoundTrip.BatchReachesNext` | crates/vmui-core/src/lib.rs:117-156 | A store holding the previous snapshot ends at the next revision with those windows and an unchanged flag; at the last revision the batch is refused |
| `RoundTrip.RoundTripExactIff` | crates/vmui-platform-windows/src/lib.rs:727-804 | The round trip is exact if and only if every window whose focus moved has a focus that a focus operation can restore |
| `RoundTrip.UniqueRefocusableIff` | crates/vmui-platform-windows/src/lib.rs:798-804 | With unique ids that means: at most one focused node |
| `RoundTrip.TwoFocusedNodesAreLost` | crates/vmui-platform-windows/src/lib.rs:772-779 | A pair of snapshots whose moved focus is ambiguous and does not round-trip |
| `FocusBlind.OpIsFocusBlind` | crates/vmui-core/src/lib.rs:854-1107 | Every operation fails alike and does the same, apart from focus, on a cache and on that cache with all focus cleared |
| `FocusBlind.DiffIsFocusBlind` | crates/vmui-core/src/lib.rs:117-156 | So do whole batches on stores that differ in focus only, refused ones included |
| `FocusBlind.SettledUpToFocus` | crates/vmui-platform-windows/src/lib.rs:772-779 | What an ambiguous focus move leaves behind differs from the next windows in focus only |
| `RoundTrip.DiffEmptyIffEqual` | crates/vmui-platform-windows/src/lib.rs:254-258 | Nothing is emitted exactly when the windows are equal |
| `Stabilization.ElementMatchesIff` | crates/vmui-platform-windows/src/lib.rs:975-1004 | The weights amount to: same control type, no handle conflict, and a handle, automation id, class or name in common |
| `Stabilization.WindowMatchesIff` | crates/vmui-platform-windows/src/lib.rs:888-928 | The weights amount to: same control type, no conflict of handle or process, and a handle, a process or enough text in common |
| `Stabilization.FindBest` | crates/vmui-platform-windows/src/lib.rs:872-880 | The scan returns the specified best candidate |
| `Stabilization.BestIsLastMaximum` | crates/vmui-platform-windows/src/lib.rs:945-953 | The chosen candidate is unused, no unused one beats it, and of equal ones it is the last |
| `Stabilization.StabilizeElement` | crates/vmui-platform-windows/src/lib.rs:935-966 | The recursive relabelling loop computes the specified tree |
| `Preferences.ScoreIsEvidence` | crates/vmui-platform-windows/src/lib.rs:975-1004 | Of two possible candidates the one with more evidence scores higher, and equal scores mean equal evidence: a shared handle first, then automation id, then class and name, then last segment and bounds, with one exception that the order names |
| `Preferences.StabilizedByPicks` | crates/vmui-platform-windows/src/lib.rs:935-966 | Stabilizing told without scores, for any tree: child by child in capture order, each takes the ids of the unused earlier child the evidence prefers and is relabelled in the same way, or keeps its own |
| `Preferences.PickIsUnique` | crates/vmui-platform-windows/src/lib.rs:945-953 | There is exactly one such choice, ties included |
| `Preferences.OnlyChildTakes` | crates/vmui-platform-windows/src/lib.rs:935-966 | A single captured child takes the id of the possible earlier child that outranks the others |
| `Preferences.SharedHandleWins` | crates/vmui-platform-windows/src/lib.rs:975-1004 | Of two earlier siblings in either order the one that shares the handle is taken, whatever else the other shares |
| `Preferences.SharedAutomationIdWins` | crates/vmui-platform-windows/src/lib.rs:975-1004 | Without handles and at the same place, the one that alone shares the automation id is taken |
| `Preferences.MoreSharedTextWins` | crates/vmui-platform-windows/src/lib.rs:975-1004 | With automation ids alike, the one that shares more of class and name |
| `Preferences.MoreSharedPlaceWins` | crates/vmui-platform-windows/src/lib.rs:975-1004 | With those alike too, the one that shares more of last segment and bounds |
| `Stabilization.StabilizeWindows` | crates/vmui-platform-windows/src/lib.rs:868-886 | The relabelling of a desktop computes the specified windows |
| `Preferences.WindowScoreIsWorth` | crates/vmui-platform-windows/src/lib.rs:888-928 | What each agreement of two windows is worth, and when they may be the same at all |
| `Preferences.StabilizedWindowsByPicks` | crates/vmui-platform-windows/src/lib.rs:868-933 | The relabelling of a desktop told without scores: which earlier window each captured one takes its identity from |
| `Stabilization.SelfScoreIsTop` | crates/vmui-platform-windows/src/lib.rs:975-1004 | No earlier element explains a capture better than the capture explains itself |
| `Stabilization.StabilizeRelabels` | crates/vmui-platform-windows/src/lib.rs:935-966 | Stabilizing changes ids and parent ids only |
| `Stabilization.OwnLabelWins` | crates/vmui-platform-windows/src/lib.rs:945-953 | A relabelled sibling outscores all its siblings on its own capture, unless that capture scores too low to match anything |
| `Stabilization.StabilizationIsFixpoint` | crates/vmui-platform-windows/src/lib.rs:935-1004 | Stabilizing a capture again, against what any earlier tree made of it, gives the same tree |
| `Stabilization.CaptureIsFixed` | crates/vmui-platform-windows/src/lib.rs:935-966 | A fresh capture stabilized against itself is unchanged |
| `Stabilization.DesktopRefreshIsFixpoint` | crates/vmui-platform-windows/src/lib.rs:868-933 | Recapturing an unchanged desktop with distinct handles gives the same inventory |
| `StabilizedIds.StabilizedIdsAre` | crates/vmui-platform-windows/src/lib.rs:935-966 | The ids of a stabilized tree are those matched nodes took over and those unmatched subtrees kept |
| `StabilizedIds.StabilizedIdsUniqueIff` | crates/vmui-platform-windows/src/lib.rs:935-966 | Unique ids stay unique if and only if no id is both taken over and kept |
| `StabilizedIds.NewSiblingMayRepeatId` | crates/vmui-platform-windows/src/lib.rs:955-964 | An unmatched sibling may repeat the id its matched sibling took over |
| `StabilizedIds.StabilizedWindowIdsUniqueIff` | crates/vmui-platform-windows/src/lib.rs:868-886 | Unique window ids stay unique if and only if no unmatched window's id is one a matched window took over |
| `Materialize.BuildChildLocatorSegments` | crates/vmui-platform-windows/src/windows_impl.rs:603-635 | The two passes over counted signatures number exactly the repeated ones, in order, as 32-bit ordinals |
| `Materialize.Materialize` | crates/vmui-platform-windows/src/windows_impl.rs:560-601 | The recursive builder computes the specified tree |
| `Materialize.MaterializedCarries` | crates/vmui-platform-windows/src/windows_impl.rs:560-601 | At every position there is a node if and only if one was observed; it carries the ten observed fields, its last segment describes it and its id is made from its path |
| `Materialize.OrdinalCountsTwins` | crates/vmui-platform-windows/src/windows_impl.rs:603-634 | A child is numbered if and only if a sibling shares its signature, by how many of those come before it |
| `Materialize.SegmentsAreDistinct` | crates/vmui-platform-windows/src/windows_impl.rs:603-645 | Siblings get different segments whatever the normalization does |
| `Materialize.MaterializedIsLocated` | crates/vmui-platform-windows/src/windows_impl.rs:556-601 | Every locator extends its parent's by one segment, siblings' differ, and parent ids are true |
| `Materialize.MaterializedRefreshIsFixpoint` | crates/vmui-platform-windows/src/windows_impl.rs:556-645 | Captured trees meet what stabilization needs, so refreshing one unchanged changes nothing |
| `Materialize.OwnLocatorResolves` | crates/vmui-agent/src/lib.rs:2056-2067 | Searching a tree for any node's locator finds that very node |
| `Materialize.RelabelledAndAnnotatedComesFrom` | crates/vmui-platform-windows/src/lib.rs:558-622 | Relabelling a captured tree and annotating its properties keeps every locator |
| `Materialize.LocatorsIdentifyNodes` | crates/vmui-agent/src/lib.rs:2006-2067 | In a desktop with distinct fingerprints, relabelled, annotated or not, any node's locator resolves to it, alone or as fallback for a stale id |
| `WireLocators.WireLocatorResolvesIff` | crates/vmui-transport-grpc/src/lib.rs:452-496 | A node's locator that crossed the wire resolves to that node if and only if it was in normal form, and to nothing otherwise |
| `WireLocators.FirstTwinIsLost` | crates/vmui-platform-windows/src/windows_impl.rs:603-634 | An input whose locator does not come back: the first of two children that look alike |
| `WireLocators.LocatorSignatureReadsEmptyAsAbsent` | crates/vmui-platform-windows/src/windows_impl.rs:637-644 | The signature tells no empty text from an absent one, if normalizing keeps the empty text empty |
| `WireLocators.NormalSegmentsApart` | crates/vmui-platform-windows/src/windows_impl.rs:603-645 | Among siblings a segment's normal form is at most that segment itself |
| `ElementIds.SiblingKeysDiffer` | crates/vmui-platform-windows/src/lib.rs:826-839 | The text keys of siblings differ whatever their names contain |
| `ElementIds.KeysTellFields` | crates/vmui-platform-windows/src/lib.rs:826-839 | Where control type, class and automation id show no bar, keys are equal if and only if every field shows the same and the ordinals are the same |
| `ElementIds.SignaturesTellFields` | crates/vmui-platform-windows/src/windows_impl.rs:637-645 | Likewise siblings share a signature if and only if every field shows the same |
| `ElementIds.IdIsSpelled` | crates/vmui-platform-windows/src/lib.rs:812-839 | Every id at or below a child is hashed from a text the child spells |
| `ElementIds.SpelledIsId` | crates/vmui-platform-windows/src/lib.rs:812-839 | Every text a child spells is hashed to an id at or below it |
| `ElementIds.CapturedIdsUniqueIff` | crates/vmui-platform-windows/src/lib.rs:812-839 | A captured tree repeats no id if and only if no text is spelled at two different siblings and the hash has no collision among the tree's own texts |
| `ElementIds.PrefixFreeIsClashFree` | crates/vmui-platform-windows/src/lib.rs:818-839 | That holds whenever no sibling's key followed by the separator begins another sibling's key |
| `ElementIds.SpellingNameRepeatsId` | crates/vmui-platform-windows/src/lib.rs:818-839 | A captured tree that repeats an id, whatever the hash: a name spells the way to a sibling's child |
| `Fingerprints.FingerprintSpellsHandle` | crates/vmui-platform-windows/src/windows_impl.rs:527-554 | The handle reads back from either form of fingerprint, whatever class, role, title and name contain |
| `Fingerprints.EqualFingerprintsEqualHandles` | crates/vmui-platform-windows/src/windows_impl.rs:527-554 | A fingerprint is built for one handle only, across both forms |
| `Observer.RefreshObserver.constructor` | crates/vmui-platform-windows/src/lib.rs:154-166 | The observer starts from the captured inventory and its projection at revision 1 |
| `Observer.RefreshObserver.HandleBatch` | crates/vmui-platform-windows/src/lib.rs:239-288 | A batch updates inventory and snapshot and emits the diff, or only the inventory when there is none |
| `Observer.ApplyAll` | crates/vmui-platform-windows/src/lib.rs:248-264 | Requests are applied in order to a working copy, failed captures skipped |
| `Observer.ApplyTo` | crates/vmui-platform-windows/src/lib.rs:359-390 | One request: the desktop stabilized whole, a window stabilized in place, appended or dropped |
| `Captures.DesktopRequestShowsCapture` | crates/vmui-platform-windows/src/lib.rs:366-370 | After refreshing the desktop the inventory shows what was captured, window by window up to ids, and is unchanged if the capture failed |
| `Captures.FailedCaptureChangesNothing` | crates/vmui-platform-windows/src/lib.rs:371-386 | A failed capture of one window changes nothing |
| `Captures.TickShowsCapture` | crates/vmui-platform-windows/src/lib.rs:239-288 | After a batch that ends with a captured desktop the inventory shows that desktop |
| `Captures.PublishedIffKept` | crates/vmui-platform-windows/src/lib.rs:396-435 | A snapshot holds exactly the windows the projection keeps, as many as it keeps |
| `Captures.TickPublishes` | crates/vmui-platform-windows/src/lib.rs:239-288 | What a batch publishes is what it leaves in the inventory, with a diff or without |
| `Captures.SnapshotShowsCapture` | crates/vmui-platform-windows/src/lib.rs:239-288 | So after a batch that ends with a captured desktop a window is published if and only if it is the projection of a captured one, relabelled |
| `Observer.ObserveKeepsStep` | crates/vmui-platform-windows/src/lib.rs:239-288 | One batch keeps session and observer level, with or without a diff: exactly if focus moves can be restored, apart from focus in any case |
| `Observer.IncrementalEqualsRecomputed` | crates/vmui-platform-windows/src/lib.rs:239-288 | Over every run of batches with diffable snapshots and restorable focus moves the session's windows equal the projection of the current inventory, revisions agree and no resync is recorded |
| `Observer.IncrementalUpToFocus` | crates/vmui-platform-windows/src/lib.rs:239-288 | Without any condition on focus the same holds apart from which elements are focused, every diff being accepted |
| `Observer.OpenedSessionFollows` | crates/vmui-platform-windows/src/lib.rs:154-190 | The same from the opening of a session, whose first snapshot is the projection of the first capture |
| `Observer.UnchangedDesktopEmitsNothing` | crates/vmui-platform-windows/src/lib.rs:239-288 | Refreshing an unchanged desktop, whole or by window and however often, changes and emits nothing |
| `Observer.OpenedOnStillDesktopEmitsNothing` | crates/vmui-platform-windows/src/lib.rs:154-190 | In particular right after opening a session, whose capture was never relabelled |
| `Coalescing.CoalesceRequests` | crates/vmui-platform-windows/src/lib.rs:311-339 | The loop merges requests as specified: one per window in handle order, or one for the desktop |
| `Coalescing.MergedSourceIsStrongest` | crates/vmui-platform-windows/src/lib.rs:311-347 | Each scope asked for has one pending request, carrying the strongest source asked with |
| `Coalescing.CoalescedStandsForAll` | crates/vmui-platform-windows/src/lib.rs:311-347 | A batch that asks for the desktop becomes that one request; any other becomes one request for exactly the windows asked for, by ascending handle; each carries the strongest source of its scope |
| `Coalescing.RefreshAllEffect` | crates/vmui-platform-windows/src/lib.rs:359-390 | After refreshing a list of handles each of them shows the desktop and every other window is untouched |
| `Coalescing.RefreshedIsStable` | crates/vmui-platform-windows/src/lib.rs:359-390 | An earlier refresh does not change what a later one yields |
| `Coalescing.HandleSetDecides` | crates/vmui-platform-windows/src/lib.rs:359-390 | Which handles are refreshed decides the inventory; order and repetition do not |
| `Coalescing.CoalescingPreservesInventory` | crates/vmui-platform-windows/src/lib.rs:311-390 | On a still desktop the coalesced requests of a window-only batch leave the same inventory, up to order |
| `Refreshes.RootIdsAreOwned` | crates/vmui-platform-windows/src/lib.rs:807-816 | A root id occurs in no window of another id |
| `Refreshes.CapturedDesktopsAreDiffable` | crates/vmui-platform-windows/src/lib.rs:807-816 | Captured desktops meet the hypotheses of the diff round trip, whatever their names contain |
| `Refreshes.CapturedIsSound` | crates/vmui-platform-windows/src/windows_impl.rs:527-558 | A captured window whose fingerprint was built for the handle its root reports is sound: window and root named after one fingerprint that spells the handle, inner ids never a root's, locators as materialized |
| `Refreshes.StabilizedIsWellParented` | crates/vmui-platform-windows/src/lib.rs:935-973 | Stabilizing makes every parent id true, whatever the trees looked like |
| `Refreshes.StabilizedWindowsAreSound` | crates/vmui-platform-windows/src/lib.rs:868-933 | Relabelling keeps handles, true parents, and window and root named after one fingerprint of that handle |
| `Refreshes.RequestsKeepSound` | crates/vmui-platform-windows/src/lib.rs:359-390 | So does any sequence of refresh requests, failed captures included |
| `Refreshes.SoundInventoriesAreDiffable` | crates/vmui-platform-windows/src/lib.rs:396-435 | Any two published snapshots of such inventories, filtered and annotated, have unique window ids in order and can be diffed |
| `Refreshes.SoundRunsAreDiffable` | crates/vmui-platform-windows/src/lib.rs:239-288 | Every run on captured desktops has diffable snapshots throughout, and its inventory stays sound |
| `Refreshes.SoundRunsAreWellFormed` | crates/vmui-platform-windows/src/lib.rs:239-288 | Such a run is well formed if and only if its focus moves can be restored |
| `Refreshes.CapturedSessionFollows` | crates/vmui-platform-windows/src/lib.rs:154-288 | So from opening a session, over every run, its windows are the projection of the current inventory, level and without a resync: apart from focus always, exactly while focus moves can be restored |
| `Refreshes.PublishedFingerprintsAreDistinct` | crates/vmui-platform-windows/src/windows_impl.rs:527-554 | Published windows have distinct fingerprints, since they have distinct handles |
| `Refreshes.PublishedLocatorsResolve` | crates/vmui-platform-windows/src/windows_impl.rs:565-645 | After every run on captured desktops each published node is found again by its locator, also when its id went stale |
| `Wire.LocatorRoundTrip` | crates/vmui-transport-grpc/src/lib.rs:452-496 | A locator arrives in normal form; ordinal 0 arrives as none |
| `Wire.MapRoundTrip` | crates/vmui-transport-grpc/src/lib.rs:498-573 | Properties arrive exactly |
| `Wire.ElementRoundTrip` | crates/vmui-transport-grpc/src/lib.rs:498-573 | Decoding an encoded tree succeeds and yields its normal form |
| `Wire.NormalElementIsTheExplicitOne` | crates/vmui-transport-grpc/src/lib.rs:498-573 | What arrives is the one tree that reads like the one sent, taking empty texts, zero handles and zero ordinals for absent, and has none of those |
| `Wire.CrossesUnchangedIff` | crates/vmui-transport-grpc/src/lib.rs:498-573 | A tree crosses unchanged if and only if it has no empty text, zero handle or zero ordinal anywhere |
| `Wire.SnapshotRoundTrip` | crates/vmui-transport-grpc/src/lib.rs:332-402 | So does a snapshot, its time cut to milliseconds |
| `Wire.OpRoundTrip` | crates/vmui-transport-grpc/src/lib.rs:603-751 | So does every diff operation |
| `Wire.DiffRoundTrip` | crates/vmui-transport-grpc/src/lib.rs:575-601 | So does a batch |
| `Wire.NormalElementIsIdempotent` | crates/vmui-transport-grpc/src/lib.rs:529-573 | A second crossing changes no tree |
| `Wire.NormalSnapshotIsIdempotent` | crates/vmui-transport-grpc/src/lib.rs:344-360 | A second crossing changes no snapshot |
| `WireLaws.ApplyOpSame` | crates/vmui-core/src/lib.rs:854-1020 | An operation other than a focus move to an empty id and its wire form succeed or fail alike on caches equal up to the wire, and keep them so |
| `WireDrift.ApplyOpSameIff` | crates/vmui-core/src/lib.rs:854-1020 | An operation and its wire form do the same, failures included, if and only if it is not a focus move to an empty id in a window that is there |
| `WireDrift.EmptyFocusIdDrifts` | crates/vmui-transport-grpc/src/lib.rs:603-751 | An accepted batch that ends in such a move is accepted by the mirror too, raises no flag and leaves the two apart |
| `WireDrift.NamelessWindowDrifts` | crates/vmui-transport-grpc/src/lib.rs:603-751 | An input that drifts: a window whose root has no id is given the focus |
| `WireDrift.DiffOpsAreWireSafe` | crates/vmui-platform-windows/src/lib.rs:772-779 | No diff between snapshots without an empty id contains such a move |
| `WireLaws.ApplyOpsSame` | crates/vmui-core/src/lib.rs:146-149 | So do whole lists, up to and including the first failure |
| `WireLaws.AcceptedDiffIsMirrored` | crates/vmui-core/src/lib.rs:117-156 | Session and mirror return the same verdict on a batch, and after an accepted one agree again |
| `DaemonSession.ProcessSession` | crates/vmui-agent/src/lib.rs:789-965 | The message loop with its refusals, lost replies and clean-up computes the specified session |
| `DaemonSession.AnswersFollowRequests` | crates/vmui-agent/src/lib.rs:917-930 | Action requests are answered once each and in order: a prefix of them, all unless the stream failed |
| `DaemonSession.RepliesAreWellOrdered` | crates/vmui-agent/src/lib.rs:803-930 | At most one acknowledgement, then at most one initial snapshot, then results, however the client behaves |
| `DaemonSession.MessagesAreAnswered` | crates/vmui-agent/src/lib.rs:797-949 | Message by message the client gets the reply of the message's kind, a subscription the backend's own snapshot, up to the first message that may not follow those before it or whose reply it does not take |
| `DaemonSession.EndsCleanlyIff` | crates/vmui-agent/src/lib.rs:797-949 | The session ends without an error if and only if every message was allowed, by what had been sent before it, and its reply taken |
| `DaemonSession.StaysActiveIff` | crates/vmui-agent/src/lib.rs:952-964 | A finished stream leaves its session active if and only if a hello was accepted and the stream failed |
| `WaitFor.ExecuteWaitFor` | crates/vmui-agent/src/lib.rs:487-558 | Completion is reported exactly when some turn short of the deadline finds the condition held at every look for long enough, a capture error exactly when a turn meets one |
| `WaitFor.LastingConditionCompletesIff` | crates/vmui-agent/src/lib.rs:498-542 | A condition that holds for good completes the wait if and only if a later look comes in time |
| `WaitFor.RestingDesktopTimesOut` | crates/vmui-agent/src/lib.rs:541-556 | A desktop that satisfies the condition and then rests times out every wait that asks for stability |
| `Worker.DaemonSessionWorker.Connect` | crates/vmui-mcp-proxy/src/lib.rs:818-941 | Startup consumes messages up to acknowledgement and snapshot, then takes over the new stream, leaving the action slot as it was |
| `Worker.DaemonSessionWorker.Receive` | crates/vmui-mcp-proxy/src/lib.rs:1014-1060 | One message: mirror updated, or the slot emptied into its waiter, or continuity invalidated |
| `Worker.DaemonSessionWorker.EndOfStream` | crates/vmui-mcp-proxy/src/lib.rs:1063-1074 | The stream's end disconnects and fails the waiter in the slot |
| `Worker.DaemonSessionWorker.Close` | crates/vmui-mcp-proxy/src/lib.rs:645-654 | Closing disconnects and drops the waiter |
| `Worker.DaemonSessionWorker.PlaceWaiter` | crates/vmui-mcp-proxy/src/lib.rs:951-964 | A waiter replaces whatever the slot held, and is refused if it held something |
| `Worker.DaemonSessionWorker.FailPending` | crates/vmui-mcp-proxy/src/lib.rs:992-1000 | The slot's waiter is failed and the slot emptied |
| `Resync.ForwardEvent` | crates/vmui-agent/src/lib.rs:2103-2264 | One backend event: forwarded, or announced as a resync and answered by a recapture, recovered or not |
| `Announcements.RefusalIsSignalled` | crates/vmui-agent/src/lib.rs:2139-2251 | What a refusal sends: the signal first, then after a capture the snapshot at the greater of its revision and the session's next, before the recovery warning; after a failed one the failure warning |
| `Announcements.WarningsAreDue` | crates/vmui-agent/src/lib.rs:2208-2260 | The warnings sent are exactly those due, each once, a backend's own included |
| `Announcements.RecoveryIsAnnounced` | crates/vmui-agent/src/lib.rs:2208-2216 | After a refused diff with a successful recapture the drained proxy holds its continuity lost |
| `Announcements.DrainedAfter` | crates/vmui-mcp-proxy/src/lib.rs:1023-1060 | A step changes the whole worker of the drained proxy by exactly the messages it sends |
| `Announcements.ContinuityIsTold` | crates/vmui-mcp-proxy/src/lib.rs:1049-1053 | Over every run a drained proxy holds its continuity lost if and only if it did, the session was recovered at some step, or the backend sent that warning itself |
| `Announcements.SubscribedContinuity` | crates/vmui-mcp-proxy/src/lib.rs:1049-1053 | From the subscription on, if and only if one of the last two happened |
| `Resync.MessageRoundTrip` | crates/vmui-transport-grpc/src/lib.rs:277-330 | Every snapshot and diff batch the daemon sends decodes, and arrives in normal form |
| `Resync.ForwardKeepsMirror` | crates/vmui-agent/src/lib.rs:2115-2251 | Forwarding keeps the mirror flagged or in step |
| `Resync.RefusedEventReachesMirror` | crates/vmui-agent/src/lib.rs:2139-2251 | After a refused diff the mirror is flagged, or shows the recaptured snapshot unflagged |
| `Resync.MirrorSafetyOverRuns` | crates/vmui-mcp-proxy/src/lib.rs:1031-1048 | Over every interleaving, a mirror that has met everything sent is flagged or equals the session up to the wire |
| `Resync.SubscribedRunsAreSafe` | crates/vmui-agent/src/lib.rs:844-914 | The same from the moment of subscribing, startup included |
| `Resync.QuietRunsMirrorExactly` | crates/vmui-agent/src/lib.rs:2117-2138 | While no batch is refused the mirror is never flagged and always in step |
| `Resync.RecoveryRestoresMirror` | crates/vmui-agent/src/lib.rs:2172-2222 | A successful recapture leaves the mirror unflagged, in step, with the captured windows and no smaller revision |
| `Resync.OneDelivery` | crates/vmui-agent/src/lib.rs:1134-1138 | A delivery advances the session by one revision unless it is refused and the recapture fails; it is stale exactly when the session is behind |
| `Resync.RevisionGapLaw` | crates/vmui-agent/src/lib.rs:2139-2251 | The backend's lead over the session grows by exactly the number of failed recoveries |
| `Resync.StaleIffRecoveryFailed` | crates/vmui-agent/src/lib.rs:2139-2251 | A level session meets a stale diff if and only if a recovery fails with a diff still to come |
| `Resync.OpenGapMakesEveryDiffStale` | crates/vmui-agent/src/lib.rs:2139-2251 | Once behind, every later diff is stale, with the gap in its error |
| `BestEffort.FlaggedAfterRefusalIff` | crates/vmui-core/src/lib.rs:117-156 | After a refusal without recovery the session is flagged if and only if it was, or the batch was refused for its revision, or asks for a resync |
| `BestEffort.ServedAfterRefusal` | crates/vmui-agent/src/lib.rs:145-183 | An action then reads the partly edited cache exactly when the session is unflagged, and a fresh capture otherwise |
| `BestEffort.ServedIsMirrored` | crates/vmui-agent/src/lib.rs:145-183 | Over every run an action reads what the mirror shows, up to the wire, while neither side is flagged |
| `BestEffort.EmptyDesktopIsServed` | crates/vmui-agent/src/lib.rs:145-183 | An input that has actions read an empty desktop that never was |
| `Pipeline.PublishedIdsAreNotEmpty` | crates/vmui-platform-windows/src/lib.rs:807-816 | No published window of a captured desktop has an empty id |
| `Pipeline.RefreshKeepsLevel` | crates/vmui-agent/src/lib.rs:2115-2138 | A refresh batch queues at most one diff, which the session will accept once it has taken those before it |
| `Pipeline.DeliveryKeepsLevel` | crates/vmui-agent/src/lib.rs:2115-2138 | Taking the next diff of the queue accepts and forwards it, and the mirror follows |
| `Pipeline.MirrorShowsInventory` | crates/vmui-mcp-proxy/src/lib.rs:1031-1048 | Over every interleaving of refresh batches, deliveries and other traffic, the observer leads the session by exactly the queued diffs, and a mirror that has met everything sent is unflagged and shows the session; with the queue empty it shows the projection of the current inventory up to the wire, apart from focus always and exactly if every focus move could be restored |
| `ActionSlot.StepKeepsInv` | crates/vmui-mcp-proxy/src/lib.rs:698-1074 | Every step keeps: at most one request outstanding, none when the slot is empty, and the waiter, slot and request belong together |
| `ActionSlot.AnswersReachTheirRequests` | crates/vmui-mcp-proxy/src/lib.rs:947-990 | Over every run each completed call got the answer to its own request |
| `ActionSlot.OpenedRunsAnswerTheirOwn` | crates/vmui-mcp-proxy/src/lib.rs:698-744 | The same from opening; a mutating call is sent at most once and a read-only one at most twice |
| `CallRuns.OnlyReadsOpenStreams` | crates/vmui-mcp-proxy/src/lib.rs:707-732 | A step that opens a stream or counts a reconnect is that of a read-only call |
| `CallRuns.MutatingRunsOpenNoStream` | crates/vmui-mcp-proxy/src/lib.rs:707-714 | Over every run of mutating calls no stream is opened and no reconnect counted |
| `CallRuns.LostStreamDisconnects` | crates/vmui-mcp-proxy/src/lib.rs:1063-1074 | The end of the stream and `close` leave a session that is disconnected with an empty slot and nothing outstanding |
| `CallRuns.LostUntilReopened` | crates/vmui-mcp-proxy/src/lib.rs:1063-1074 | Such a session stays so until a read-only call opens another stream |
| `CallRuns.LostMutatingCallGivesUp` | crates/vmui-mcp-proxy/src/lib.rs:707-714 | Over every run a mutating call that begins on a lost stream gives up unsent at its first look at the connection, and until then nothing is outstanding for it |
| `CallRuns.LostReadReconnects` | crates/vmui-mcp-proxy/src/lib.rs:715-718 | A read-only call on a lost stream goes on over a new one, or gives up |
| `CallRuns.FailedCallEnds` | crates/vmui-mcp-proxy/src/lib.rs:728-741 | A failed call ends, unless it is a read-only one's first attempt, which reconnects or ends |
| `CallRuns.ConnectedCallCompletes` | crates/vmui-mcp-proxy/src/lib.rs:720-727 | On an intact stream with a free slot a call is sent once and completes with its own answer |
| `CallRuns.BrokenStreamFailsTheCall` | crates/vmui-mcp-proxy/src/lib.rs:1063-1074 | A call that waits when its stream breaks fails |
| `ActionSlot.WedgeHolds` | crates/vmui-mcp-proxy/src/lib.rs:951-964 | A dead waiter in the slot with nothing outstanding stays until the stream ends or the session closes, and no step completes a call |
| `ActionSlot.WedgedRunsCompleteNothing` | crates/vmui-mcp-proxy/src/lib.rs:698-744 | Until then no call completes, however often it retries and reconnects |
| `ActionSlot.ResumesIffSlotEmpty` | crates/vmui-mcp-proxy/src/lib.rs:707-732 | A read-only call that reopens the stream is placed on it if and only if the slot was empty; otherwise its reconnect wedges the slot |
| `ActionSlot.FailureLeavesSlotIff` | crates/vmui-mcp-proxy/src/lib.rs:947-990 | A failure leaves the slot occupied exactly when it is a timeout before the answer, an encoding error or a refusal at an occupied slot |
| `ActionSlot.FailedReadResumesIff` | crates/vmui-mcp-proxy/src/lib.rs:728-732 | The retry of any failed first read is placed if and only if its failure left the slot empty |
| `ActionSlot.BrokenStreamRetryIsPlaced` | crates/vmui-mcp-proxy/src/lib.rs:728-732 | The retry of a read whose stream broke is placed |
| `ActionSlot.WedgeIsReachable` | crates/vmui-mcp-proxy/src/lib.rs:698-744 | One timed-out read that reconnects wedges a fresh session |
| `ActionSlot.ContinuityIsReported` | crates/vmui-mcp-proxy/src/lib.rs:910-935 | Over every run reconnects are counted, and continuity is marked lost if and only if a stream was reopened or the daemon announced a recovery |
| `Comparison.SummaryIgnoresChildOrder` | crates/vmui-agent/src/lib.rs:1483-1515 | Signature, node count and fallback count ignore child order at every depth, ids, bounds, handles and locators |
| `ComparisonLaws.SignatureEqualIff` | crates/vmui-agent/src/lib.rs:1483-1515 | Where no text shown contains a bracket, signatures are equal if and only if the trees are the same up to the order of children at every depth |
| `ComparisonLaws.DifferentTreesDiffer` | crates/vmui-agent/src/lib.rs:1483-1502 | With a renderer that tells nodes apart, signatures differ if and only if the trees do, in one of the eight fields of a node or in its children up to order |
| `ComparisonLaws.SpelledSiblingsCollide` | crates/vmui-agent/src/lib.rs:1483-1502 | An input with brackets for which they are not: a leaf that spells two |
| `Comparison.CollectCandidates` | crates/vmui-agent/src/lib.rs:1521-1534 | The candidates are exactly the pairs with a positive score |
| `Comparison.ChooseGreedily` | crates/vmui-agent/src/lib.rs:1544-1559 | Walking them best first yields a matching of pairs scoring at least 7 without a blocking pair |
| `Comparison.MatchWindows` | crates/vmui-agent/src/lib.rs:1517-1563 | So does the whole procedure, reported in the order of the expected windows |
| `Comparison.GreedyMatchingIsUnique` | crates/vmui-agent/src/lib.rs:1536-1559 | There is exactly one such matching, ties notwithstanding |
| `Comparison.SelfScoreDominates` | crates/vmui-agent/src/lib.rs:1565-1616 | No pair of windows scores above either window with itself, and a recognizable one reaches 7 |
| `Comparison.CompareSnapshots` | crates/vmui-agent/src/lib.rs:1240-1345 | The report: the matching, what is left over on either side, the pairs that differ, and the verdict |
| `ComparisonLaws.ChangedWindowIff` | crates/vmui-agent/src/lib.rs:1373-1414 | A matched pair counts as changed if and only if a reported field differs or the trees are not the same up to the order of children |
| `ComparisonLaws.ReportListsIff` | crates/vmui-agent/src/lib.rs:1255-1300 | Which windows are listed as added and removed and which pairs as changed |
| `ComparisonLaws.ScoreAddsUp` | crates/vmui-agent/src/lib.rs:1565-1616 | What a score adds up, that it is nothing without a common identity, and when it suffices to match |
| `Comparison.ComparisonCountsAddUp` | crates/vmui-agent/src/lib.rs:1255-1276 | Matched plus removed counts the expected windows, matched plus added the actual ones |
| `Comparison.SelfComparison` | crates/vmui-agent/src/lib.rs:1517-1616 | Comparing with itself matches if and only if every window is recognizable; others are both added and removed |
| `Artifacts.RecordsByAge` | crates/vmui-core/src/lib.rs:435-446 | Sorting by age and id gives the one strictly sorted listing of the records |
| `Artifacts.PlanEviction` | crates/vmui-core/src/lib.rs:448-476 | Both passes together plan the least prefix of the oldest records whose eviction fits the policy |
| `Artifacts.ArtifactStore.constructor` | crates/vmui-core/src/lib.rs:349-367 | A store opens empty with the swept orphans counted |
| `Artifacts.ArtifactStore.BookRemoval` | crates/vmui-core/src/lib.rs:489-498 | A finished cleanup makes the counter the exact sum of what is left and counts what it removed |
| `Artifacts.ArtifactStore.Evict` | crates/vmui-core/src/lib.rs:478-487 | Records leave oldest first up to and including the first whose file cannot be deleted |
| `Artifacts.ArtifactStore.Cleanup` | crates/vmui-core/src/lib.rs:430-508 | The books after a cleanup and its outcome; a delete error updates no counter |
| `Artifacts.ArtifactStore.WriteBytes` | crates/vmui-core/src/lib.rs:377-411 | A failed write changes nothing; a stored artifact is recorded and cleaned up after, and a cleanup error is the write's error |
| `ArtifactLaws.CleanupKeepsLongestAllowedTail` | crates/vmui-core/src/lib.rs:430-508 | A successful cleanup keeps the longest tail by age that the policy allows, none expired and within both budgets, and makes the counter exact |
| `ArtifactLaws.NewestSurvivesIff` | crates/vmui-core/src/lib.rs:377-411 | The newest write survives its own cleanup if and only if it is not expired, artifacts may be kept at all and it fits the budget beside the counter's slack, which earlier delete errors leave |
| `ArtifactLaws.EventBalances` | crates/vmui-core/src/lib.rs:478-498 | What a failed and what a successful cleanup do to the byte counters |
| `ArtifactLaws.BooksBalance` | crates/vmui-core/src/lib.rs:406-498 | Over every run the counter exceeds the live sum by the pending lost bytes, and written plus swept equals counter plus deleted plus forgotten bytes |
| `ArtifactLaws.LostIffEvents` | crates/vmui-core/src/lib.rs:478-498 | Forgotten and pending bytes are those of losing cleanups with, respectively without, a later success |
| `ArtifactLaws.ConservationIff` | crates/vmui-core/src/lib.rs:406-498 | Bytes are conserved if and only if no failing cleanup that dropped a non-empty artifact is followed by a successful one, and the counter is exact if and only if every such cleanup is; runs without delete errors lose nothing |
| `ArtifactLaws.DeleteErrorLosesBytes` | crates/vmui-core/src/lib.rs:480-487 | A run of two writes and a cleanup that loses five bytes |

## Left out

- Trees are values: the code owns every tree it edits, so editing through `&mut` becomes
  rebuilding; aliasing does not arise and is not modelled.
- The registry's map from session ids to records and its not-found error: one record is
  modelled at a time, and a record is opened before it is used.
- Session ids, profiles, telemetry counters, warning texts and the `last_cleanup_*` fields.
- Error texts: resync reasons and errors are structured values where the code formats text.
- `f32` rounding, NaN and negative zero: confidences are reals, and the bit comparisons of
  confidences are equality.
- The JSON text of property values on the wire, and the range errors of millisecond timestamps.
- Profile matching, window filters and the 1C keyword heuristics: projecting a window is an
  arbitrary function that drops or annotates it.
- Conditions of a wait: an arbitrary function of the snapshot.
- That a captured root reports the handle its window was found under: a hypothesis, since UIA
  supplies it; the MSAA form sets it.
- Sessions that subscribe without the diff stream: their clients get warnings only.
- The race between a reader task being aborted and its last act: both are atomic steps, and an
  aborted reader does nothing more.
- The outcome of coalescing a batch that also asks for the whole desktop: dropping the window
  requests may change which earlier id a window takes over.
- Shallow captures, tree truncation, artifacts attached to actions, screenshots, OCR and panel
  probes; Win32, UIA and MSAA; tonic, tokio and MCP plumbing.
- Overflow of byte counters and of artifact ages: both are unbounded integers.
- Hash collisions: laws about windows and runs assume none among the texts that are hashed.
- `MAX_REVISION`: runs that reach the last revision are excluded by hypothesis where revisions
  are counted; a single batch at the last revision is covered.
- Failed batches are not atomic, and the model keeps their partial edits; later diffs are not
  claimed to apply after a recovery, whose snapshot is not stabilized against the observer's ids.
- Materialize.SegmentsAreDistinct: at most 2^32 siblings are assumed; beyond that the 32-bit ordinals wrap.
- Comparison.CompareSnapshots: the report's JSON, and equality of the profiles, which is given;
  node and fallback counts are reported by the code but not compared, and are proved about
  trees only.
- Observer.IncrementalEqualsRecomputed: published snapshots are assumed diffable and focus moves
  restorable. `Refreshes.SoundRunsAreDiffable` proves the first for every run on captured
  desktops whose windows have distinct, non-null handles; the second stays a hypothesis of exact
  equality, since a capture may show several focused nodes, and `Observer.IncrementalUpToFocus`
  does without it.
- Refreshes.SoundRunsAreDiffable: captured windows without a native handle are not covered; for
  those `StabilizedIds.StabilizedWindowIdsUniqueIff` says when a refresh keeps window ids unique.
- Resync.MessageRoundTrip: acknowledgements, action results and warnings cross as opaque values;
  their fields, the session id and the profile of a snapshot included, are not modelled.
- Pipeline.MirrorShowsInventory: equality is up to normalization, the observer being the only
  backend; refused diffs and recaptures are the subject of `Resync`.
- Artifacts.ArtifactStore.WriteBytes: ids of new artifacts are assumed not to be in use; the
  code draws them at random.
- The observer's warnings about failed captures; a failed capture changes nothing.
- Reasons of refresh requests: merged as in the code, with no law about their text.
- DaemonSession.ProcessSession: what the forwarding task sends in between is part of the
  resync protocol, and what an action does is not modelled.
