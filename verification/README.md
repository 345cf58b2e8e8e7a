# Verified models of the execution and provider layers

This project models the parts of the repository where several parties, retries,
restarts or partial data meet, and proves what they promise over every run:

* **Path resolution and file mutations of the supervisor** (`FileTree`,
  `PathResolver`, `ResolutionLaws`, `FileMutations`, `MutationSafety`, `MutationLaws`). A file system is a map from
  absolute paths to directories, files and symbolic links. `Walk` is path resolution
  as POSIX.1-2017 Base Definitions section 4.13 describes it (`lstat`, `realpath`),
  `Locate` says independently of the resolvers what a path denotes or where opening
  it for writing would create something. The resolvers are shown to land exactly there.
* **The mutation ledger** (`MutationLedger`, `MutationRuns`, `FencedRuns`): replay by
  operation ID, fingerprints, tombstones, generation fencing, abandoned calls and
  supervisor restarts.
* **Reads and listings of the supervisor** (`WindowedRead`, `Listing`), with the client
  loops that page through them while other writers are at work.
* **The gateway's host and snapshot lifecycle** (`ProviderErrors`, `HostRows`,
  `HostLifecycle`, `HostRequests`, `SnapshotLifecycle`, `SnapshotRequests`): the guarded row updates as a class and as
  functions, and state machines that interleave requests, claims, stale workers,
  provider calls, forwarded operations, snapshots and the clock.
* **Idempotent creation** (`Idempotency`) and the **host connection router** of the
  gateway (`HostConnections`, `HostConnectionLaws`, `HostConnectionLosses`), one step per lock acquisition.
* **Incremental decoders and the limiter** (`SseStream`, `ConnectStream`, `Ndjson`,
  `Limiter`, `LimiterFairness`, `LimiterDisorder`), each against a one-shot specification, for
  every way of cutting the stream or ordering the calls.

State machines are functions `Step(world, action)` in which an action that is not
enabled changes nothing, so a theorem about `Run(start, actions)` for an arbitrary list
of actions covers every interleaving. Code that updates state in place is a class whose
methods are proved equal to the functions the machines use; loops are methods with loops.

`HostLifecycleRuns` and `HostConnectionRuns` give the runs, from the start, that show
bounds to be met and conditions to be needed.

What is outside the model enters as a parameter: clock readings, failures of single
file operations (`Fault`), answers of the provider (`Exchange`), contents of files
between two calls (`History`), and the JSON or block parsers of the decoders. SHA-256
is taken to be injective; request fingerprints are proved injective on top of that.

## Results worth knowing

* Every path a request can spell resolves to exactly one place, said by `lstat` and the
  location function alone (`ExistingIsExact`, `WriteTargetIsExact`, `InPlaceTargetIsExact`),
  and without faults each mutation succeeds exactly under a condition on the tree and the
  request, with one possible tree afterwards (`RemovalIsExact`, `WriteIsExact`,
  `DirectoryCreationIsExact`). One case is easy to miss: an in-place write with
  `create_parents` through a dangling link whose target lacks its parent fails, because
  parents are made along the request's own spelling (`CanMakeParents`).
* A request executes exactly if it is valid, rightly fenced or unfenced, and no earlier
  result was kept under its ID, over every run (`ExecutesUnlessKept`, `BeginsExactly`).
* A host that comes to rest after a pause, resume or deletion is what was asked for, unless a
  failure was recorded or something else was asked since (`RequestIsMet`); crashed workers
  are no exception.
* While readings are in order, nobody is refused who has not used up the maximum within the
  last window's length, and trying again costs nothing (`RefusedOnlyWhenUsedUp`,
  `RefusalsLeaveNoTrace`).
* An operation with `expected_generation` begins at most once over every run with
  resends, conflicting reuse, abandoned calls and restarts (`AtMostOnce`); without the
  fence any request begins again after an abandoned call (`UnfencedBeginsAgain`).
* `execution/apps/execution-gateway/README.md`, lines 242 to 244, says leases keep two
  replicas from performing the same lifecycle action concurrently. Workers do not notice
  that a lease is gone, so one expiry is enough for two of them to create a sandbox for
  the same host (`ExpiryLetsASecondWorkerIn`). Exactly four things make room for one more
  worker: an expiry, an accepted request, a resume of an unleased host and a retryable
  failure of an operation (`StepIntrudes`), and each of them alone can put two workers on
  a host. What holds is one more active worker for each (`ActiveIsBounded`), and a bound
  on the sandboxes created (`SandboxCreationsAreBounded`), which is met for all numbers of
  expiries and accepted requests (`CreationBoundIsMet`).
* Completing a snapshot is the one update that can leave a lease on a host for which
  nothing is scheduled (`StepLease`), and a host can come to rest like that
  (`SnapshotLeavesALease`). After an accepted request with no snapshot completing later it
  cannot, whatever came before (`QuietAfterRequest`).
* An operation that passed the gateway's check of the host is sent even if the host is
  deleted in between (`CheckedOperationOutlivesDeletion`); no operation passes the check
  afterwards (`DeletionIsFinal`).
* A response that arrived in time is lost when its connection is replaced between the
  look-up of the connection and the removal of the pending entry, even with a single call
  in the world (`ReplacementLosesAResponse`). A call is let down exactly by the clearing of
  its connection and by a clean-up under its request ID while its entry is there
  (`LetDownExactly`); without these no response is lost (`NoResponseIsLost`).
* Two calls with the same request ID on one connection can break each other: a call fails
  as disconnected on a connection that is current all the time
  (`SharedRequestIdsCollide`), exactly if another call with its ID cleaned up while the
  entry was its own (`ClosedByCollision`).
* The outcome of an event stream depends on how it is cut exactly if a complete block
  after a terminal event is bad (`CutsAgreeExactly`); a bad unfinished block at the end
  does not matter once an event was terminal.
* In one span of a window's length the limiter admits a client up to `2 * maximum - 1`
  times if clock readings are in order, and up to `3 * maximum - 2` times if they are out
  of order by at most that length, which happens because the clock is read before the lock
  is taken. Both bounds are met (`OrderedBoundIsMet`, `BoundIsMet`). One duration is also
  as far as forgetting old windows goes unnoticed (`PruningIsInvisible`, `PruningShows`),
  and the limiter limits at all exactly below two (`LimitsExactly`).

## Model

| member | source | states |
|---|---|---|
| FileTree.LocateIsDirect | execution/packages/execution-supervisor-core/src/path_resolver.rs:243-298 | wherever a path leads, the place has no link and no `..` at any prefix: an existing entry that is no link, or a missing one below directories only |
| FileTree.LocateIsCanonical | execution/packages/execution-supervisor-core/src/path_resolver.rs:246-262 | `realpath` succeeds exactly where the independent location function finds an existing entry, with the same path, and says "missing" where it finds a creatable place |
| PathResolver.ResolveThroughExistingAncestor | execution/packages/execution-supervisor-core/src/path_resolver.rs:212-241 | the climbing loop over missing components computes the recursive specification |
| PathResolver.CreationIsSound | execution/packages/execution-supervisor-core/src/path_resolver.rs:243-298 | on every link graph a returned path is under the root and is what the candidate denotes: the existing entry or the place a create would make |
| PathResolver.CreationIsComplete | execution/packages/execution-supervisor-core/src/path_resolver.rs:243-298 | whatever can be located under the root within 40 links is returned, whatever the mix of links, `..` and missing names |
| PathResolver.CreationIsExact | execution/packages/execution-supervisor-core/src/path_resolver.rs:160-175 | a result is link-free, under the root, and equals the canonical path when there is one; a failure means that the path denotes nothing or something outside |
| PathResolver.AncestorIsSound | execution/packages/execution-supervisor-core/src/path_resolver.rs:212-241 | climbing past missing entries lands where the candidate leads, under the root |
| PathResolver.ResolversAgree | execution/packages/execution-supervisor-core/src/path_resolver.rs:212-298 | the two creation resolvers return the same path whenever both succeed |
| PathResolver.ResolvedIsInside | execution/packages/execution-supervisor-core/src/path_resolver.rs:89-175 | every resolver returns only paths under the canonical root, writable ones for writes, and a link only as the last entry when links are not followed |
| PathResolver.ValidPathsAreCanonical | execution/packages/execution-core/src/filesystem.rs:38-73 | a validated path adds only plain components to its root and spells exactly those, and two different validated strings never name the same candidate |
| ResolutionLaws.ValidPathsArePlainNames | execution/packages/execution-core/src/filesystem.rs:38-73 | a list of names joined by slashes is accepted exactly if it is `.` alone or all names are plain and the first is no drive; it then names just that path below the root it asks for, and otherwise the error is an invalid path or an unknown root |
| ResolutionLaws.LstatOfChild | execution/packages/execution-supervisor-core/src/path_resolver.rs:131-150 | `lstat` finds an entry, link or not, exactly when the parent path leads to a directory holding that name, and reports that very entry |
| ResolutionLaws.ExistingIsExact | execution/packages/execution-supervisor-core/src/path_resolver.rs:89-121 | reading: a followed path resolves to exactly the existing place it leads to, one that is not followed to exactly the entry of its own, be it a link, each exactly when that is inside the root, with the error otherwise |
| ResolutionLaws.AncestorIsExact | execution/packages/execution-supervisor-core/src/path_resolver.rs:212-241 | a missing path resolves exactly when its nearest existing part leads to something under the root, and to that with the missing names put back |
| ResolutionLaws.WriteTargetIsExact | execution/packages/execution-supervisor-core/src/path_resolver.rs:123-158 | changing an entry: without following links, exactly the entry `lstat` finds, if it is strictly below the root; following them, exactly the existing place the path leads to; for a missing one, the place the path denotes, under the condition of `AncestorIsExact`; in a read-only root, nothing |
| ResolutionLaws.InPlaceTargetIsExact | execution/packages/execution-supervisor-core/src/path_resolver.rs:160-210 | in-place writes and directory creations resolve only to the place the path denotes, and do so whenever it can be located under an existing root within 40 links; for directory creation the spelled path is returned |
| PathResolver.New | execution/packages/execution-supervisor-core/src/path_resolver.rs:32-78 | start-up succeeds exactly with at least one root, all usable directories, unique identifiers; each entry holds the canonical directory its path leads to |
| MutationSafety.CreateDirAllKeeps | execution/packages/execution-supervisor-core/src/filesystem.rs:198-204 | making directories along a path, even partly, keeps the tree well formed and adds only directories on the way to where the path leads |
| MutationSafety.WriteAdmits | execution/packages/execution-supervisor-core/src/filesystem.rs:125-196 | a write commits exactly when size, resolution, kind of target and condition allow it, and otherwise fails and changes nothing |
| MutationSafety.WriteKeeps | execution/packages/execution-supervisor-core/src/filesystem.rs:125-253 | a write, refused, failed or done, changes at most one entry, under its writable root, besides adding directories; when it succeeds, that is the resolved target with exactly the requested bytes, its condition held there, and the receipt is right |
| MutationSafety.CreateDirectoryKeeps | execution/packages/execution-supervisor-core/src/filesystem.rs:255-269 | directory creation changes no existing entry and only adds directories on the way to the resolved place; when it succeeds that is a new directory or, recursively, was already there and leads to one |
| MutationSafety.RemoveKeeps | execution/packages/execution-supervisor-core/src/filesystem.rs:271-338 | a successful removal deletes the resolved entry, found in the expected revision, with all below it and nothing else; only a failed recursive one can leave a part removed; nothing changes outside that entry |
| MutationSafety.MutationIsConfined | execution/packages/execution-supervisor-core/src/filesystem.rs:125-338 | every mutation, with each system call that makes its change failing or stopping part way, keeps a well-formed tree, changes each location exactly as its reported effect says, and touches nothing outside the writable root of its request |
| MutationLaws.RemovalIsExact | execution/packages/execution-supervisor-core/src/filesystem.rs:271-338 | without faults a removal succeeds if and only if the resolved entry exists, its revision is the expected one, its kind fits, and it is no directory, or the removal is recursive, or nothing lies strictly below it; then exactly that entry and all below it is gone, and otherwise the tree is unchanged |
| MutationLaws.RemovalRefusals | execution/packages/execution-supervisor-core/src/filesystem.rs:277-322 | which error a refused removal reports, for each of its checks |
| MutationLaws.DirectoryCreationIsExact | execution/packages/execution-supervisor-core/src/filesystem.rs:255-269 | without faults a directory is created if and only if the place is free and its parent exists or is to be made, or, recursively, it is there already or leads to one; the new tree has exactly the directories on the way more, and after a failure the same entries |
| MutationLaws.WriteIsExact | execution/packages/execution-supervisor-core/src/filesystem.rs:125-253 | without faults a write succeeds if and only if it passes every check and its place has a parent directory or is given one: for an atomic write if parents are to be made, for an in-place one if besides that the path itself is no link and its nearest spelled ancestor leads to a directory; then the bytes are there, under directories, with all else as it was; otherwise nothing changed |
| MutationLaws.WriteRefusals | execution/packages/execution-supervisor-core/src/filesystem.rs:125-196 | which error a refused write reports, and in which order its checks are made |
| MutationLaws.FailingWritesAreHonest | execution/packages/execution-supervisor-core/src/filesystem.rs:185-253 | however its system calls fail, a failed write that reports no detail left all contents alone, one that stopped half-way reports a possibly partial effect at the resolved place, and one that could not commit stored nothing |
| MutationLedger.FingerprintsDistinguish | execution/packages/execution-supervisor-core/src/filesystem.rs:680-688 | the encoding, with legacy defaults left out, confuses no two requests, not even of different kinds |
| MutationLedger.SupervisorFileSystem.Write | execution/packages/execution-supervisor-core/src/filesystem.rs:448-503 | the call is the ledger function on the supervisor's state: fence, replay, tombstone, mutation, record |
| MutationLedger.SupervisorFileSystem.CreateDirectory | execution/packages/execution-supervisor-core/src/filesystem.rs:505-533 | the same for directory creation, which has no fence and records successes only |
| MutationLedger.SupervisorFileSystem.Remove | execution/packages/execution-supervisor-core/src/filesystem.rs:535-590 | the same for removals |
| MutationRuns.RecordsAreFinal | execution/packages/execution-supervisor-core/src/filesystem.rs:456-502 | no later call changes a record or the generation |
| MutationRuns.CallExecutesExactly | execution/packages/execution-supervisor-core/src/filesystem.rs:448-590 | a call executes if and only if it is valid, fenced for this supervisor or not at all, and under an ID without a record; outcome, effect and tree are then those of the mutation, and the record is that outcome unless it is an unfenced failure; otherwise nothing changes |
| MutationRuns.ExecutesUnlessKept | execution/packages/execution-supervisor-core/src/filesystem.rs:448-590 | in every run of calls on a fresh ledger each call executes if and only if it is valid, rightly fenced or unfenced, and no earlier call of the run had its result kept under that ID |
| MutationRuns.ResendsAreStable | execution/packages/execution-supervisor-core/src/filesystem.rs:456-589 | after a kept result an identical resend returns it, and any other request under the ID is answered as invalid, as fenced for another generation, or else with a conflict; neither changes a file or the ledger, however many calls came between |
| MutationRuns.TreeFollowsEffects | execution/packages/execution-supervisor-core/src/filesystem.rs:448-590 | after every run each location holds the revision the last effect on it left, and everything outside writable roots is as before the run |
| MutationRuns.NoLostUpdate | execution/packages/execution-supervisor-core/src/filesystem.rs:170-196 | a revision-matched write succeeds only if its revision is that of what the last effect at its place left |
| MutationRuns.OneCreationBetweenRemovals | execution/packages/execution-supervisor-core/src/filesystem.rs:163-169 | successful must-not-exist writes store their bytes, and between two of them to one place lies a removal of it |
| FencedRuns.AtMostOnce | execution/packages/execution-supervisor-core/src/filesystem.rs:448-503 | over every run with resends, reuse, abandoned calls and restarts, an operation fenced for a generation begins at most once |
| FencedRuns.BeginsExactly | execution/packages/execution-supervisor-core/src/filesystem.rs:448-590 | after every run, a request delivered to an idle supervisor begins to execute if and only if it is valid, fenced for that supervisor or not at all, and the log shows no fenced beginning and no success there under its ID; otherwise it is answered at once |
| FencedRuns.AbandonedIsUnknown | execution/packages/execution-supervisor-core/src/filesystem.rs:455-480 | a fenced request abandoned while it ran is answered ever after as lost with an unknown outcome |
| FencedRuns.SuccessIsTheOneExecution | execution/packages/execution-supervisor-core/src/filesystem.rs:535-590 | every success reported for a fenced request is the result with which its one execution ended, in the generation it was fenced for |
| FencedRuns.RecordsOnlyAdvance | execution/packages/execution-supervisor-core/src/filesystem.rs:456-502 | records go from absent to tombstone to final, keep their fingerprint, and final records and tombstones of abandoned calls never change |
| FencedRuns.CallIsDeliverThenFinish | execution/packages/execution-supervisor-core/src/filesystem.rs:448-590 | an uninterrupted call is exactly a delivery followed by the end of its execution: same ledger, same answer |
| FencedRuns.UnfencedBeginsAgain | execution/packages/execution-supervisor-core/src/filesystem.rs:524-532 | every valid unfenced request begins twice when it is resent after an abandoned call |
| WindowedRead.Read | execution/packages/execution-supervisor-core/src/filesystem.rs:356-446 | for any sizes of the chunks read, and with the saturating additions, the result is the window of the whole content, or the right error |
| WindowedRead.Load | platform/packages/tools/edit/src/content.rs:7-124 | paging through a file that others may change ends, and returns only the complete observed content; on an unchanged file it returns that content or the error its size or bytes call for |
| Listing.List | execution/packages/execution-supervisor-core/src/filesystem.rs:592-662 | a page holds the lowest names beyond the cursor, in order, at most the maximum, and a next cursor exactly if more names follow; it fails exactly on its first entry that cannot be resolved |
| Listing.PagesIncrease | execution/packages/execution-supervisor-core/src/filesystem.rs:625-660 | however the directory changes between pages, following cursors lists names in strictly increasing order, so none twice |
| Listing.PresentThroughoutIsListed | execution/packages/execution-supervisor-core/src/filesystem.rs:625-660 | a name present at every page is listed once the cursors are followed to the end |
| Listing.ListedWasPresent | execution/packages/execution-supervisor-core/src/filesystem.rs:613-660 | a listed name was in the directory when its page was made |
| Listing.ListAll | execution/packages/execution-supervisor-core/src/filesystem.rs:592-662 | on an unchanging directory whose entries resolve, following cursors terminates, with full pages before the last, and lists exactly its names in order |
| ProviderErrors.Retry | execution/packages/execution-e2b/src/control.rs:384-401 | the loop returns the first answer that is not a retryable failure, or that of the last allowed attempt |
| ProviderErrors.FailuresAreEither | execution/packages/execution-e2b/src/error.rs:71-106 | which failures may be tried again and which leave the outcome unknown, by response status and connection state: never both, the first only for replayable calls, the second only for others |
| HostRows.HostRecord.RequestHostState | execution/apps/execution-gateway/src/database.rs:568-592 | the whole new row, and whether a row was updated: exactly if it is not deleted |
| HostRows.HostRecord.ResumeHostOnUse | execution/apps/execution-gateway/src/database.rs:594-598 | a paused host with no snapshot in creation is resumed; any other row is unchanged |
| HostRows.HostRecord.ScheduleHostReconcile | execution/apps/execution-gateway/src/database.rs:600-616 | the whole new row; nothing for a deleted host |
| HostRows.HostRecord.ClaimHost | execution/apps/execution-gateway/src/database.rs:618-636 | a lease is taken exactly on a due row without a live lease, and only the lease changes |
| HostRows.HostRecord.AttachProviderHost | execution/apps/execution-gateway/src/database.rs:917-932 | the sandbox is stored only where none is |
| HostRows.HostRecord.CompleteHost | execution/apps/execution-gateway/src/database.rs:934-993 | the whole new row if the desired state is still the worker's, none otherwise |
| HostRows.HostRecord.RecordFailure | execution/apps/execution-gateway/src/database.rs:1001-1018 | the first statement: the whole new row with the back-off of the attempts so far, and whether the desired state still matched |
| HostRows.HostRecord.MarkCreationAmbiguous | execution/apps/execution-gateway/src/database.rs:1019-1026 | the second statement sets the ambiguity flag and nothing else |
| HostRows.HostRecord.FailHost | execution/apps/execution-gateway/src/database.rs:995-1029 | both in turn when nothing comes between them: the flag is set exactly for an ambiguous failure that matched |
| HostRows.HostRecord.PauseAfterSnapshot | execution/apps/execution-gateway/src/database.rs:1273-1286 | the source host becomes paused and wanted so, unless deleted |
| HostRows.HostRecord.MarkRegistered | execution/apps/execution-gateway/src/database.rs:785-837 | a daemon's accepted connection makes a wanted registered host ready, and the end of it unavailable; any other row is unchanged |
| HostRows.HostRecord.DeleteRegisteredHost | execution/apps/execution-gateway/src/database.rs:856-881 | an undeleted registered host becomes deleted and wanted so, and only that is reported |
| HostLifecycle.AlwaysConsistent | execution/apps/execution-gateway/src/database.rs:568-1029 | in every interleaving, stale workers included, the observed state fits the desired one, and a host for which nothing is scheduled is in no transition |
| HostLifecycle.DeletionIsFinal | execution/apps/execution-gateway/src/http.rs:1004-1059 | once `deleted_at` is set it stays set, the host stays unwanted and is never ready, paused or resuming again, and no further operation passes the check before forwarding |
| HostLifecycleRuns.CheckedOperationOutlivesDeletion | execution/apps/execution-gateway/src/http.rs:1052-1102 | an operation that passed the check before is still sent after the deletion |
| HostLifecycle.ClaimsAreBounded | execution/apps/execution-gateway/src/database.rs:618-636 | from any moment on a host is claimed at most once, plus once for each accepted request, resume on use, retryable failure and lease expiry |
| HostLifecycle.WorkIsBounded | execution/apps/execution-gateway/src/lifecycle.rs:69-296 | all steps workers can still take are bounded by a measure that only those causes raise |
| HostLifecycle.StepLease | execution/apps/execution-gateway/src/database.rs:1255-1286 | a lease outlives its schedule exactly when a completed snapshot pauses a leased host |
| HostLifecycleRuns.SnapshotLeavesALease | execution/apps/execution-gateway/src/database.rs:1255-1286 | a run from the start that comes to rest with such a lease |
| HostLifecycle.QuietIsSettled | execution/apps/execution-gateway/src/lifecycle.rs:69-296 | a host with no active worker that can never be claimed is unscheduled and settled where it is wanted, or failed; it holds no lease if none was left behind when the last snapshot had completed |
| HostLifecycle.QuietAfterRequest | execution/apps/execution-gateway/src/lifecycle.rs:69-296 | convergence: whatever came before an accepted request, if no snapshot completes after it a host at rest is unscheduled, holds no lease and has settled or failed |
| HostRequests.DesiredIsLastAsked | execution/apps/execution-gateway/src/http.rs:902-1002 | in every run, on hosts of both kinds, the desired state is what the last accepted pause, resume, deletion, use of a paused host or completed snapshot asks for, and ready before any |
| HostRequests.RequestIsMet | execution/apps/execution-gateway/src/http.rs:902-1002 | convergence to the request: after a pause, resume or deletion of a host that is not deleted, as long as nothing else is asked, paused, ready or deleted is desired, and a host that comes to rest is just that unless a failure was recorded since, crashes or not |
| HostRequests.ScheduledCanArrive | execution/apps/execution-gateway/src/lifecycle.rs:69-296 | a scheduled host, in whatever state and with whatever workers, can be brought to where it is desired by one worker that nothing disturbs, and if desired ready then passes the check for operations |
| HostRequests.FailureIsRetried | execution/apps/execution-gateway/src/database.rs:995-1018 | the back-off is two to the number of failed attempts, at most 32 seconds, and a retryable failure makes the host claimable exactly from then on, any other never |
| HostRequests.FailureShows | execution/apps/execution-gateway/src/lifecycle.rs:262-296 | when the last call of a worker fails, a host that is still wanted as read is lost if its sandbox was not found, else unavailable and scheduled again if that is worth trying, else failed; one that is wanted otherwise by then is left alone |
| HostRequests.FailuresTell | execution/apps/execution-gateway/src/lifecycle.rs:262-296 | in every run a host shown as failed is not to be retried, one to be retried is scheduled, and only one that had a sandbox is shown as lost |
| HostRequests.PassesExactlyWhenReady | execution/apps/execution-gateway/src/http.rs:1004-1059 | in every run an operation passes the check before forwarding exactly when the host is shown as ready |
| HostLifecycle.ActiveIsBounded | execution/apps/execution-gateway/src/database.rs:618-636 | active workers number at most one, plus one for each accepted request, use, failed operation and expiry |
| HostLifecycle.StepIntrudes | execution/apps/execution-gateway/src/database.rs:568-636 | a step makes room for one more worker beside the active ones if and only if the host is not open and the step is an expiry of a scheduled host's lease, an accepted request, a resume of an unleased host, or a retryable failure of an operation |
| HostLifecycleRuns.ExpiryLetsASecondWorkerIn | execution/apps/execution-gateway/src/database.rs:618-636 | one expiry, and nothing else, lets two workers create a sandbox each |
| HostLifecycleRuns.RequestLetsASecondWorkerIn | execution/apps/execution-gateway/src/database.rs:600-636 | one request, and nothing else, puts two active workers on a host |
| HostLifecycleRuns.OutageLetsASecondWorkerIn | execution/apps/execution-gateway/src/database.rs:995-1018 | failed operations, and nothing else, put two active workers on a host |
| HostLifecycleRuns.UseLetsASecondWorkerIn | execution/apps/execution-gateway/src/database.rs:594-598 | uses of a host that snapshots pause, and nothing else, put two active workers on a host |
| HostLifecycle.SandboxCreationsAreBounded | execution/apps/execution-gateway/src/lifecycle.rs:215-296 | the create calls of all workers number at most one, plus accepted explicit requests, plus lease expiries |
| HostLifecycleRuns.CreationBoundIsMet | execution/apps/execution-gateway/src/lifecycle.rs:215-260 | for all numbers of lease expiries and accepted requests some run with just these creates one sandbox more than their sum |
| HostLifecycle.SandboxIsWrittenOnce | execution/apps/execution-gateway/src/database.rs:917-932 | once stored, the sandbox ID never changes |
| SnapshotLifecycle.SnapshotRecord.RequestSnapshotDelete | execution/apps/execution-gateway/src/database.rs:1175-1192 | the whole new row, and whether a row was updated: exactly if it is not deleted |
| SnapshotLifecycle.SnapshotRecord.CompleteSnapshotReady | execution/apps/execution-gateway/src/database.rs:1255-1286 | the whole new row while the snapshot is wanted, and whether the source host is paused with it |
| SnapshotLifecycle.SnapshotRecord.CompleteSnapshotDeleted | execution/apps/execution-gateway/src/database.rs:1288-1300 | the whole new row once the snapshot is no longer wanted, none otherwise |
| SnapshotLifecycle.SnapshotRecord.FailSnapshot | execution/apps/execution-gateway/src/database.rs:1302-1325 | the whole new row, recorded whatever is desired by now |
| SnapshotLifecycle.SnapshotPostsAreBounded | execution/apps/execution-gateway/src/lifecycle.rs:298-412 | snapshot requests to the provider number at most one plus lease expiries |
| SnapshotRequests.AlwaysFits | execution/apps/execution-gateway/src/database.rs:1175-1325 | in every interleaving the observed state fits what is wanted, nothing is in progress without being scheduled, and a snapshot no longer wanted, or deleted, stays so |
| SnapshotRequests.WantedUntilDeleted | execution/apps/execution-gateway/src/database.rs:1175-1192 | a snapshot is wanted exactly until its deletion is first requested |
| SnapshotRequests.RestsWhereWanted | execution/apps/execution-gateway/src/lifecycle.rs:298-412 | where nothing is scheduled and no failure was recorded, a snapshot is deleted if its deletion was requested, and ready otherwise |
| SnapshotRequests.ScheduledCanArrive | execution/apps/execution-gateway/src/lifecycle.rs:298-412 | a scheduled snapshot, in whatever state, can be brought to where it is wanted by one undisturbed worker |
| Idempotency.IdempotencyRows.LockIdempotency | execution/apps/execution-gateway/src/database.rs:1346-1383 | the live record decides; an expired one is dropped |
| Idempotency.IdempotencyRows.Create | execution/apps/execution-gateway/src/database.rs:368-444 | reply, whether to commit, and the rows then committed |
| Idempotency.OneResourcePerLifetime | execution/apps/execution-gateway/src/database.rs:1346-1408 | over every interleaving two resources under one key are a record's lifetime apart, and every committed call got the one made for the same request |
| Idempotency.LiveRecordDecides | execution/apps/execution-gateway/src/database.rs:382-443 | while a record lives, the same request gets its resource and any other a conflict, nothing is inserted, and the state of other rows does not matter |
| Idempotency.OnlyInsertionsChangeRows | execution/apps/execution-gateway/src/database.rs:1042-1112 | rows change only by the commit of a transaction that found no live record, and then by exactly its own resource |
| Idempotency.UnusedKeyCreates | execution/apps/execution-gateway/src/database.rs:1346-1408 | with no live record an admissible call gets a new resource of its own, which then decides about the key for the whole lifetime of its record; one that is not admissible is refused without a trace |
| Idempotency.LockThenEnd | execution/apps/execution-gateway/src/database.rs:368-444 | in every run a transaction that gets the free lock and commits leaves exactly the rows and answer its lookup decided on, and one that rolls back leaves none and a free lock |
| HostConnections.HostConnectionRegistry.InsertCurrent | execution/apps/execution-gateway/src/host_connections.rs:69-73 | under the registry's lock: the new connection becomes the host's current one, with empty maps, and the old one is returned |
| HostConnections.HostConnectionRegistry.RemoveCurrent | execution/apps/execution-gateway/src/host_connections.rs:86-101 | under the registry's lock: the current connection is removed and returned, if there is one and it is the one meant |
| HostConnections.HostConnectionRegistry.FailPending | execution/apps/execution-gateway/src/host_connections.rs:216-221 | under a connection's lock: all its pending entries go, and nothing else |
| HostConnections.HostConnectionRegistry.TakePending | execution/apps/execution-gateway/src/host_connections.rs:196-201 | under a connection's lock: the entry under the request ID is taken, and nothing else |
| HostConnections.HostConnectionRegistry.Register | execution/apps/execution-gateway/src/host_connections.rs:57-83 | insertion, then clearing of the replaced connection, when nothing comes between |
| HostConnections.HostConnectionRegistry.Unregister | execution/apps/execution-gateway/src/host_connections.rs:85-107 | acts exactly if the connection is the host's current one: removal, then clearing |
| HostConnections.HostConnectionRegistry.DisconnectHost | execution/apps/execution-gateway/src/host_connections.rs:116-131 | removal of the current connection, if any, then clearing |
| HostConnections.HostConnectionRegistry.Complete | execution/apps/execution-gateway/src/host_connections.rs:185-207 | the sender taken is that of the entry under the request ID, if the connection is the host's current one |
| HostConnections.ResponsesAreRouted | execution/apps/execution-gateway/src/host_connections.rs:133-207 | a successful call got a response to its own request ID that arrived on the connection its request went out on |
| HostConnections.OutcomesAreFinal | execution/apps/execution-gateway/src/host_connections.rs:133-183 | a call is resolved at most once |
| HostConnections.InFlightIsBounded | execution/apps/execution-gateway/src/host_connections.rs:133-160 | live calls on a connection never exceed the limit, and a connection serves at most one host |
| HostConnections.ConnectionsAreIsolated | execution/apps/execution-gateway/src/host_connections.rs:85-222 | each step of a response's or a connection's end concerns that one connection and its calls; a response looked up, or an end reported, for a connection that is not current does nothing |
| HostConnectionLaws.RetiredIsCleared | execution/apps/execution-gateway/src/host_connections.rs:57-131 | in every run a connection that was ever registered is its host's current one, or about to be cleared, or has been cleared: exactly one of the three |
| HostConnectionLaws.ClearingCloses | execution/apps/execution-gateway/src/host_connections.rs:216-222 | clearing empties the pending entries, and each call with an entry hears that its connection is gone |
| HostConnectionLaws.CurrentIsTheLatest | execution/apps/execution-gateway/src/host_connections.rs:57-131 | a host's current connection changes by a new one, by its own end and by a disconnection, and by nothing else |
| HostConnectionLaws.BusyExactly | execution/apps/execution-gateway/src/host_connections.rs:133-149 | a call is turned away as busy exactly when as many calls as the limit are live on its connection |
| HostConnectionLaws.DuplicateExactly | execution/apps/execution-gateway/src/host_connections.rs:152-162 | it is turned away as a duplicate exactly when another call holds the entry under its request ID, and otherwise has that entry |
| HostConnectionLaws.ReturnedHoldsNothing | execution/apps/execution-gateway/src/host_connections.rs:160-183 | a call that has returned holds neither permit nor entry |
| HostConnectionLosses.StepCloses | execution/apps/execution-gateway/src/host_connections.rs:160-222 | the sender of a call that has heard nothing is dropped if and only if a step clears its connection, or cleans up under its request ID, while the entry is its own |
| HostConnectionLosses.LetDownExactly | execution/apps/execution-gateway/src/host_connections.rs:133-222 | over every run a call's sender has been dropped if and only if the run has such a step |
| HostConnectionLosses.ClosedByCollision | execution/apps/execution-gateway/src/host_connections.rs:160-215 | while its connection is current, a live call has been let down if and only if another call with its connection and request ID cleaned up while the entry was this call's |
| HostConnectionLosses.NoResponseIsLost | execution/apps/execution-gateway/src/host_connections.rs:160-207 | unless such a step, other than the call's own clean-up, comes between look-up and take, a response found for a waiting call leads to an answer, whatever else happens, or the call timed out or was dropped |
| HostConnectionLosses.CurrentResponseIsReturned | execution/apps/execution-gateway/src/host_connections.rs:160-207 | so it does if the connection is still current at the take and no other call on it shares the request ID |
| HostConnectionRuns.ReplacementLosesAResponse | execution/apps/execution-gateway/src/host_connections.rs:57-207 | a run with a single call whose response arrived in time and is lost to a replacement between look-up and take |
| HostConnectionRuns.SharedRequestIdsCollide | execution/apps/execution-gateway/src/host_connections.rs:160-215 | a run, for every limit of at least two, in which a call fails as disconnected on a connection that is current all the time |
| SseStream.BoundaryIsFirst | llm/packages/provider-chatgpt/src/response.rs:179-193 | the boundary is the earliest LF LF or CR LF CR LF, and none is found exactly if there is none |
| SseStream.BoundaryIsStable | llm/packages/provider-chatgpt/src/response.rs:179-193 | a boundary found in a prefix is never overtaken by a delimiter that begins earlier and ends later |
| SseStream.BlocksAppend | llm/packages/provider-chatgpt/src/response.rs:123-142 | splitting a prefix, then its rest with more bytes, splits the whole |
| SseStream.BlocksAreTheSplit | llm/packages/provider-chatgpt/src/response.rs:123-193 | no block and nothing that is left holds a blank line, and with delimiters put back they are the stream |
| SseStream.UntilIsAPrefix | llm/packages/provider-chatgpt/src/client.rs:139-167 | what is kept of the events is a prefix that ends with the first terminal one, or all of them |
| SseStream.OversizeIsRefused | llm/packages/provider-chatgpt/src/client.rs:139-167 | a stream over the limit is refused, however it is cut, unless it ends in time or a block of it is bad |
| SseStream.DrainEvents | llm/packages/provider-chatgpt/src/response.rs:123-142 | the draining loop returns the events of exactly the complete blocks, and of the last one at the end, and leaves the rest |
| SseStream.Complete | llm/packages/provider-chatgpt/src/client.rs:139-167 | the client's loop over network chunks computes the chunk-by-chunk specification |
| SseStream.ChunkingIsIrrelevant | llm/packages/provider-chatgpt/src/client.rs:139-167 | within the size limit, and unless a complete block after a terminal event is bad, every cut gives the outcome of splitting in one go: the events up to the first terminal one, or an error for a bad block before it |
| SseStream.CompleteIsOneShot | llm/packages/provider-chatgpt/src/client.rs:139-167 | the same for the client's own boundaries, from an empty buffer |
| SseStream.BadBlockAfterTheEnd | llm/packages/provider-chatgpt/src/client.rs:139-167 | a bad complete block after a terminal event is an error in one chunk, and none with a cut that the lemma finds |
| SseStream.CutsAgreeExactly | llm/packages/provider-chatgpt/src/client.rs:139-167 | all cuts of a stream within the limit have the same outcome if and only if its complete blocks all parse or no terminal event comes before the first bad one |
| ConnectStream.ConnectDecoder.Next | execution/packages/execution-e2b/src/envd.rs:444-522 | one poll yields the first of the items still due and leaves exactly the others |
| ConnectStream.DecodingIsOneShot | execution/packages/execution-e2b/src/envd.rs:444-522 | every cut of a stream decodes to the items of its frames, then one error if the transport failed or a frame is incomplete |
| ConnectStream.DecodingStopsAtEnd | execution/packages/execution-e2b/src/envd.rs:481-494 | an end-of-stream message stops decoding: at least all frames through it, none but those buffered with it, and no error for a tail |
| ConnectStream.RoundTrip | execution/packages/execution-e2b/src/envd.rs:265-271 | any payloads, enveloped, concatenated and cut anywhere, decode to the same list; an incomplete tail adds exactly one error |
| ConnectStream.FlagsDecide | execution/packages/execution-e2b/src/envd.rs:455-500 | the flag byte of a frame on the wire, for all its 256 values: the lowest bit is an error of that frame, without it the next bit ends the stream and nothing sent later is decoded, and no other bit matters |
| ConnectStream.LengthBytes | execution/packages/execution-e2b/src/envd.rs:265-271 | the length is written most significant byte first |
| ConnectStream.RunProcess | execution/packages/execution-e2b/src/envd.rs:143-199 | the event loop computes the recursive specification, with its errors, for any failure of the standard input at any start event |
| ConnectStream.RunCollects | execution/packages/execution-e2b/src/envd.rs:143-199 | the result is the last process ID, the exit code and the concatenation of each stream up to the exit, or the error for too much output or no process |
| ConnectStream.RunFails | execution/packages/execution-e2b/src/envd.rs:143-199 | without an exit the run fails with the first error of the stream, with the failure to send the input to the process that started, or at the end for want of a process or of an exit |
| ConnectStream.ItemsBegin | execution/packages/execution-e2b/src/envd.rs:444-522 | whatever bytes follow enveloped payloads, however cut and however the transport ends, decoding begins with those payloads |
| ConnectStream.ProcessIsCollected | execution/packages/execution-e2b/src/envd.rs:143-522 | from the bytes on the wire to that result, however they are cut, whatever follows the exit message (an end-of-stream message, frames, half a frame), and whether or not the transport fails then |
| Ndjson.LinesAreTheSplit | execution/packages/execution-wire/src/codec.rs:115-161 | the lines hold no newline, and with newlines put back are the stream |
| Ndjson.SessionServesLines | execution/packages/execution-wire/src/codec.rs:87-161 | repeated reads give the lines in order, each stripped of one CR, up to the first that is blank, oversized or no valid request, or the end |
| Ndjson.ReadFrame | execution/packages/execution-wire/src/codec.rs:115-161 | for every chunking one read judges the first pending line and consumes exactly it, or, if it is over the limit, no more than it |
| Ndjson.JudgedExactly | execution/packages/execution-wire/src/codec.rs:115-161 | the limit applies to the line as sent, one CR at its end is no part of the frame, and a frame is not empty |
| Ndjson.HandleConnection | execution/apps/execution-supervisor/src/server.rs:107-140 | the connection loop reads the session of the whole stream, however it is cut |
| Ndjson.Writer.WriteFrame | execution/packages/execution-wire/src/codec.rs:98-113 | a frame within the limit is written as one line, any other is refused without a byte written |
| Ndjson.ReadsBackExactly | execution/packages/execution-wire/src/codec.rs:98-161 | a written frame is read back as itself if and only if it is not empty, holds no newline and does not end in CR |
| Ndjson.ObjectsRoundTrip | execution/packages/execution-wire/src/codec.rs:98-161 | any list of JSON objects in compact form (RFC 8259, section 7 for strings, section 6 for numbers) that are within the limit and valid requests reads back as written and then ends, however cut |
| Limiter.FixedWindowLimiter.Allow | execution/apps/execution-gateway/src/security.rs:75-98 | decision and new windows, pruning included |
| Limiter.PruningIsInvisible | execution/apps/execution-gateway/src/security.rs:75-98 | forgetting windows changes no decision while clock readings are out of order by at most one duration |
| Limiter.AdmissionsAreBounded | execution/apps/execution-gateway/src/security.rs:75-98 | in any half-open span of one duration a client is admitted at most `3 * maximum - 2` times while clock readings are out of order by at most one duration |
| Limiter.OrderedAdmissionsAreBounded | execution/apps/execution-gateway/src/security.rs:75-98 | at most `2 * maximum - 1` times while clock readings are in order |
| Limiter.BoundIsMet | execution/apps/execution-gateway/src/security.rs:75-98 | for every limiter some run with readings out of order by at most one duration reaches `3 * maximum - 2` |
| Limiter.OrderedBoundIsMet | execution/apps/execution-gateway/src/security.rs:75-98 | for every limiter some run with readings in order reaches `2 * maximum - 1` |
| LimiterFairness.RefusedOnlyWhenUsedUp | execution/apps/execution-gateway/src/security.rs:75-98 | with clock readings in order a client is refused only if the maximum number of its own calls was admitted within the last duration |
| LimiterFairness.RefusalsLeaveNoTrace | execution/apps/execution-gateway/src/security.rs:75-98 | leaving a refused call out of a run changes no other decision |
| LimiterFairness.ClientsAreIndependent | execution/apps/execution-gateway/src/security.rs:75-98 | what is decided about a client's calls is what would be decided if no one else called |
| LimiterDisorder.DisorderedAdmissionsAreBounded | execution/apps/execution-gateway/src/security.rs:75-98 | with readings out of order by less than two durations the pruning limiter has a bound: the maximum, once for each window that can start near the span |
| LimiterDisorder.UnorderedReadingsAreUnbounded | execution/apps/execution-gateway/src/security.rs:75-98 | with readings out of order by two durations a client is admitted to one span any number of times, because its window is forgotten over and over |
| LimiterDisorder.LimitsExactly | execution/apps/execution-gateway/src/security.rs:75-98 | some number bounds the admissions to every span of every run if and only if readings are out of order by less than two durations |
| LimiterDisorder.PruningShows | execution/apps/execution-gateway/src/security.rs:75-98 | with readings out of order by one duration and a tick, forgetting a window changes a decision |

## Left out

File system

* Other processes changing the tree while one supervisor call runs: a call sees and
  changes one tree. Between calls of `Load` and between listing pages any change is modelled.
* Permissions, hard links, special files, time stamps, `fsync` and leftover temporary
  files. A failed in-place write may leave any contents.
* Names that are not UTF-8, and directory entries whose names are no valid path
  component. How a listed entry is resolved: whether that succeeds is a parameter.
* Link targets are lists of components; a trailing slash or `.` in a target is not kept.
* Cancellation checkpoints inside a call that runs to its end; abandoned calls are
  modelled in `FencedRuns`.
* An abandoned call's effect on the files, which may land later: `FencedRuns` counts
  executions begun, `MutationRuns` follows the tree of runs without abandoned calls.
* `call_with_retry` appears as repeated deliveries of the same request.

Gateway

* The JSON and SQL libraries, transactions of single guarded updates, lease owners,
  status texts and descriptors, which no decision reads back.
* A statement that fails in the database counts as not applied.
* Between a call's last step in the router and the release of its permit nothing is
  interleaved; later releases could only make other calls fail as busy.
* Agreement between the in-memory registry and the row of a registered host; the two
  are updated one after the other.
* `release_host` and `release_snapshot`: nothing calls them on the modelled paths.
* `mark_registered_unavailable` and `mark_registered_hosts_unavailable` make the update of
  a disconnection under a further guard on the observed state.
* Accounts, credentials, HTTP and WebSocket transport, authentication, tracing.
* Timers: a call's time-out and the clock are actions that may happen at any time.

Decoders and clients

* Parsing of events, error objects and blocks: parameters, so every parser is covered.
* `start_detached`, unary calls to the sandbox daemon and its process list.
* Conversion of provider responses into messages, token refresh, model catalogues, cost.
* The per-byte line reader of the read tool; its paging loop is like the edit tool's.
* The process runtime of the supervisor, its sessions and output cursors.

Contracts stated weaker than they might be

- ResolutionLaws.InPlaceTargetIsExact: a path that leads inside the root through more than
  40 links in all may resolve or not, since the source counts links of its own and the kernel's
  separately; that case is left to `PathResolver.CreationIsSound`.
- MutationLaws.RemovalIsExact: speaks of removals without faults; with them
  `MutationSafety.RemoveKeeps` bounds what can be gone. The same holds for
  `WriteIsExact` and `DirectoryCreationIsExact`.
- LimiterFairness.RefusedOnlyWhenUsedUp: readings in order only; with a late reading a window can
  begin after it, so a call may be refused for admissions with later readings.
- HostLifecycle.QuietAfterRequest: a snapshot that completes after the request may leave a
  lease behind, because that update does not clear it; `SnapshotLeavesALease` is such a run.
- SseStream.CutsAgreeExactly: streams over the size limit end with an error at the chunk
  that exceeds it, unless a terminal event came first, and so depend on the cut.
- LimiterDisorder.DisorderedAdmissionsAreBounded: its bound is not the least one; for a
  disorder of one duration `Limiter.AdmissionsAreBounded` has the least, for none
  `Limiter.OrderedAdmissionsAreBounded`.
- HostConnectionLosses.NoResponseIsLost: a call that times out or is dropped before its answer
  is delivered does not return it; what is promised is that nothing else lets it down.
