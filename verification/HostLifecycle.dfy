/**
 One host under every interleaving of user requests, reconciling workers (stale
 ones included), forwarded operations, snapshots, and the passing of time.
 */
module HostLifecycle {
  import opened Wrappers
  import P = ProviderErrors
  import opened HostRows

  // A reconciling worker, between two of its database or provider calls.
  datatype Worker =
    | Claimed                                            // has the lease, has not read the row
    | Creating(desired: Desired)                         // read a row without a sandbox
    | Attaching(desired: Desired, id: string)            // its create call succeeded
    | Settling(desired: Desired, sandbox: Option<string>)
    | Failing(expected: Option<Desired>, hadSandbox: bool, error: P.ProviderError)
    | Done

  // Ghost totals over the run.
  datatype Tally = Tally(
    claims: nat, creates: nat, requests: nat, uses: nat, retryableFailures: nat,
    operationFailures: nat, expiries: nat, work: nat)

  // A snapshot of this host: still wanted, still being created.
  datatype Snapshot = Snapshot(wanted: bool, creating: bool)

  // `checked` operations have passed the last check of the row but are not sent yet;
  // `operations` are with the provider; `marks` failures have their second statement
  // still to come. No decision reads what that statement sets, so it is not part of
  // the worker's own progress.
  datatype World = World(
    now: nat, row: HostRow, workers: seq<Worker>, checked: nat, operations: nat, marks: nat,
    snapshots: seq<Snapshot>, tally: Tally)

  datatype Request = Pause | Resume | Refresh | Delete

  datatype Action =
    | Tick(seconds: nat)
    | UserRequest(request: Request)
    | UseWhilePaused                              // resume_host_on_use
    | Check                                       // execute_operation passes its last check ...
    | Forward                                     // ... and sends the operation
    | OperationSucceeds                           // its descriptor is recorded
    | OperationFails(error: P.ProviderError)
    | ClaimHost
    | ReadWork(worker: nat)                       // e2b_host_work, account and key in order
    | CreateSandbox(worker: nat, exchange: P.Exchange)
    | Attach(worker: nat)
    | Finish(worker: nat)                         // complete_host_ready, _paused or _deleted
    | Abort(worker: nat, error: P.ProviderError)  // any other failure of the worker's next call
    | Report(worker: nat)                         // record_host_error, fail_host
    | MarkCreation                                // the second statement of fail_host
    | MarkLost                                    // ... or it is never run
    | Crash(worker: nat)
    | CreateSnapshot
    | SnapshotReady(snapshot: nat)                // complete_snapshot_ready
    | SnapshotEnds(snapshot: nat, wanted: bool)   // it failed, or its deletion was requested
    | DaemonConnects
    | DaemonDisconnects

  function Start(kind: Kind, now: nat): World {
    World(now, Created(kind, now), [], 0, 0, 0, [], Tally(0, 0, 0, 0, 0, 0, 0, 0))
  }

  // What execute_operation requires of the row it has just read.
  predicate PassesCheck(row: HostRow) {
    && row.deletedAt.None?
    && row.observed == Ready && row.desired == WantReady
    && (row.kind == E2b ==> row.sandbox.Some?)
  }

  predicate SnapshotCreating(snapshots: seq<Snapshot>) {
    exists i :: 0 <= i < |snapshots| && snapshots[i].wanted && snapshots[i].creating
  }

  // The error a worker's next call may fail with, by what it has done so far.
  predicate MayFail(worker: Worker, error: P.ProviderError) {
    match worker
    case Claimed => error == P.ConfigurationError() // no such account
    case Creating(_) => error == P.ConfigurationError() // bad account, key or source
    case Attaching(_, _) => error == P.ConfigurationError() // the update failed
    case Settling(desired, sandbox) =>
      desired == WantDeleted && sandbox.None? ==> error == P.ConfigurationError()
    case Failing(_, _, _) => false
    case Done => false
  }

  function Failure(worker: Worker, error: P.ProviderError): Worker {
    match worker
    case Creating(desired) => Failing(Some(desired), false, error)
    case Attaching(desired, _) => Failing(Some(desired), false, error)
    case Settling(desired, sandbox) => Failing(Some(desired), sandbox.Some?, error)
    case _ => Failing(None, false, error)
  }

  // record_host_error's choice of state.
  function FailedState(hadSandbox: bool, error: P.ProviderError): Observed {
    if error.kind == P.NotFound && hadSandbox then Lost
    else if error.retryable then Unavailable
    else Failed
  }

  function Loaded(row: HostRow): Worker {
    if row.desired != WantDeleted && row.sandbox.None? then Creating(row.desired)
    else Settling(row.desired, row.sandbox)
  }

  function Expires(row: HostRow, now: nat, later: nat): bool {
    row.leaseUntil.Some? && now <= row.leaseUntil.value < later
  }

  // The worker takes one step of its own.
  function Advance(w: World, i: nat, next: Worker): World
    requires i < |w.workers|
  {
    w.(workers := w.workers[i := next], tally := w.tally.(work := w.tally.work + 1))
  }

  function RecordFailure(
    w: World, expected: Option<Desired>, observed: Observed, error: P.ProviderError): World
  {
    var row := Fail(w.row, expected, observed, error.retryable, w.now);
    w.(row := row,
       marks := if error.ambiguous && Matches(w.row, expected) then w.marks + 1 else w.marks,
       tally := if error.retryable && row != w.row
                then w.tally.(retryableFailures := w.tally.retryableFailures + 1) else w.tally)
  }

  // A disabled action changes nothing.
  function Step(w: World, action: Action): World {
    match action
    case Tick(seconds) =>
      w.(now := w.now + seconds,
         tally := if Expires(w.row, w.now, w.now + seconds)
                  then w.tally.(expiries := w.tally.expiries + 1) else w.tally)
    case UserRequest(request) =>
      // Only requests that change the row are counted.
      var row := Requested(w.row, request, w.now);
      w.(row := row, tally := if row != w.row then w.tally.(requests := w.tally.requests + 1) else w.tally)
    case UseWhilePaused =>
      var row := ResumeOnUse(w.row, SnapshotCreating(w.snapshots), w.now);
      w.(row := row, tally := if row != w.row then w.tally.(uses := w.tally.uses + 1) else w.tally)
    case Check =>
      if PassesCheck(w.row) then w.(checked := w.checked + 1) else w
    case Forward =>
      if w.checked == 0 then w else w.(checked := w.checked - 1, operations := w.operations + 1)
    case OperationSucceeds =>
      if w.operations == 0 || w.row.kind != E2b then w
      else w.(row := Complete(w.row, WantReady, w.now), operations := w.operations - 1)
    case OperationFails(error) =>
      if w.operations == 0 || w.row.kind != E2b then w
      else
        var observed := if error.kind == P.NotFound then Lost else Unavailable;
        var after := RecordFailure(
          w.(operations := w.operations - 1), Some(WantReady), observed, error.(ambiguous := false));
        after.(tally := after.tally.(operationFailures := after.tally.operationFailures + 1))
    case ClaimHost =>
      if !Claimable(w.row, w.now) then w
      else
        w.(row := Claim(w.row, w.now), workers := w.workers + [Claimed],
           tally := w.tally.(claims := w.tally.claims + 1, work := w.tally.work + 1))
    case ReadWork(i) =>
      if i >= |w.workers| || w.workers[i] != Claimed then w
      else Advance(w, i, Loaded(w.row))
    case CreateSandbox(i, exchange) =>
      if i >= |w.workers| || !w.workers[i].Creating? then w
      else
        var desired := w.workers[i].desired;
        var next := match P.PostOnce(exchange)
          case Success(id) => Attaching(desired, id)
          case Failure(error) => Failing(Some(desired), false, error);
        var after := Advance(w, i, next);
        after.(tally := after.tally.(creates := after.tally.creates + 1))
    case Attach(i) =>
      if i >= |w.workers| || !w.workers[i].Attaching? then w
      else
        var worker := w.workers[i];
        Advance(w, i, Settling(worker.desired, Some(worker.id))).(row := AttachSandbox(w.row, worker.id))
    case Finish(i) =>
      if i >= |w.workers| || !w.workers[i].Settling? then w
      else Advance(w, i, Done).(row := Complete(w.row, w.workers[i].desired, w.now))
    case Abort(i, error) =>
      if i >= |w.workers| || !MayFail(w.workers[i], error) then w
      else Advance(w, i, Failure(w.workers[i], error))
    case Report(i) =>
      if i >= |w.workers| || !w.workers[i].Failing? then w
      else
        var worker := w.workers[i];
        RecordFailure(Advance(w, i, Done), worker.expected, FailedState(worker.hadSandbox, worker.error), worker.error)
    case MarkCreation =>
      if w.marks == 0 then w else w.(row := MarkAmbiguous(w.row), marks := w.marks - 1)
    case MarkLost =>
      if w.marks == 0 then w else w.(marks := w.marks - 1)
    case Crash(i) =>
      if i >= |w.workers| || w.workers[i].Done? then w
      else Advance(w, i, Done)
    case CreateSnapshot =>
      if w.row.kind == E2b && w.row.desired == WantReady && w.row.observed == Ready && w.row.deletedAt.None?
      then w.(snapshots := w.snapshots + [Snapshot(true, true)])
      else w
    case SnapshotReady(i) =>
      if i >= |w.snapshots| || !w.snapshots[i].wanted then w
      else w.(row := PausedBySnapshot(w.row), snapshots := w.snapshots[i := Snapshot(true, false)])
    case SnapshotEnds(i, wanted) =>
      if i >= |w.snapshots| then w
      else w.(snapshots := w.snapshots[i := Snapshot(w.snapshots[i].wanted && wanted, false)])
    case DaemonConnects => w.(row := RegisteredConnected(w.row))
    case DaemonDisconnects => w.(row := RegisteredUnavailable(w.row))
  }

  // The request handlers: pause and resume are refused for registered hosts, a
  // refresh schedules nothing for them, and a deleted host is not deleted again.
  function Requested(row: HostRow, request: Request, now: nat): HostRow {
    match request
    case Pause => if row.kind == E2b then RequestState(row, WantPaused, Pausing, now) else row
    case Resume => if row.kind == E2b then RequestState(row, WantReady, Resuming, now) else row
    case Refresh => if row.kind == E2b then ScheduleReconcile(row, now) else row
    case Delete =>
      if row.observed == Deleted then row
      else if row.kind == E2b then RequestState(row, WantDeleted, Deleting, now)
      else DeleteRegistered(row, now)
  }

  function Run(w: World, actions: seq<Action>): World {
    if actions == [] then w
    else Step(Run(w, actions[..|actions| - 1]), actions[|actions| - 1])
  }

  lemma {:induction false} RunAppend(w: World, first: seq<Action>, second: seq<Action>)
    ensures Run(w, first + second) == Run(Run(w, first), second)
    decreases |second|
  {
    if second == [] {
      assert first + second == first;
    } else {
      var n := |second| - 1;
      var whole := first + second;
      assert whole[..|whole| - 1] == first + second[..n] && whole[|whole| - 1] == second[n];
      RunAppend(w, first, second[..n]);
      RunLast(w, whole);
      RunLast(Run(w, first), second);
    }
  }

  lemma RunLast(w: World, actions: seq<Action>)
    requires actions != []
    ensures Run(w, actions) == Step(Run(w, actions[..|actions| - 1]), actions[|actions| - 1])
  {}

  // ---------- desired and observed states agree ----------

  // Neither provisioning nor on the way to a desired state.
  predicate AtRest(observed: Observed) {
    || observed.Ready? || observed.Paused? || observed.Deleted?
    || observed.Unavailable? || observed.Failed? || observed.Lost?
  }

  predicate Consistent(row: HostRow) {
    && (row.observed.Provisioning? || row.observed.Ready? || row.observed.Resuming? ==> row.desired == WantReady)
    && (row.observed.Pausing? || row.observed.Paused? ==> row.desired == WantPaused)
    && (row.observed.Deleting? || row.observed.Deleted? ==> row.desired == WantDeleted)
    && (row.deletedAt.Some? ==> row.desired == WantDeleted)
    // Nothing scheduled means nothing in progress.
    && (row.kind == E2b && row.reconcileAfter.None? ==> AtRest(row.observed))
  }

  lemma StepConsistent(w: World, action: Action)
    requires Consistent(w.row)
    ensures Consistent(Step(w, action).row)
    ensures w.row.deletedAt.Some? ==> Step(w, action).row.deletedAt.Some?
  {}

  /** In every interleaving the observed state fits the desired one, and a host for
      which nothing is scheduled has settled or failed. */
  lemma {:induction false} AlwaysConsistent(kind: Kind, now: nat, actions: seq<Action>)
    ensures Consistent(Run(Start(kind, now), actions).row)
    decreases |actions|
  {
    if actions != [] {
      var n := |actions| - 1;
      AlwaysConsistent(kind, now, actions[..n]);
      StepConsistent(Run(Start(kind, now), actions[..n]), actions[n]);
    }
  }

  /** Deletion is final: once deleted_at is set, whatever happens, it stays set, the
      host stays unwanted, is never ready, paused or resuming again, and no further
      operation passes the check: only those that had passed it before are sent. */
  lemma {:induction false} DeletionIsFinal(w: World, actions: seq<Action>)
    requires Consistent(w.row) && w.row.deletedAt.Some?
    ensures var row := Run(w, actions).row;
      && Consistent(row)
      && row.deletedAt.Some? && row.desired == WantDeleted
      && !row.observed.Provisioning? && !row.observed.Ready? && !row.observed.Resuming?
      && !row.observed.Pausing? && !row.observed.Paused?
      && !PassesCheck(row)
    ensures Run(w, actions).checked <= w.checked
    ensures Run(w, actions).operations + Run(w, actions).checked <= w.operations + w.checked
    decreases |actions|
  {
    if actions != [] {
      var n := |actions| - 1;
      DeletionIsFinal(w, actions[..n]);
      RunLast(w, actions);
      StepDeleted(Run(w, actions[..n]), actions[n]);
    }
  }

  lemma StepDeleted(w: World, action: Action)
    requires Consistent(w.row) && w.row.deletedAt.Some?
    ensures var next := Step(w, action);
      && Consistent(next.row) && next.row.deletedAt.Some?
      && next.checked <= w.checked
      && next.operations + next.checked <= w.operations + w.checked
  {
    StepConsistent(w, action);
  }

  // ---------- counting claims and work ----------

  // Could the host be claimed once its reconcile time has come?
  function Open(w: World): nat {
    if w.row.kind == E2b && w.row.reconcileAfter.Some?
       && (w.row.leaseUntil.None? || w.row.leaseUntil.value < w.now) then 1 else 0
  }

  // What gives the workers something to do.
  function Causes(tally: Tally): nat {
    tally.requests + tally.uses + tally.retryableFailures + tally.expiries
  }

  lemma StepClaims(w: World, action: Action)
    ensures var next := Step(w, action);
      next.tally.claims + Open(next) + Causes(w.tally) <= w.tally.claims + Open(w) + Causes(next.tally)
  {}

  /** From any moment on, a host is claimed at most once, and once more for every
      request, resume on use, retryable failure and lease expiry. */
  lemma {:induction false} ClaimsAreBounded(w: World, actions: seq<Action>)
    ensures var last := Run(w, actions);
      last.tally.claims - w.tally.claims + Open(last) <= Open(w) + Causes(last.tally) - Causes(w.tally)
    decreases |actions|
  {
    if actions != [] {
      var n := |actions| - 1;
      ClaimsAreBounded(w, actions[..n]);
      StepClaims(Run(w, actions[..n]), actions[n]);
    }
  }

  // Ways of counting workers.
  datatype Weight =
    | Steps                 // steps a worker can still take
    | Active                // workers that are not done
    | Creators(known: bool) // workers that may still create a sandbox

  function WeightOf(weight: Weight, worker: Worker): nat {
    match weight
    case Steps =>
      (match worker
       case Claimed => 5
       case Creating(_) => 4
       case Attaching(_, _) => 3
       case Settling(_, _) => 2
       case Failing(_, _, _) => 1
       case Done => 0)
    case Active => if worker.Done? then 0 else 1
    case Creators(known) => if worker.Creating? || (worker.Claimed? && !known) then 1 else 0
  }

  function Total(workers: seq<Worker>, weight: Weight): nat {
    if workers == [] then 0
    else Total(workers[..|workers| - 1], weight) + WeightOf(weight, workers[|workers| - 1])
  }

  lemma {:induction false} TotalUpdate(workers: seq<Worker>, weight: Weight, i: nat, next: Worker)
    requires i < |workers|
    ensures Total(workers[i := next], weight) + WeightOf(weight, workers[i])
         == Total(workers, weight) + WeightOf(weight, next)
  {
    var n := |workers| - 1;
    if i == n {
      assert workers[i := next][..n] == workers[..n];
    } else {
      TotalUpdate(workers[..n], weight, i, next);
      assert workers[i := next][..n] == workers[..n][i := next];
    }
  }

  lemma TotalAppend(workers: seq<Worker>, weight: Weight, next: Worker)
    ensures Total(workers + [next], weight) == Total(workers, weight) + WeightOf(weight, next)
  {
    assert (workers + [next])[..|workers|] == workers;
  }

  // The steps of a worker that is already there.
  predicate ByWorker(action: Action) {
    || action.ReadWork? || action.CreateSandbox? || action.Attach? || action.Finish?
    || action.Abort? || action.Report? || action.Crash?
  }

  // They change the total of any weight by what they change that worker's.
  lemma WorkerStepTotal(w: World, action: Action, weight: Weight)
    requires ByWorker(action)
    ensures var next := Step(w, action);
      || next == w
      || (var i := action.worker;
          && i < |w.workers| && next.workers == w.workers[i := next.workers[i]]
          && Total(next.workers, weight) + WeightOf(weight, w.workers[i])
             == Total(w.workers, weight) + WeightOf(weight, next.workers[i]))
  {
    var next := Step(w, action);
    if next != w {
      var i := action.worker;
      assert next.workers == w.workers[i := next.workers[i]];
      TotalUpdate(w.workers, weight, i, next.workers[i]);
    }
  }

  // All others add a worker at most, by claiming the host.
  lemma OtherStepTotal(w: World, action: Action, weight: Weight)
    requires !ByWorker(action)
    ensures var next := Step(w, action);
      && next.workers == (if action.ClaimHost? && Claimable(w.row, w.now) then w.workers + [Claimed] else w.workers)
      && Total(next.workers, weight) == Total(w.workers, weight)
         + if next.workers == w.workers then 0 else WeightOf(weight, Claimed)
  {
    TotalAppend(w.workers, weight, Claimed);
  }

  // Everything the workers can still do without a new cause.
  function Pending(w: World): nat {
    Total(w.workers, Steps) + 6 * Open(w)
  }

  // A worker's step uses up at least one of its remaining steps.
  lemma StepWork(w: World, action: Action)
    ensures var next := Step(w, action);
      next.tally.work + Total(next.workers, Steps) + 6 * w.tally.claims
      <= w.tally.work + Total(w.workers, Steps) + 6 * next.tally.claims
  {
    if ByWorker(action) {
      WorkerStepWork(w, action);
    } else {
      OtherStepTotal(w, action, Steps);
    }
  }

  lemma WorkerStepWork(w: World, action: Action)
    requires ByWorker(action)
    ensures var next := Step(w, action);
      && next.tally.claims == w.tally.claims
      && next.tally.work + Total(next.workers, Steps) <= w.tally.work + Total(w.workers, Steps)
  {
    WorkerStepTotal(w, action, Steps);
  }

  /** Convergence: the claims and worker steps a host can still see are bounded by a
      measure that only requests, uses, retryable failures and expiries raise. */
  lemma {:induction false} WorkIsBounded(w: World, actions: seq<Action>)
    ensures var last := Run(w, actions);
      last.tally.work - w.tally.work + Pending(last)
      <= Pending(w) + 6 * (Causes(last.tally) - Causes(w.tally))
    decreases |actions|
  {
    if actions != [] {
      var n := |actions| - 1;
      WorkIsBounded(w, actions[..n]);
      StepWork(Run(w, actions[..n]), actions[n]);
      StepClaims(Run(w, actions[..n]), actions[n]);
    }
  }

  // Nothing is running and, however long one waits, nothing can be claimed.
  ghost predicate Quiet(w: World) {
    && Total(w.workers, Active) == 0
    && forall seconds: nat :: Open(Step(w, Tick(seconds))) == 0
  }

  // A lease is held only while the host is scheduled.
  predicate LeaseScheduled(row: HostRow) {
    row.reconcileAfter.None? ==> row.leaseUntil.None?
  }

  /** The one statement that can leave a lease behind on an unscheduled host is the
      completion of a snapshot. */
  lemma StepLease(w: World, action: Action)
    requires LeaseScheduled(w.row)
    ensures LeaseScheduled(Step(w, action).row) <==>
      !(action.SnapshotReady? && Step(w, action).row != w.row && w.row.leaseUntil.Some?)
  {}

  lemma {:induction false} LeaseStaysScheduled(w: World, actions: seq<Action>)
    requires LeaseScheduled(w.row) && forall action | action in actions :: !action.SnapshotReady?
    ensures LeaseScheduled(Run(w, actions).row)
    decreases |actions|
  {
    if actions != [] {
      var n := |actions| - 1;
      LeaseStaysScheduled(w, actions[..n]);
      StepLease(Run(w, actions[..n]), actions[n]);
    }
  }

  // A scheduled host becomes claimable once its lease has run out.
  lemma ScheduledReopens(w: World) returns (seconds: nat)
    requires w.row.kind == E2b && w.row.reconcileAfter.Some?
    ensures Open(Step(w, Tick(seconds))) == 1
  {
    seconds := if w.row.leaseUntil.Some? then w.row.leaseUntil.value + 1 else 0;
  }

  /** A host that has come to rest is scheduled for nothing and has settled where it
      is desired to be or failed; it holds no lease if none was left behind at the
      start of a stretch of its run in which no snapshot completes. */
  lemma QuietIsSettled(now: nat, past: seq<Action>, recent: seq<Action>)
    requires Quiet(Run(Start(E2b, now), past + recent))
    ensures var row := Run(Start(E2b, now), past + recent).row;
      row.reconcileAfter.None? && Consistent(row) && AtRest(row.observed)
    ensures LeaseScheduled(Run(Start(E2b, now), past).row) && (forall action | action in recent :: !action.SnapshotReady?)
      ==> Run(Start(E2b, now), past + recent).row.leaseUntil.None?
  {
    var start := Start(E2b, now);
    var w := Run(start, past + recent);
    AlwaysConsistent(E2b, now, past + recent);
    KindIsFixed(start, past + recent);
    if w.row.reconcileAfter.Some? {
      var _ := ScheduledReopens(w);
    }
    RunAppend(start, past, recent);
    if LeaseScheduled(Run(start, past).row) && forall action | action in recent :: !action.SnapshotReady? {
      LeaseStaysScheduled(Run(start, past), recent);
    }
  }

  /** Convergence: once no snapshot completes after the last accepted request, a host
      that has come to rest is scheduled for nothing, holds no lease, and has settled
      or failed, whatever came before that request. */
  lemma QuietAfterRequest(now: nat, past: seq<Action>, request: Request, recent: seq<Action>)
    requires
      var w := Run(Start(E2b, now), past);
      Step(w, UserRequest(request)).row != w.row // the request is accepted
    requires forall action | action in recent :: !action.SnapshotReady?
    requires Quiet(Run(Start(E2b, now), past + [UserRequest(request)] + recent))
    ensures var row := Run(Start(E2b, now), past + [UserRequest(request)] + recent).row;
      row.reconcileAfter.None? && row.leaseUntil.None? && Consistent(row) && AtRest(row.observed)
  {
    var requested := past + [UserRequest(request)];
    KindIsFixed(Start(E2b, now), past);
    assert requested[..|requested| - 1] == past;
    RunLast(Start(E2b, now), requested);
    QuietIsSettled(now, requested, recent);
  }

  lemma {:induction false} KindIsFixed(w: World, actions: seq<Action>)
    ensures Run(w, actions).row.kind == w.row.kind
    decreases |actions|
  {
    if actions != [] {
      var n := |actions| - 1;
      KindIsFixed(w, actions[..n]);
      StepWritesOnce(Run(w, actions[..n]), actions[n]);
    }
  }

  // ---------- lease exclusion ----------

  // What may let a second worker in while one is active.
  function Intrusions(tally: Tally): nat {
    tally.requests + tally.uses + tally.operationFailures + tally.expiries
  }

  // Active workers, and the one that could be claimed.
  function Load(w: World): nat {
    Total(w.workers, Active) + Open(w)
  }

  // The intrusions so far that have not put a worker on the host.
  function Slack(w: World): int {
    Intrusions(w.tally) - Load(w)
  }

  lemma StepActive(w: World, action: Action)
    ensures Slack(Step(w, action)) >= Slack(w)
  {
    if ByWorker(action) {
      WorkerStepActive(w, action);
    } else {
      OtherStepTotal(w, action, Active);
    }
  }

  // A worker may open the host again when it is done, not before.
  lemma WorkerStepActive(w: World, action: Action)
    requires ByWorker(action)
    ensures var next := Step(w, action);
      && Total(next.workers, Active) + Open(next) <= Total(w.workers, Active) + Open(w)
      && Intrusions(next.tally) == Intrusions(w.tally)
  {
    WorkerStepTotal(w, action, Active);
  }

  lemma {:induction false} RunActive(w: World, actions: seq<Action>)
    ensures Slack(Run(w, actions)) >= Slack(w)
    decreases |actions|
  {
    if actions != [] {
      var n := |actions| - 1;
      RunActive(w, actions[..n]);
      StepActive(Run(w, actions[..n]), actions[n]);
    }
  }

  /** Workers exclude each other until a request, a use, a failed operation or an
      expiry intrudes: at most one more worker is active for each of these. */
  lemma ActiveIsBounded(kind: Kind, now: nat, actions: seq<Action>)
    ensures var last := Run(Start(kind, now), actions);
      Total(last.workers, Active) + Open(last) <= 1 + Intrusions(last.tally)
  {
    RunActive(Start(kind, now), actions);
  }

  // What opens a host beside the workers that are active.
  predicate Intrudes(w: World, action: Action) {
    && w.row.kind == E2b
    && match action
       case Tick(seconds) => w.row.reconcileAfter.Some? && Expires(w.row, w.now, w.now + seconds)
       case UserRequest(request) =>
         w.row.deletedAt.None? && (request.Delete? ==> !w.row.observed.Deleted?)
       case UseWhilePaused =>
         && ResumeOnUse(w.row, SnapshotCreating(w.snapshots), w.now) != w.row
         && (w.row.leaseUntil.None? || w.row.leaseUntil.value < w.now)
       case OperationFails(error) => w.operations > 0 && w.row.desired == WantReady && error.retryable
       case _ => false
  }

  /** Exactly an expiry, an accepted request, a resume of an unleased host and a
      retryable failure of an operation make room for one more worker. */
  lemma StepIntrudes(w: World, action: Action)
    ensures Load(Step(w, action)) > Load(w) <==> Open(w) == 0 && Intrudes(w, action)
    ensures Load(Step(w, action)) <= Load(w) + 1
  {
    if ByWorker(action) {
      WorkerStepActive(w, action);
    } else {
      OtherStepTotal(w, action, Active);
    }
  }

  // ---------- sandboxes created ----------

  // Who knows that the host has a sandbox.
  ghost predicate SandboxKnown(w: World) {
    && (w.row.kind == E2b && w.row.sandbox.None? ==>
          && !w.row.observed.Ready? && !w.row.observed.Paused?
          && w.checked == 0 && w.operations == 0 && w.snapshots == []
          && forall worker | worker in w.workers :: StillUnaware(worker))
    && (w.row.kind == Registered ==> w.workers == [] && w.snapshots == [])
  }

  predicate StillUnaware(worker: Worker) {
    && (worker.Settling? ==> worker.desired == WantDeleted && worker.sandbox.None?)
    && (worker.Failing? ==> !worker.error.retryable)
  }

  lemma StepKnown(w: World, action: Action)
    requires SandboxKnown(w)
    ensures SandboxKnown(Step(w, action))
    ensures w.row.sandbox.Some? ==> Step(w, action).row.sandbox == w.row.sandbox
  {
    if ByWorker(action) {
      WorkerStepKnown(w, action);
    }
  }

  lemma WorkerStepKnown(w: World, action: Action)
    requires SandboxKnown(w) && ByWorker(action)
    ensures SandboxKnown(Step(w, action))
    ensures w.row.sandbox.Some? ==> Step(w, action).row.sandbox == w.row.sandbox
  {
    var next := Step(w, action);
    if action.CreateSandbox? {
      P.PostIsNotReplayed(action.exchange);
    }
    if next.workers != w.workers {
      var i := action.worker;
      assert w.workers[i] in w.workers;
      forall worker | worker in next.workers
        ensures worker in w.workers || worker == next.workers[i]
      {
      }
    }
  }

  lemma {:induction false} CreatorsOnceKnown(workers: seq<Worker>)
    ensures Total(workers, Creators(true)) <= Total(workers, Creators(false))
    decreases |workers|
  {
    if workers != [] {
      CreatorsOnceKnown(workers[..|workers| - 1]);
    }
  }

  // Creates issued, and those that may follow without a new cause.
  function Creates(w: World): nat {
    w.tally.creates + Total(w.workers, Creators(w.row.sandbox.Some?))
    + if w.row.sandbox.None? then Open(w) else 0
  }

  lemma StepCreates(w: World, action: Action)
    requires SandboxKnown(w)
    ensures var next := Step(w, action);
      Creates(next) + w.tally.requests + w.tally.expiries
      <= Creates(w) + next.tally.requests + next.tally.expiries
  {
    if ByWorker(action) {
      WorkerStepCreates(w, action);
      WorkerStepCauses(w, action);
    } else {
      OtherStepCreates(w, action);
    }
  }

  lemma WorkerStepCauses(w: World, action: Action)
    requires ByWorker(action)
    ensures Step(w, action).tally.requests == w.tally.requests && Step(w, action).tally.expiries == w.tally.expiries
  {}

  lemma OtherStepCreates(w: World, action: Action)
    requires SandboxKnown(w) && !ByWorker(action)
    ensures var next := Step(w, action);
      Creates(next) + w.tally.requests + w.tally.expiries
      <= Creates(w) + next.tally.requests + next.tally.expiries
  {
    OtherStepTotal(w, action, Creators(w.row.sandbox.Some?));
    OtherStepOpens(w, action);
  }

  // Nothing but requests and expiries opens a host without a sandbox; claiming closes it.
  lemma OtherStepOpens(w: World, action: Action)
    requires SandboxKnown(w) && !ByWorker(action)
    ensures var next := Step(w, action);
      && next.row.sandbox == w.row.sandbox && next.tally.creates == w.tally.creates
      && w.tally.requests <= next.tally.requests && w.tally.expiries <= next.tally.expiries
      && (w.row.sandbox.None? ==>
            Open(next) + (if next.workers == w.workers then 0 else 1) + w.tally.requests + w.tally.expiries
            <= Open(w) + next.tally.requests + next.tally.expiries)
  {}

  lemma WorkerStepCreates(w: World, action: Action)
    requires SandboxKnown(w) && ByWorker(action)
    ensures Creates(Step(w, action)) <= Creates(w)
  {
    WorkerStepTotal(w, action, Creators(w.row.sandbox.Some?));
    if action.Attach? {
      CreatorsOnceKnown(Step(w, action).workers);
    }
    if action.Report? && action.worker < |w.workers| {
      assert w.workers[action.worker] in w.workers;
    }
  }

  /** The create calls issued for one host, by all workers together, number at most
      one, plus one for every explicit request and every lease expiry; and once
      stored, the sandbox ID never changes. */
  lemma {:induction false} SandboxCreationsAreBounded(now: nat, actions: seq<Action>)
    ensures var last := Run(Start(E2b, now), actions);
      && SandboxKnown(last)
      && Creates(last) <= 1 + last.tally.requests + last.tally.expiries
      && last.tally.creates <= 1 + last.tally.requests + last.tally.expiries
    decreases |actions|
  {
    if actions != [] {
      var n := |actions| - 1;
      SandboxCreationsAreBounded(now, actions[..n]);
      StepKnown(Run(Start(E2b, now), actions[..n]), actions[n]);
      StepCreates(Run(Start(E2b, now), actions[..n]), actions[n]);
    }
  }

  lemma StepWritesOnce(w: World, action: Action)
    ensures w.row.sandbox.Some? ==> Step(w, action).row.sandbox == w.row.sandbox
    ensures Step(w, action).row.kind == w.row.kind
  {}

  lemma {:induction false} SandboxIsWrittenOnce(w: World, actions: seq<Action>)
    requires w.row.sandbox.Some?
    ensures Run(w, actions).row.sandbox == w.row.sandbox
    decreases |actions|
  {
    if actions != [] {
      var n := |actions| - 1;
      SandboxIsWrittenOnce(w, actions[..n]);
      StepWritesOnce(Run(w, actions[..n]), actions[n]);
    }
  }
}
