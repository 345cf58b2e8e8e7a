/**
 What requests for a host mean: the desired state is always the one last asked for,
 a host that comes to rest has reached it unless a failure was recorded, and a
 scheduled host can always be brought there.
 */
module HostRequests {
  import opened Wrappers
  import P = ProviderErrors
  import opened HostRows
  import opened HostLifecycle
  import opened HostLifecycleRuns

  // ---------- the state asked for ----------

  function Wanted(request: Request): Option<Desired> {
    match request
    case Pause => Some(WantPaused)
    case Resume => Some(WantReady)
    case Refresh => None
    case Delete => Some(WantDeleted)
  }

  // What a step asks for: no host is asked anything once deleted, and a registered
  // one nothing but its deletion.
  ghost function Asks(w: World, action: Action): Option<Desired> {
    if w.row.deletedAt.Some? then None
    else
      match action
      case UserRequest(request) =>
        if w.row.kind == E2b || request.Delete? then Wanted(request) else None
      case UseWhilePaused =>
        if w.row.kind == E2b && w.row.observed == Paused && !SnapshotCreating(w.snapshots) then Some(WantReady)
        else None
      case SnapshotReady(i) =>
        if i < |w.snapshots| && w.snapshots[i].wanted then Some(WantPaused) else None
      case _ => None
  }

  ghost predicate NothingAsked(w: World, actions: seq<Action>) {
    forall k | 0 <= k < |actions| :: Asks(Run(w, actions[..k]), actions[k]).None?
  }

  // Deletion is seen only when it is done.
  predicate DeletionMarked(row: HostRow) {
    row.observed == Deleted ==> row.deletedAt.Some?
  }

  lemma StepMarked(w: World, action: Action)
    requires DeletionMarked(w.row)
    ensures DeletionMarked(Step(w, action).row)
  {}

  // A step changes the desired state to what it asks for, and not otherwise.
  lemma StepDesired(w: World, action: Action)
    requires Consistent(w.row) && DeletionMarked(w.row)
    ensures Step(w, action).row.desired
         == if Asks(w, action).Some? then Asks(w, action).value else w.row.desired
  {}

  lemma {:induction false} RunMarked(w: World, actions: seq<Action>)
    requires Consistent(w.row) && DeletionMarked(w.row)
    ensures Consistent(Run(w, actions).row) && DeletionMarked(Run(w, actions).row)
    decreases |actions|
  {
    if actions != [] {
      var n := |actions| - 1;
      RunMarked(w, actions[..n]);
      StepConsistent(Run(w, actions[..n]), actions[n]);
      StepMarked(Run(w, actions[..n]), actions[n]);
    }
  }

  lemma AskedBefore(w: World, actions: seq<Action>)
    requires actions != [] && NothingAsked(w, actions)
    ensures NothingAsked(w, actions[..|actions| - 1])
    ensures Asks(Run(w, actions[..|actions| - 1]), actions[|actions| - 1]).None?
  {
    var n := |actions| - 1;
    forall k | 0 <= k < n
      ensures Asks(Run(w, actions[..n][..k]), actions[..n][k]).None?
    {
      assert actions[..n][..k] == actions[..k];
    }
  }

  lemma {:induction false} DesiredStays(w: World, actions: seq<Action>)
    requires Consistent(w.row) && DeletionMarked(w.row) && NothingAsked(w, actions)
    ensures Run(w, actions).row.desired == w.row.desired
    decreases |actions|
  {
    if actions != [] {
      var n := |actions| - 1;
      AskedBefore(w, actions);
      DesiredStays(w, actions[..n]);
      RunMarked(w, actions[..n]);
      StepDesired(Run(w, actions[..n]), actions[n]);
    }
  }

  /** In every run, on hosts of both kinds, the desired state is the one that was
      asked for last, and ready before anything was. */
  lemma DesiredIsLastAsked(kind: Kind, now: nat, past: seq<Action>, action: Action, recent: seq<Action>)
    ensures NothingAsked(Start(kind, now), recent) ==> Run(Start(kind, now), recent).row.desired == WantReady
    ensures
      var w := Run(Start(kind, now), past);
      Asks(w, action).Some? && NothingAsked(Step(w, action), recent) ==>
        Run(Start(kind, now), past + [action] + recent).row.desired == Asks(w, action).value
  {
    var start := Start(kind, now);
    var w := Run(start, past);
    if NothingAsked(start, recent) {
      DesiredStays(start, recent);
    }
    RunMarked(start, past);
    if Asks(w, action).Some? && NothingAsked(Step(w, action), recent) {
      StepDesired(w, action);
      StepConsistent(w, action);
      StepMarked(w, action);
      DesiredStays(Step(w, action), recent);
      RunThrough(start, past, action, recent);
    }
  }

  lemma RunThrough(w: World, past: seq<Action>, action: Action, recent: seq<Action>)
    ensures Run(w, past + [action] + recent) == Run(Step(Run(w, past), action), recent)
  {
    var first := past + [action];
    assert first[..|first| - 1] == past;
    RunLast(w, first);
    RunAppend(w, first, recent);
  }

  // ---------- what a quiet host shows ----------

  function Goal(desired: Desired): Observed {
    match desired
    case WantReady => Ready
    case WantPaused => Paused
    case WantDeleted => Deleted
  }

  function Way(desired: Desired): Observed {
    match desired
    case WantReady => Resuming
    case WantPaused => Pausing
    case WantDeleted => Deleting
  }

  // Neither unavailable nor failed nor lost.
  predicate Sound(row: HostRow) {
    !row.observed.Unavailable? && !row.observed.Failed? && !row.observed.Lost?
  }

  // A worker's failure or an operation's is written to the row.
  predicate FailureRecorded(w: World, action: Action) {
    (action.Report? || action.OperationFails?) && Step(w, action).row != w.row
  }

  ghost predicate NoFailure(w: World, actions: seq<Action>) {
    forall k | 0 <= k < |actions| :: !FailureRecorded(Run(w, actions[..k]), actions[k])
  }

  lemma StepSound(w: World, action: Action)
    requires w.row.kind == E2b && Sound(w.row) && !FailureRecorded(w, action)
    ensures Sound(Step(w, action).row)
  {}

  lemma {:induction false} RunSound(w: World, actions: seq<Action>)
    requires w.row.kind == E2b && Sound(w.row) && NoFailure(w, actions)
    ensures Sound(Run(w, actions).row)
    decreases |actions|
  {
    if actions != [] {
      var n := |actions| - 1;
      forall k | 0 <= k < n
        ensures !FailureRecorded(Run(w, actions[..n][..k]), actions[..n][k])
      {
        assert actions[..n][..k] == actions[..k];
      }
      RunSound(w, actions[..n]);
      KindIsFixed(w, actions[..n]);
      StepSound(Run(w, actions[..n]), actions[n]);
    }
  }

  // A request takes effect at once, and not on a deleted host.
  lemma RequestTakesEffect(w: World, request: Request)
    requires w.row.kind == E2b && Consistent(w.row) && DeletionMarked(w.row)
    ensures var row := Step(w, UserRequest(request)).row;
      if w.row.deletedAt.Some? then row == w.row
      else
        && row.reconcileAfter == Some(w.now) && row.leaseUntil.None?
        && (Wanted(request).Some? ==>
              row.desired == Wanted(request).value && row.observed == Way(Wanted(request).value))
  {}

  /** Convergence to the request: after a pause, resume or deletion of a host that is
      not deleted, as long as nothing else is asked, just that is desired; and a host
      that then comes to rest is paused, ready or deleted, if no failure was recorded
      since. */
  lemma RequestIsMet(now: nat, past: seq<Action>, request: Request, recent: seq<Action>)
    requires !request.Refresh? && Run(Start(E2b, now), past).row.deletedAt.None?
    requires NothingAsked(Step(Run(Start(E2b, now), past), UserRequest(request)), recent)
    ensures
      var row := Run(Start(E2b, now), past + [UserRequest(request)] + recent).row;
      row.desired == Wanted(request).value
    ensures
      var requested := Step(Run(Start(E2b, now), past), UserRequest(request));
      var last := Run(Start(E2b, now), past + [UserRequest(request)] + recent);
      Quiet(last) && NoFailure(requested, recent) ==> last.row.observed == Goal(Wanted(request).value)
  {
    var start := Start(E2b, now);
    var w := Run(start, past);
    var requested := Step(w, UserRequest(request));
    KindIsFixed(start, past);
    RunMarked(start, past);
    RequestTakesEffect(w, request);
    DesiredIsLastAsked(E2b, now, past, UserRequest(request), recent);
    RunThrough(start, past, UserRequest(request), recent);
    if Quiet(Run(requested, recent)) && NoFailure(requested, recent) {
      StepWritesOnce(w, UserRequest(request));
      RunSound(requested, recent);
      QuietIsSettled(now, past + [UserRequest(request)], recent);
    }
  }

  // ---------- getting there ----------

  // One worker's undisturbed work on the host, after a wait.
  function Work(worker: nat, seconds: nat, creates: bool, id: string): seq<Action> {
    [Tick(seconds)] + ([ClaimHost] + ([ReadWork(worker)] + if creates then CreateAndFinish(worker, id) else JustFinish(worker)))
  }

  function CreateAndFinish(worker: nat, id: string): seq<Action> {
    [CreateSandbox(worker, Made(id))] + ([Attach(worker)] + ([Finish(worker)] + []))
  }

  function JustFinish(worker: nat): seq<Action> {
    [Finish(worker)] + []
  }

  // Where it is wanted, with nothing left to do.
  predicate Arrived(row: HostRow, desired: Desired) {
    && row.desired == desired && row.observed == Goal(desired)
    && row.reconcileAfter.None? && row.leaseUntil.None? && row.attempts == 0
    && (desired == WantDeleted ==> row.deletedAt.Some?)
    && (desired != WantDeleted ==> row.sandbox.Some?)
  }

  lemma FinishArrives(w: World, worker: nat)
    requires worker < |w.workers| && w.workers[worker].Settling?
    requires w.workers[worker].desired == w.row.desired
    requires w.row.desired != WantDeleted ==> w.row.sandbox.Some?
    ensures Arrived(Step(w, Finish(worker)).row, w.row.desired)
    ensures w.row.deletedAt.None? && w.row.desired == WantReady ==> PassesCheck(Step(w, Finish(worker)).row)
  {}

  lemma {:induction false} FinishRun(w: World, worker: nat)
    requires worker < |w.workers| && w.workers[worker].Settling?
    requires w.workers[worker].desired == w.row.desired
    requires w.row.desired != WantDeleted ==> w.row.sandbox.Some?
    ensures Arrived(Run(w, JustFinish(worker)).row, w.row.desired)
    ensures w.row.deletedAt.None? && w.row.desired == WantReady ==> PassesCheck(Run(w, JustFinish(worker)).row)
  {
    FinishArrives(w, worker);
    Hop(w, Finish(worker), Step(w, Finish(worker)), [], Step(w, Finish(worker)));
  }

  lemma {:induction false} CreateRun(w: World, worker: nat, id: string)
    requires worker < |w.workers| && w.workers[worker] == Creating(w.row.desired)
    ensures Arrived(Run(w, CreateAndFinish(worker, id)).row, w.row.desired)
    ensures w.row.deletedAt.None? && w.row.desired == WantReady ==>
      PassesCheck(Run(w, CreateAndFinish(worker, id)).row)
  {
    var w1 := Step(w, CreateSandbox(worker, Made(id)));
    var w2 := Step(w1, Attach(worker));
    assert w1.row == w.row && w1.workers[worker] == Attaching(w.row.desired, id);
    assert w2.workers[worker].Settling? && w2.row.desired == w.row.desired && w2.row.sandbox.Some?;
    FinishRun(w2, worker);
    var last := Run(w2, JustFinish(worker));
    Hop(w1, Attach(worker), w2, JustFinish(worker), last);
    Hop(w, CreateSandbox(worker, Made(id)), w1, [Attach(worker)] + JustFinish(worker), last);
  }

  // Waiting long enough, claiming and reading.
  lemma ReadRun(w: World, seconds: nat)
    requires w.row.kind == E2b && w.row.reconcileAfter.Some?
    requires w.row.reconcileAfter.value <= w.now + seconds
    requires w.row.leaseUntil.Some? ==> w.row.leaseUntil.value < w.now + seconds
    ensures
      var read := Step(Step(Step(w, Tick(seconds)), ClaimHost), ReadWork(|w.workers|));
      && read.row == w.row.(leaseUntil := Some(w.now + seconds + LEASE_SECONDS))
      && |read.workers| == |w.workers| + 1 && read.workers[|w.workers|] == Loaded(w.row)
  {}

  /** A scheduled host, in whatever state, with whatever workers, can be brought to
      where it is desired by one worker that nothing disturbs; a host desired ready is
      then fit for operations. */
  lemma {:induction false} ScheduledCanArrive(w: World, id: string) returns (seconds: nat, creates: bool)
    requires w.row.kind == E2b && w.row.reconcileAfter.Some?
    ensures
      var row := Run(w, Work(|w.workers|, seconds, creates, id)).row;
      && Arrived(row, w.row.desired)
      && (w.row.deletedAt.None? && w.row.desired == WantReady ==> PassesCheck(row))
  {
    var lease := if w.row.leaseUntil.Some? then w.row.leaseUntil.value + 1 else 0;
    seconds := if lease > w.row.reconcileAfter.value then lease else w.row.reconcileAfter.value;
    creates := w.row.desired != WantDeleted && w.row.sandbox.None?;
    var worker := |w.workers|;
    var w1 := Step(w, Tick(seconds));
    var w2 := Step(w1, ClaimHost);
    var w3 := Step(w2, ReadWork(worker));
    ReadRun(w, seconds);
    var rest := if creates then CreateAndFinish(worker, id) else JustFinish(worker);
    if creates {
      CreateRun(w3, worker, id);
    } else {
      FinishRun(w3, worker);
    }
    var last := Run(w3, rest);
    Hop(w2, ReadWork(worker), w3, rest, last);
    Hop(w1, ClaimHost, w2, [ReadWork(worker)] + rest, last);
    Hop(w, Tick(seconds), w1, [ClaimHost] + ([ReadWork(worker)] + rest), last);
  }

  // ---------- failures ----------

  function PowerOfTwo(n: nat): nat {
    if n == 0 then 1 else 2 * PowerOfTwo(n - 1)
  }

  lemma {:induction false} PowersGrow(n: nat)
    requires n >= 5
    ensures PowerOfTwo(n) >= 32
  {
    if n > 5 {
      PowersGrow(n - 1);
    } else {
      assert PowerOfTwo(2) == 4 && PowerOfTwo(3) == 8;
    }
  }

  /** The back-off doubles with each failed attempt, up to 32 seconds; a retryable
      failure makes the host claimable exactly once that has passed, any other not
      at all. */
  lemma FailureIsRetried(row: HostRow, expected: Option<Desired>, observed: Observed, retryable: bool, now: nat, later: nat)
    requires row.kind == E2b && Matches(row, expected)
    ensures
      var delay := if PowerOfTwo(row.attempts) < 32 then PowerOfTwo(row.attempts) else 32;
      Claimable(Fail(row, expected, observed, retryable, now), later) <==> retryable && now + delay <= later
  {
    if row.attempts >= 5 {
      PowersGrow(row.attempts);
    } else {
      assert PowerOfTwo(1) == 2 && PowerOfTwo(2) == 4;
      assert PowerOfTwo(3) == 8 && PowerOfTwo(4) == 16;
    }
  }

  /** What becomes of a host when its worker's last call fails: if it is still wanted
      as the worker read it, it is lost when its sandbox was not found, scheduled again
      as unavailable when the failure is retryable, and otherwise failed; else nothing
      is recorded. */
  lemma FailureShows(w: World, worker: nat, error: P.ProviderError)
    requires w.row.kind == E2b && worker < |w.workers|
    requires w.workers[worker].Settling? && MayFail(w.workers[worker], error)
    ensures
      var row := Step(Step(w, Abort(worker, error)), Report(worker)).row;
      var (read, sandbox) := (w.workers[worker].desired, w.workers[worker].sandbox);
      if read != w.row.desired then row == w.row
      else
        && (row.observed == Lost <==> error.kind == P.NotFound && sandbox.Some?)
        && (row.observed == Unavailable <==> row.observed != Lost && error.retryable)
        && (row.observed == Failed <==> row.observed != Lost && !error.retryable)
        && (row.reconcileAfter.Some? <==> error.retryable)
  {
    var failed := Step(w, Abort(worker, error));
    assert failed.row == w.row && failed.workers[worker].Failing?;
  }

  /** In every run, an operation passes the check before forwarding exactly when the
      host is shown as ready. */
  lemma PassesExactlyWhenReady(now: nat, actions: seq<Action>)
    ensures
      var w := Run(Start(E2b, now), actions);
      Step(w, Check).checked == w.checked + (if w.row.observed == Ready then 1 else 0)
  {
    KindIsFixed(Start(E2b, now), actions);
    AlwaysConsistent(E2b, now, actions);
    SandboxCreationsAreBounded(now, actions);
  }

  // What a failure that was recorded tells.
  predicate Telling(row: HostRow) {
    && (row.observed == Failed ==> !row.statusRetryable)
    && (row.kind == E2b && row.statusRetryable ==> row.reconcileAfter.Some?)
    && (row.observed == Lost ==> row.sandbox.Some?)
  }

  predicate KnowsSandbox(worker: Worker) {
    || (worker.Settling? && worker.sandbox.Some?)
    || (worker.Failing? && worker.hadSandbox)
  }

  ghost predicate AllTelling(w: World) {
    && Telling(w.row)
    && forall worker | worker in w.workers && KnowsSandbox(worker) :: w.row.sandbox.Some?
  }

  lemma WorkerStepTells(w: World, action: Action)
    requires ByWorker(action) && AllTelling(w)
    ensures AllTelling(Step(w, action))
  {
    var next := Step(w, action);
    if next != w {
      var i := action.worker;
      assert w.workers[i] in w.workers;
      assert next.workers == w.workers[i := next.workers[i]];
      forall worker | worker in next.workers && KnowsSandbox(worker)
        ensures next.row.sandbox.Some?
      {
        assert worker in w.workers || worker == next.workers[i];
      }
    }
  }

  lemma StepTells(w: World, action: Action)
    requires AllTelling(w) && SandboxKnown(w)
    ensures AllTelling(Step(w, action))
  {
    if ByWorker(action) {
      WorkerStepTells(w, action);
    }
  }

  /** A host shown as failed is not to be retried, one to be retried is scheduled,
      and only a host that had a sandbox is shown as lost. */
  lemma {:induction false} FailuresTell(now: nat, actions: seq<Action>)
    ensures AllTelling(Run(Start(E2b, now), actions))
    ensures Telling(Run(Start(E2b, now), actions).row)
    decreases |actions|
  {
    if actions != [] {
      var n := |actions| - 1;
      FailuresTell(now, actions[..n]);
      SandboxCreationsAreBounded(now, actions[..n]);
      StepTells(Run(Start(E2b, now), actions[..n]), actions[n]);
    }
  }
}
