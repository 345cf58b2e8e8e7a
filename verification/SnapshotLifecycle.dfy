/**
 One snapshot under every interleaving of workers, a deletion request and time:
 how many provider snapshots can be made for it.
 */
module SnapshotLifecycle {
  import opened Wrappers
  import P = ProviderErrors
  import H = HostRows

  datatype Observed = Creating | Ready | Deleting | Deleted | Failed

  // The e2b_snapshots row, as far as workers read it.
  datatype SnapshotRow = SnapshotRow(
    wanted: bool,                 // desired_state = 'ready'
    observed: Observed,
    providerId: Option<string>,
    reconcileAfter: Option<nat>,
    attempts: nat,
    leaseUntil: Option<nat>,
    deletedAt: Option<nat>)

  // ---------- the updates ----------

  function Created(now: nat): SnapshotRow {
    SnapshotRow(true, Creating, None, Some(now), 0, None, None)
  }

  function RequestDelete(row: SnapshotRow, now: nat): SnapshotRow {
    if row.deletedAt.Some? then row
    else row.(wanted := false, observed := Deleting, reconcileAfter := Some(now), leaseUntil := None)
  }

  predicate Claimable(row: SnapshotRow, now: nat) {
    && row.reconcileAfter.Some? && row.reconcileAfter.value <= now
    && (row.leaseUntil.None? || row.leaseUntil.value < now)
  }

  function CompleteReady(row: SnapshotRow, id: string): SnapshotRow {
    if !row.wanted then row
    else row.(providerId := Some(id), observed := Ready, reconcileAfter := None, attempts := 0, leaseUntil := None)
  }

  function CompleteDeleted(row: SnapshotRow, now: nat): SnapshotRow {
    if row.wanted then row
    else row.(observed := Deleted, deletedAt := Some(now), reconcileAfter := None, attempts := 0, leaseUntil := None)
  }

  // Unlike a host's, this failure is recorded whatever is desired by now.
  function Fail(row: SnapshotRow, retryable: bool, now: nat): SnapshotRow {
    row.(observed := Failed, attempts := row.attempts + 1,
         reconcileAfter := if retryable then Some(now + H.Backoff(row.attempts)) else None,
         leaseUntil := None)
  }

  /** The row as the gateway updates it in place. */
  class SnapshotRecord {
    var wanted: bool
    var observed: Observed
    var providerId: Option<string>
    var reconcileAfter: Option<nat>
    var attempts: nat
    var leaseUntil: Option<nat>
    var deletedAt: Option<nat>

    function Row(): SnapshotRow
      reads this
    {
      SnapshotRow(wanted, observed, providerId, reconcileAfter, attempts, leaseUntil, deletedAt)
    }

    constructor (now: nat)
      ensures Row() == Created(now)
    {
      wanted, observed, providerId := true, Creating, None;
      reconcileAfter, attempts, leaseUntil, deletedAt := Some(now), 0, None, None;
    }

    method RequestSnapshotDelete(now: nat) returns (updated: bool)
      modifies this
      ensures Row() == RequestDelete(old(Row()), now)
      ensures updated <==> old(deletedAt).None?
    {
      updated := deletedAt.None?;
      if updated {
        wanted, observed, reconcileAfter, leaseUntil := false, Deleting, Some(now), None;
      }
    }

    method CompleteSnapshotReady(id: string) returns (pausesHost: bool)
      modifies this
      ensures Row() == CompleteReady(old(Row()), id)
      ensures pausesHost <==> old(wanted)
    {
      pausesHost := wanted;
      if wanted {
        providerId, observed, reconcileAfter, attempts, leaseUntil := Some(id), Ready, None, 0, None;
      }
    }

    method CompleteSnapshotDeleted(now: nat)
      modifies this
      ensures Row() == CompleteDeleted(old(Row()), now)
    {
      if !wanted {
        observed, deletedAt, reconcileAfter, attempts, leaseUntil := Deleted, Some(now), None, 0, None;
      }
    }

    method FailSnapshot(retryable: bool, now: nat)
      modifies this
      ensures Row() == Fail(old(Row()), retryable, now)
    {
      observed := Failed;
      reconcileAfter := if retryable then Some(now + H.Backoff(attempts)) else None;
      attempts, leaseUntil := attempts + 1, None;
    }
  }

  // ---------- workers ----------

  datatype Worker =
    | Claimed
    | Connecting                        // read a wanted row without a provider ID
    | Posting                           // the source sandbox is connected
    | Storing(id: string)               // a provider ID to record as ready
    | Removing                          // read a row that is no longer wanted
    | Failing(error: P.ProviderError)
    | Done

  datatype Tally = Tally(claims: nat, posts: nat, expiries: nat)

  datatype World = World(now: nat, row: SnapshotRow, workers: seq<Worker>, tally: Tally)

  datatype Action =
    | Tick(seconds: nat)
    | DeleteRequested
    | ClaimSnapshot
    | ReadWork(worker: nat)
    | Connect(worker: nat)                           // replayable, so it may be retried
    | PostSnapshot(worker: nat, exchange: P.Exchange)
    | Finish(worker: nat)
    | Abort(worker: nat, error: P.ProviderError)
    | Report(worker: nat)
    | Crash(worker: nat)

  function Start(now: nat): World {
    World(now, Created(now), [], Tally(0, 0, 0))
  }

  function Loaded(row: SnapshotRow): Worker {
    if !row.wanted then Removing
    else if row.providerId.Some? then Storing(row.providerId.value)
    else Connecting
  }

  // Only connecting and deleting talk to the provider in a replayable way; an
  // update that fails, or an unusable account, is not retried.
  predicate MayFail(worker: Worker, error: P.ProviderError) {
    match worker
    case Connecting => true
    case Removing => true
    case Claimed => error == P.ConfigurationError()
    case Storing(_) => error == P.ConfigurationError()
    case Posting => false
    case Failing(_) => false
    case Done => false
  }

  function Move(w: World, i: nat, next: Worker): World
    requires i < |w.workers|
  {
    w.(workers := w.workers[i := next])
  }

  // A disabled action changes nothing.
  function Step(w: World, action: Action): World {
    match action
    case Tick(seconds) =>
      var expired := w.row.leaseUntil.Some? && w.now <= w.row.leaseUntil.value < w.now + seconds;
      w.(now := w.now + seconds,
         tally := if expired then w.tally.(expiries := w.tally.expiries + 1) else w.tally)
    case DeleteRequested => w.(row := RequestDelete(w.row, w.now))
    case ClaimSnapshot =>
      if !Claimable(w.row, w.now) then w
      else
        w.(row := w.row.(leaseUntil := Some(w.now + H.LEASE_SECONDS)), workers := w.workers + [Claimed],
           tally := w.tally.(claims := w.tally.claims + 1))
    case ReadWork(i) =>
      if i >= |w.workers| || w.workers[i] != Claimed then w else Move(w, i, Loaded(w.row))
    case Connect(i) =>
      if i >= |w.workers| || w.workers[i] != Connecting then w else Move(w, i, Posting)
    case PostSnapshot(i, exchange) =>
      if i >= |w.workers| || w.workers[i] != Posting then w
      else
        Move(w, i, match P.PostOnce(exchange)
                   case Success(id) => Storing(id)
                   case Failure(error) => Failing(error))
        .(tally := w.tally.(posts := w.tally.posts + 1))
    case Finish(i) =>
      if i >= |w.workers| then w
      else if w.workers[i].Storing? then
        Move(w, i, Done).(row := CompleteReady(w.row, w.workers[i].id))
      else if w.workers[i].Removing? then
        Move(w, i, Done).(row := CompleteDeleted(w.row, w.now))
      else w
    case Abort(i, error) =>
      if i >= |w.workers| || !MayFail(w.workers[i], error) then w else Move(w, i, Failing(error))
    case Report(i) =>
      if i >= |w.workers| || !w.workers[i].Failing? then w
      else Move(w, i, Done).(row := Fail(w.row, w.workers[i].error.retryable, w.now))
    case Crash(i) =>
      if i >= |w.workers| then w else Move(w, i, Done)
  }

  function Run(w: World, actions: seq<Action>): World {
    if actions == [] then w
    else Step(Run(w, actions[..|actions| - 1]), actions[|actions| - 1])
  }

  // ---------- snapshot posts ----------

  // May this worker post, or make room for one that will? While the snapshot is
  // wanted, a retryable failure stands for the claim it will open again.
  function Poster(worker: Worker, wanted: bool): nat {
    if worker.Connecting? || worker.Posting? then 1
    else if wanted && (worker.Claimed? || (worker.Failing? && worker.error.retryable)) then 1
    else 0
  }

  function Posters(workers: seq<Worker>, wanted: bool): nat {
    if workers == [] then 0
    else Posters(workers[..|workers| - 1], wanted) + Poster(workers[|workers| - 1], wanted)
  }

  lemma {:induction false} PostersUpdate(workers: seq<Worker>, wanted: bool, i: nat, next: Worker)
    requires i < |workers|
    ensures Posters(workers[i := next], wanted) + Poster(workers[i], wanted)
         == Posters(workers, wanted) + Poster(next, wanted)
  {
    var n := |workers| - 1;
    if i == n {
      assert workers[i := next][..n] == workers[..n];
    } else {
      PostersUpdate(workers[..n], wanted, i, next);
      assert workers[i := next][..n] == workers[..n][i := next];
    }
  }

  lemma PostersAppend(workers: seq<Worker>, wanted: bool, next: Worker)
    ensures Posters(workers + [next], wanted) == Posters(workers, wanted) + Poster(next, wanted)
  {
    assert (workers + [next])[..|workers|] == workers;
  }

  lemma {:induction false} PostersOnceUnwanted(workers: seq<Worker>)
    ensures Posters(workers, false) <= Posters(workers, true)
    decreases |workers|
  {
    if workers != [] {
      PostersOnceUnwanted(workers[..|workers| - 1]);
    }
  }

  function Open(w: World): nat {
    if w.row.wanted && w.row.reconcileAfter.Some?
       && (w.row.leaseUntil.None? || w.row.leaseUntil.value < w.now) then 1 else 0
  }

  function Posts(w: World): nat {
    w.tally.posts + Posters(w.workers, w.row.wanted) + Open(w)
  }

  // A worker that removes has seen that the snapshot is no longer wanted.
  predicate Sound(w: World) {
    forall worker | worker in w.workers :: worker.Removing? ==> !w.row.wanted
  }

  lemma StepSound(w: World, action: Action)
    requires Sound(w)
    ensures Sound(Step(w, action))
  {}

  lemma StepPosts(w: World, action: Action)
    requires Sound(w)
    ensures var next := Step(w, action);
      Posts(next) + w.tally.expiries <= Posts(w) + next.tally.expiries
  {
    if action.Tick? || action.DeleteRequested? || action.ClaimSnapshot? {
      PostersAppend(w.workers, w.row.wanted, Claimed);
      PostersOnceUnwanted(w.workers);
    } else {
      WorkerStepPosts(w, action);
    }
  }

  lemma WorkerStepPosts(w: World, action: Action)
    requires Sound(w) && !action.Tick? && !action.DeleteRequested? && !action.ClaimSnapshot?
    ensures Posts(Step(w, action)) <= Posts(w)
  {
    var next := Step(w, action);
    if action.PostSnapshot? {
      P.PostIsNotReplayed(action.exchange);
    }
    if next != w {
      assert w.workers[action.worker] in w.workers;
      assert next.workers == w.workers[action.worker := next.workers[action.worker]];
      PostersUpdate(w.workers, w.row.wanted, action.worker, next.workers[action.worker]);
    }
  }

  /** Provider snapshots are requested for one snapshot at most once, plus once for
      every lease expiry, whatever fails, is retried or is deleted meanwhile. */
  lemma {:induction false} SnapshotPostsAreBounded(now: nat, actions: seq<Action>)
    ensures var last := Run(Start(now), actions);
      Sound(last) && Posts(last) <= 1 + last.tally.expiries && last.tally.posts <= 1 + last.tally.expiries
    decreases |actions|
  {
    if actions != [] {
      var n := |actions| - 1;
      SnapshotPostsAreBounded(now, actions[..n]);
      StepSound(Run(Start(now), actions[..n]), actions[n]);
      StepPosts(Run(Start(now), actions[..n]), actions[n]);
    }
  }
}
