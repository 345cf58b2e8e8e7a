/**
 Where a snapshot comes to rest: wanted until its deletion is requested and never
 again, ready or deleted unless a failure was recorded, and always able to get there.
 */
module SnapshotRequests {
  import opened Wrappers
  import P = ProviderErrors
  import H = HostRows
  import opened SnapshotLifecycle

  // ---------- states that fit ----------

  predicate Fits(row: SnapshotRow) {
    && (row.observed.Creating? || row.observed.Ready? ==> row.wanted)
    && (row.observed.Deleting? || row.observed.Deleted? ==> !row.wanted)
    && (row.observed.Ready? ==> row.providerId.Some? && row.reconcileAfter.None?)
    && (row.observed.Deleted? ==> row.reconcileAfter.None?)
    && (row.deletedAt.Some? ==> !row.wanted)
    && (row.observed.Deleted? ==> row.deletedAt.Some?)
    // Nothing scheduled means nothing in progress.
    && (row.reconcileAfter.None? ==> !row.observed.Creating? && !row.observed.Deleting?)
  }

  lemma StepFits(w: World, action: Action)
    requires Fits(w.row)
    ensures Fits(Step(w, action).row)
    ensures !w.row.wanted ==> !Step(w, action).row.wanted
    ensures w.row.deletedAt.Some? ==> Step(w, action).row.deletedAt.Some?
  {}

  /** In every interleaving the observed state fits what is wanted, a snapshot for
      which nothing is scheduled is ready, deleted or failed, and one that is no
      longer wanted, or deleted, stays so. */
  lemma {:induction false} AlwaysFits(w: World, actions: seq<Action>)
    requires Fits(w.row)
    ensures var last := Run(w, actions);
      && Fits(last.row)
      && (!w.row.wanted ==> !last.row.wanted)
      && (w.row.deletedAt.Some? ==> last.row.deletedAt.Some?)
    decreases |actions|
  {
    if actions != [] {
      var n := |actions| - 1;
      AlwaysFits(w, actions[..n]);
      StepFits(Run(w, actions[..n]), actions[n]);
    }
  }

  lemma StartFits(now: nat)
    ensures Fits(Start(now).row)
  {}

  // ---------- what was asked for ----------

  predicate AsksDeletion(w: World, action: Action) {
    action.DeleteRequested? && w.row.deletedAt.None?
  }

  lemma StepWanted(w: World, action: Action)
    requires Fits(w.row)
    ensures Step(w, action).row.wanted <==> w.row.wanted && !AsksDeletion(w, action)
  {}

  /** A snapshot is wanted until its deletion is requested, and from then on not. */
  lemma {:induction false} WantedUntilDeleted(now: nat, actions: seq<Action>)
    ensures Run(Start(now), actions).row.wanted <==> DeleteRequested !in actions
    decreases |actions|
  {
    if actions != [] {
      var n := |actions| - 1;
      WantedUntilDeleted(now, actions[..n]);
      StartFits(now);
      AlwaysFits(Start(now), actions[..n]);
      StepWanted(Run(Start(now), actions[..n]), actions[n]);
      assert actions == actions[..n] + [actions[n]];
    }
  }

  // A worker's failure is written to the row.
  predicate FailureRecorded(w: World, action: Action) {
    action.Report? && Step(w, action) != w
  }

  ghost predicate NoFailure(w: World, actions: seq<Action>) {
    forall k | 0 <= k < |actions| :: !FailureRecorded(Run(w, actions[..k]), actions[k])
  }

  lemma {:induction false} StaysSound(w: World, actions: seq<Action>)
    requires !w.row.observed.Failed? && NoFailure(w, actions)
    ensures !Run(w, actions).row.observed.Failed?
    decreases |actions|
  {
    if actions != [] {
      var n := |actions| - 1;
      forall k | 0 <= k < n
        ensures !FailureRecorded(Run(w, actions[..n][..k]), actions[..n][k])
      {
        assert actions[..n][..k] == actions[..k];
      }
      StaysSound(w, actions[..n]);
      assert !FailureRecorded(Run(w, actions[..n]), actions[n]);
    }
  }

  /** Where nothing is scheduled and no failure was recorded, a snapshot whose deletion
      was never requested is ready, and any other is deleted. */
  lemma RestsWhereWanted(now: nat, actions: seq<Action>)
    requires NoFailure(Start(now), actions) && Run(Start(now), actions).row.reconcileAfter.None?
    ensures var row := Run(Start(now), actions).row;
      row.observed == (if DeleteRequested in actions then Deleted else Ready)
  {
    StartFits(now);
    AlwaysFits(Start(now), actions);
    StaysSound(Start(now), actions);
    WantedUntilDeleted(now, actions);
  }

  // ---------- getting there ----------

  // Where it is wanted, with nothing left to do.
  predicate Arrived(row: SnapshotRow, wanted: bool) {
    && row.wanted == wanted && row.reconcileAfter.None? && row.leaseUntil.None? && row.attempts == 0
    && (if wanted then row.observed == Ready && row.providerId.Some?
        else row.observed == Deleted && row.deletedAt.Some?)
  }

  function Made(id: string): P.Exchange { P.Answered(200, Some(id)) }

  // The steps one worker takes on the snapshot, after a wait, if nothing disturbs it.
  function Claiming(w: World, seconds: nat): World {
    Step(Step(Step(w, Tick(seconds)), ClaimSnapshot), ReadWork(|w.workers|))
  }

  function Working(w: World, seconds: nat, id: string): World {
    var i := |w.workers|;
    var read := Claiming(w, seconds);
    if w.row.wanted && w.row.providerId.None? then
      Step(Step(Step(read, Connect(i)), PostSnapshot(i, Made(id))), Finish(i))
    else Step(read, Finish(i))
  }

  lemma ClaimingReads(w: World, seconds: nat)
    requires w.row.reconcileAfter.Some? && w.row.reconcileAfter.value <= w.now + seconds
    requires w.row.leaseUntil.Some? ==> w.row.leaseUntil.value < w.now + seconds
    ensures var read := Claiming(w, seconds);
      && read.row == w.row.(leaseUntil := Some(w.now + seconds + H.LEASE_SECONDS))
      && |read.workers| == |w.workers| + 1 && read.workers[|w.workers|] == Loaded(w.row)
  {}

  /** A scheduled snapshot, in whatever state, with whatever workers, can be brought
      to where it is wanted by one worker that nothing disturbs. */
  lemma ScheduledCanArrive(w: World, id: string) returns (seconds: nat)
    requires w.row.reconcileAfter.Some?
    ensures Arrived(Working(w, seconds, id).row, w.row.wanted)
  {
    var lease := if w.row.leaseUntil.Some? then w.row.leaseUntil.value + 1 else 0;
    seconds := if lease > w.row.reconcileAfter.value then lease else w.row.reconcileAfter.value;
    var i := |w.workers|;
    var read := Claiming(w, seconds);
    ClaimingReads(w, seconds);
    if w.row.wanted && w.row.providerId.None? {
      var connected := Step(read, Connect(i));
      assert connected.workers[i] == Posting && connected.row == read.row;
      var posted := Step(connected, PostSnapshot(i, Made(id)));
      assert posted.workers[i] == Storing(id) && posted.row == read.row;
    }
  }
}
