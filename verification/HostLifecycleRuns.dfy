/**
 Runs of one host that show the bounds on workers and sandboxes to be needed: every
 cause that is counted can put a second worker on the host, and the bound on create
 calls is met for any number of lease expiries.
 */
module HostLifecycleRuns {
  import opened Wrappers
  import P = ProviderErrors
  import opened HostRows
  import opened HostLifecycle

  // A run known step by step, from the last to the first.
  lemma {:induction false} Hop(w: World, action: Action, next: World, rest: seq<Action>, last: World)
    requires Step(w, action) == next && Run(next, rest) == last
    ensures Run(w, [action] + rest) == last
  {
    assert [action][..0] == [];
    RunAppend(w, [action], rest);
  }

  // ---------- create calls ----------

  function Made(id: string): P.Exchange { P.Answered(200, Some(id)) }

  // A worker creates a sandbox but does not get to store its ID.
  function Creation(worker: nat, id: string): seq<Action> {
    [ClaimHost] + ([ReadWork(worker)] + ([CreateSandbox(worker, Made(id))] + []))
  }

  // Its lease runs out, or a request takes it away.
  function Round(worker: nat, id: string, cause: Action): seq<Action> {
    Creation(worker, id) + ([cause] + [])
  }

  // So many rounds that end with an expiry, then so many that end with a request.
  function Rounds(expiries: nat, requests: nat, id: string): seq<Action>
    decreases requests, expiries
  {
    if requests > 0 then
      Rounds(expiries, requests - 1, id) + Round(expiries + requests - 1, id, UserRequest(Refresh))
    else if expiries > 0 then
      Rounds(expiries - 1, 0, id) + Round(expiries - 1, id, Tick(LEASE_SECONDS + 1))
    else []
  }

  // After these rounds.
  predicate Wasted(w: World, expiries: nat, requests: nat) {
    && w.row.kind == E2b && w.row.desired == WantReady && w.row.sandbox.None? && w.row.deletedAt.None?
    && Claimable(w.row, w.now)
    && |w.workers| == expiries + requests
    && w.tally.creates == expiries + requests && w.tally.expiries == expiries && w.tally.requests == requests
    && w.tally.uses == 0 && w.tally.operationFailures == 0
  }

  // One worker more has created a sandbox and holds the lease.
  predicate Wasting(w: World, expiries: nat, requests: nat, id: string) {
    && w.row.kind == E2b && w.row.desired == WantReady && w.row.sandbox.None? && w.row.deletedAt.None?
    && w.row.reconcileAfter.Some? && w.row.reconcileAfter.value <= w.now
    && w.row.leaseUntil == Some(w.now + LEASE_SECONDS)
    && |w.workers| == expiries + requests + 1 && w.workers[expiries + requests] == Attaching(WantReady, id)
    && w.tally.creates == expiries + requests + 1 && w.tally.expiries == expiries && w.tally.requests == requests
    && w.tally.uses == 0 && w.tally.operationFailures == 0
  }

  lemma {:induction false} CreationRun(w: World, expiries: nat, requests: nat, id: string)
    requires Wasted(w, expiries, requests)
    ensures Wasting(Run(w, Creation(expiries + requests, id)), expiries, requests, id)
    ensures w.workers <= Run(w, Creation(expiries + requests, id)).workers
  {
    var n := expiries + requests;
    var w1 := Step(w, ClaimHost);
    var w2 := Step(w1, ReadWork(n));
    var w3 := Step(w2, CreateSandbox(n, Made(id)));
    assert w1.workers[n] == Claimed && w2.workers[n] == Creating(WantReady);
    Hop(w2, CreateSandbox(n, Made(id)), w3, [], w3);
    Hop(w1, ReadWork(n), w2, [CreateSandbox(n, Made(id))] + [], w3);
    Hop(w, ClaimHost, w1, [ReadWork(n)] + ([CreateSandbox(n, Made(id))] + []), w3);
  }

  lemma ExpiryFreesHost(w: World, expiries: nat, requests: nat, id: string)
    requires Wasting(w, expiries, requests, id)
    ensures Wasted(Step(w, Tick(LEASE_SECONDS + 1)), expiries + 1, requests)
    ensures Step(w, Tick(LEASE_SECONDS + 1)).workers == w.workers
  {}

  lemma RequestFreesHost(w: World, expiries: nat, requests: nat, id: string)
    requires Wasting(w, expiries, requests, id)
    ensures Wasted(Step(w, UserRequest(Refresh)), expiries, requests + 1)
  {}

  lemma RoundRun(w: World, worker: nat, id: string, cause: Action)
    ensures Run(w, Round(worker, id, cause)) == Step(Run(w, Creation(worker, id)), cause)
  {
    var w1 := Run(w, Creation(worker, id));
    var w2 := Step(w1, cause);
    Hop(w1, cause, w2, [], w2);
    RunAppend(w, Creation(worker, id), [cause] + []);
  }

  lemma ExpiryRound(w: World, expiries: nat, requests: nat, id: string)
    requires Wasted(w, expiries, requests)
    ensures Wasted(Run(w, Round(expiries + requests, id, Tick(LEASE_SECONDS + 1))), expiries + 1, requests)
  {
    CreationRun(w, expiries, requests, id);
    ExpiryFreesHost(Run(w, Creation(expiries + requests, id)), expiries, requests, id);
    RoundRun(w, expiries + requests, id, Tick(LEASE_SECONDS + 1));
  }

  lemma RequestRound(w: World, expiries: nat, requests: nat, id: string)
    requires Wasted(w, expiries, requests)
    ensures Wasted(Run(w, Round(expiries + requests, id, UserRequest(Refresh))), expiries, requests + 1)
  {
    CreationRun(w, expiries, requests, id);
    RequestFreesHost(Run(w, Creation(expiries + requests, id)), expiries, requests, id);
    RoundRun(w, expiries + requests, id, UserRequest(Refresh));
  }

  lemma OneMoreExpiry(start: World, rounds: seq<Action>, expiries: nat, id: string)
    requires Wasted(Run(start, rounds), expiries, 0)
    ensures Wasted(Run(start, rounds + Round(expiries, id, Tick(LEASE_SECONDS + 1))), expiries + 1, 0)
  {
    ExpiryRound(Run(start, rounds), expiries, 0, id);
    RunAppend(start, rounds, Round(expiries, id, Tick(LEASE_SECONDS + 1)));
  }

  lemma OneMoreRequest(start: World, rounds: seq<Action>, expiries: nat, requests: nat, id: string)
    requires Wasted(Run(start, rounds), expiries, requests)
    ensures Wasted(Run(start, rounds + Round(expiries + requests, id, UserRequest(Refresh))), expiries, requests + 1)
  {
    RequestRound(Run(start, rounds), expiries, requests, id);
    RunAppend(start, rounds, Round(expiries + requests, id, UserRequest(Refresh)));
  }

  lemma {:induction false} RoundsRun(start: World, expiries: nat, requests: nat, id: string)
    requires Wasted(start, 0, 0)
    ensures Wasted(Run(start, Rounds(expiries, requests, id)), expiries, requests)
    decreases requests, expiries
  {
    if requests > 0 {
      RoundsRun(start, expiries, requests - 1, id);
      OneMoreRequest(start, Rounds(expiries, requests - 1, id), expiries, requests - 1, id);
    } else if expiries > 0 {
      RoundsRun(start, expiries - 1, 0, id);
      OneMoreExpiry(start, Rounds(expiries - 1, 0, id), expiries - 1, id);
    }
  }

  /** For all numbers of lease expiries and accepted requests some run with just
      these creates one sandbox more than their sum. */
  lemma CreationBoundIsMet(now: nat, expiries: nat, requests: nat, id: string)
    ensures
      var w := Run(Start(E2b, now), Rounds(expiries, requests, id) + Creation(expiries + requests, id));
      w.tally.creates == 1 + requests + expiries && w.tally.expiries == expiries && w.tally.requests == requests
  {
    RoundsRun(Start(E2b, now), expiries, requests, id);
    CreationRun(Run(Start(E2b, now), Rounds(expiries, requests, id)), expiries, requests, id);
    RunAppend(Start(E2b, now), Rounds(expiries, requests, id), Creation(expiries + requests, id));
  }

  // ---------- a second worker ----------

  /** A worker does not notice that its lease is gone: one expiry is enough for two
      workers to have created a sandbox for the same host. */
  lemma ExpiryLetsASecondWorkerIn(now: nat, id: string)
    ensures
      var w := Run(Start(E2b, now), Rounds(1, 0, id) + Creation(1, id));
      && w.workers == [Attaching(WantReady, id), Attaching(WantReady, id)]
      && w.tally.expiries == 1 && w.tally.creates == 2
      && w.tally.requests == 0 && w.tally.uses == 0 && w.tally.operationFailures == 0
  {
    var start := Start(E2b, now);
    assert Wasted(start, 0, 0);
    CreationRun(start, 0, 0, id);
    var first := Run(start, Creation(0, id));
    ExpiryFreesHost(first, 0, 0, id);
    RoundRun(start, 0, id, Tick(LEASE_SECONDS + 1));
    var late := Step(first, Tick(LEASE_SECONDS + 1));
    assert Rounds(1, 0, id) == Round(0, id, Tick(LEASE_SECONDS + 1)) by {
      assert Rounds(0, 0, id) == [];
    }
    CreationRun(late, 1, 0, id);
    RunAppend(start, Rounds(1, 0, id), Creation(1, id));
  }

  // Two workers are active, and these were the only causes.
  predicate TwoActive(w: World, requests: nat, uses: nat, operationFailures: nat, expiries: nat) {
    && Total(w.workers, Active) == 2
    && w.tally.requests == requests && w.tally.uses == uses
    && w.tally.operationFailures == operationFailures && w.tally.expiries == expiries
  }

  lemma TwoAreActive(workers: seq<Worker>)
    requires |workers| >= 2 && workers[|workers| - 1] == Claimed && workers[|workers| - 2] == Claimed
    requires forall i | 0 <= i < |workers| - 2 :: workers[i] == Done
    ensures Total(workers, Active) == 2
  {
    NoneActive(workers[..|workers| - 2]);
    var one := workers[..|workers| - 1];
    assert one[..|one| - 1] == workers[..|workers| - 2];
  }

  lemma {:induction false} NoneActive(workers: seq<Worker>)
    requires forall i | 0 <= i < |workers| :: workers[i] == Done
    ensures Total(workers, Active) == 0
  {
    if workers != [] {
      NoneActive(workers[..|workers| - 1]);
    }
  }

  /** One request is enough. */
  lemma {:induction false} RequestLetsASecondWorkerIn(now: nat)
    ensures TwoActive(Run(Start(E2b, now), [ClaimHost] + ([UserRequest(Refresh)] + ([ClaimHost] + []))), 1, 0, 0, 0)
  {
    var w0 := Start(E2b, now);
    var w1 := Step(w0, ClaimHost);
    var w2 := Step(w1, UserRequest(Refresh));
    var w3 := Step(w2, ClaimHost);
    assert w3.workers == [Claimed, Claimed];
    TwoAreActive(w3.workers);
    Hop(w2, ClaimHost, w3, [], w3);
    Hop(w1, UserRequest(Refresh), w2, [ClaimHost] + [], w3);
    Hop(w0, ClaimHost, w1, [UserRequest(Refresh)] + ([ClaimHost] + []), w3);
  }

  // A host is made ready by its first worker.
  function Provision(id: string): seq<Action> {
    Creation(0, id) + ([Attach(0)] + ([Finish(0)] + []))
  }

  // Ready, with a sandbox and nothing scheduled; all workers so far are done.
  predicate Settled(w: World, workers: nat) {
    && w.row.kind == E2b && w.row.desired == WantReady && w.row.observed == Ready
    && w.row.sandbox.Some? && w.row.deletedAt.None?
    && w.row.reconcileAfter.None? && w.row.leaseUntil.None?
    && |w.workers| == workers && (forall i | 0 <= i < workers :: w.workers[i] == Done)
  }

  lemma {:induction false} ProvisionRun(now: nat, id: string)
    ensures var w := Run(Start(E2b, now), Provision(id));
      && Settled(w, 1) && w.checked == 0 && w.operations == 0 && w.snapshots == []
      && w.row.attempts == 0
      && w.tally.requests == 0 && w.tally.uses == 0 && w.tally.operationFailures == 0 && w.tally.expiries == 0
  {
    var w0 := Start(E2b, now);
    assert Wasted(w0, 0, 0);
    var w := ProvisionFirst(now, id);
    var w1 := Step(w, Attach(0));
    var w2 := Step(w1, Finish(0));
    Hop(w1, Finish(0), w2, [], w2);
    Hop(w, Attach(0), w1, [Finish(0)] + [], w2);
    RunAppend(w0, Creation(0, id), [Attach(0)] + ([Finish(0)] + []));
  }

  lemma {:induction false} ProvisionFirst(now: nat, id: string) returns (w: World)
    ensures w == Run(Start(E2b, now), Creation(0, id))
    ensures w.workers == [Attaching(WantReady, id)] && w.tally.requests == 0 && w.tally.uses == 0
    ensures w.row == Claim(Created(E2b, now), now) && w.checked == 0 && w.operations == 0 && w.snapshots == []
    ensures w.tally.operationFailures == 0 && w.tally.expiries == 0
  {
    var w0 := Start(E2b, now);
    var w1 := Step(w0, ClaimHost);
    var w2 := Step(w1, ReadWork(0));
    w := Step(w2, CreateSandbox(0, Made(id)));
    assert w1.workers == [Claimed] && w2.workers == [Creating(WantReady)];
    Hop(w2, CreateSandbox(0, Made(id)), w, [], w);
    Hop(w1, ReadWork(0), w2, [CreateSandbox(0, Made(id))] + [], w);
    Hop(w0, ClaimHost, w1, [ReadWork(0)] + ([CreateSandbox(0, Made(id))] + []), w);
  }

  function Outage(): P.ProviderError { P.ProviderError(P.Unavailable, true, false) }

  // Two operations are under way; both fail, the second after a worker came.
  function Outages(): seq<Action> {
    [Check] + ([Check] + ([Forward] + ([Forward] + ([OperationFails(Outage())] + ([Tick(1)] + ([ClaimHost]
    + ([OperationFails(Outage())] + ([Tick(2)] + ([ClaimHost] + [])))))))))
  }

  lemma {:induction false} OutagesRun(w0: World)
    requires Settled(w0, 1) && w0.checked == 0 && w0.operations == 0 && w0.row.attempts == 0
    ensures var w := Run(w0, Outages());
      && w.workers == [Done, Claimed, Claimed]
      && w.tally.requests == w0.tally.requests && w.tally.uses == w0.tally.uses
      && w.tally.operationFailures == w0.tally.operationFailures + 2 && w.tally.expiries == w0.tally.expiries
  {
    var w1 := Step(Step(Step(Step(w0, Check), Check), Forward), Forward);
    assert w1 == w0.(operations := 2);
    var w2 := Step(w1, OperationFails(Outage()));
    var w3 := Step(w2, Tick(1));
    var w4 := Step(w3, ClaimHost);
    assert w4.workers == [Done, Claimed];
    var w5 := Step(w4, OperationFails(Outage()));
    var w6 := Step(w5, Tick(2));
    var w := Step(w6, ClaimHost);
    assert w.workers == [Done, Claimed, Claimed];
    var r6 := [ClaimHost] + [];
    Hop(w6, ClaimHost, w, [], w);
    var r5 := [Tick(2)] + r6;
    Hop(w5, Tick(2), w6, r6, w);
    var r4 := [OperationFails(Outage())] + r5;
    Hop(w4, OperationFails(Outage()), w5, r5, w);
    var r3 := [ClaimHost] + r4;
    Hop(w3, ClaimHost, w4, r4, w);
    var r2 := [Tick(1)] + r3;
    Hop(w2, Tick(1), w3, r3, w);
    var r1 := [OperationFails(Outage())] + r2;
    Hop(w1, OperationFails(Outage()), w2, r2, w);
    SendTwo(w0, r1, w);
  }

  lemma {:induction false} SendTwo(w0: World, rest: seq<Action>, last: World)
    requires Settled(w0, 1) && w0.checked == 0 && w0.operations == 0
    requires Run(w0.(operations := 2), rest) == last
    ensures Run(w0, [Check] + ([Check] + ([Forward] + ([Forward] + rest)))) == last
  {
    Hop(w0.(checked := 1, operations := 1), Forward, w0.(operations := 2), rest, last);
    Hop(w0.(checked := 2), Forward, w0.(checked := 1, operations := 1), [Forward] + rest, last);
    Hop(w0.(checked := 1), Check, w0.(checked := 2), [Forward] + ([Forward] + rest), last);
    Hop(w0, Check, w0.(checked := 1), [Check] + ([Forward] + ([Forward] + rest)), last);
  }

  /** Failed operations are enough. */
  lemma OutageLetsASecondWorkerIn(now: nat, id: string)
    ensures TwoActive(Run(Start(E2b, now), Provision(id) + Outages()), 0, 0, 2, 0)
  {
    ProvisionRun(now, id);
    OutagesRun(Run(Start(E2b, now), Provision(id)));
    RunAppend(Start(E2b, now), Provision(id), Outages());
    TwoAreActive([Done, Claimed, Claimed]);
  }

  // An operation is under way while a snapshot pauses the host; the host is used and
  // a worker comes.
  function UseOnce(): seq<Action> {
    [CreateSnapshot] + ([SnapshotReady(0)] + ([UseWhilePaused] + ([ClaimHost] + [])))
  }

  // The operation succeeds, and the same happens again.
  function UseTwice(): seq<Action> {
    [OperationSucceeds] + ([CreateSnapshot] + ([SnapshotReady(1)] + ([UseWhilePaused] + ([ClaimHost] + []))))
  }

  predicate Resuming(w: World, row: HostRow) {
    && w.row.kind == E2b && w.row.desired == WantReady && w.row.deletedAt.None? && w.row.sandbox == row.sandbox
    && w.row.leaseUntil.Some?
  }

  lemma {:induction false} UseOnceRun(w0: World)
    requires Settled(w0, 1) && w0.snapshots == [] && w0.operations == 1
    ensures var w := Run(w0, UseOnce());
      && Resuming(w, w0.row) && w.workers == [Done, Claimed] && w.operations == 1
      && w.snapshots == [Snapshot(true, false)]
      && w.tally.uses == w0.tally.uses + 1
      && w.tally.requests == w0.tally.requests
      && w.tally.operationFailures == w0.tally.operationFailures && w.tally.expiries == w0.tally.expiries
  {
    var w1 := w0.(snapshots := [Snapshot(true, true)]);
    var w2 := w0.(row := PausedBySnapshot(w0.row), snapshots := [Snapshot(true, false)]);
    SnapshotPauses(w0);
    var w3 := Step(w2, UseWhilePaused);
    var w := Step(w3, ClaimHost);
    Hop(w3, ClaimHost, w, [], w);
    Hop(w2, UseWhilePaused, w3, [ClaimHost] + [], w);
    Hop(w1, SnapshotReady(0), w2, [UseWhilePaused] + ([ClaimHost] + []), w);
    Hop(w0, CreateSnapshot, w1, [SnapshotReady(0)] + ([UseWhilePaused] + ([ClaimHost] + [])), w);
  }

  lemma SnapshotPauses(w0: World)
    requires Settled(w0, 1) && w0.snapshots == []
    ensures
      var w1 := w0.(snapshots := [Snapshot(true, true)]);
      && Step(w0, CreateSnapshot) == w1
      && Step(w1, SnapshotReady(0)) == w0.(row := PausedBySnapshot(w0.row), snapshots := [Snapshot(true, false)])
  {}

  lemma {:induction false} UseTwiceRun(w0: World)
    requires Resuming(w0, w0.row) && w0.workers == [Done, Claimed] && w0.operations == 1
    requires w0.snapshots == [Snapshot(true, false)]
    ensures var w := Run(w0, UseTwice());
      && w.workers == [Done, Claimed, Claimed]
      && w.tally.uses == w0.tally.uses + 1
      && w.tally.requests == w0.tally.requests
      && w.tally.operationFailures == w0.tally.operationFailures && w.tally.expiries == w0.tally.expiries
  {
    var w1 := Step(w0, OperationSucceeds);
    var w2 := Step(w1, CreateSnapshot);
    var w3 := Step(w2, SnapshotReady(1));
    assert w3.snapshots == [Snapshot(true, false), Snapshot(true, false)];
    var w4 := Step(w3, UseWhilePaused);
    var w := Step(w4, ClaimHost);
    assert w.workers == [Done, Claimed, Claimed];
    Hop(w4, ClaimHost, w, [], w);
    Hop(w3, UseWhilePaused, w4, [ClaimHost] + [], w);
    Hop(w2, SnapshotReady(1), w3, [UseWhilePaused] + ([ClaimHost] + []), w);
    Hop(w1, CreateSnapshot, w2, [SnapshotReady(1)] + ([UseWhilePaused] + ([ClaimHost] + [])), w);
    Hop(w0, OperationSucceeds, w1, [CreateSnapshot] + ([SnapshotReady(1)] + ([UseWhilePaused] + ([ClaimHost] + []))), w);
  }

  function Sending(): seq<Action> {
    [Check] + ([Forward] + [])
  }

  /** Uses of a host that snapshots pause are enough. */
  lemma {:induction false} UseLetsASecondWorkerIn(now: nat, id: string)
    ensures TwoActive(Run(Start(E2b, now), Provision(id) + (Sending() + (UseOnce() + UseTwice()))), 0, 2, 0, 0)
  {
    var start := Start(E2b, now);
    ProvisionRun(now, id);
    var w := Run(start, Provision(id));
    var w2 := w.(operations := 1);
    Hop(w.(checked := 1), Forward, w2, [], w2);
    Hop(w, Check, w.(checked := 1), [Forward] + [], w2);
    UseOnceRun(w2);
    UseTwiceRun(Run(w2, UseOnce()));
    RunAppend(w2, UseOnce(), UseTwice());
    RunAppend(w, Sending(), UseOnce() + UseTwice());
    RunAppend(start, Provision(id), Sending() + (UseOnce() + UseTwice()));
    TwoAreActive([Done, Claimed, Claimed]);
  }

  // ---------- deletion ----------

  // A settled host is deleted.
  function Deletion(): seq<Action> {
    [UserRequest(Delete)] + ([ClaimHost] + ([ReadWork(1)] + ([Finish(1)] + [])))
  }

  lemma {:induction false} DeletionRun(w0: World)
    requires Settled(w0, 1)
    ensures var w := Run(w0, Deletion());
      w.row.deletedAt.Some? && w.row.observed == Deleted && w.checked == w0.checked && w.operations == w0.operations
  {
    var w1 := Step(w0, UserRequest(Delete));
    var w2 := Step(w1, ClaimHost);
    assert w2.workers == [Done, Claimed];
    var w3 := Step(w2, ReadWork(1));
    assert w3.workers[1].Settling? && w3.workers[1].desired == WantDeleted;
    var w := Step(w3, Finish(1));
    Hop(w3, Finish(1), w, [], w);
    Hop(w2, ReadWork(1), w3, [Finish(1)] + [], w);
    Hop(w1, ClaimHost, w2, [ReadWork(1)] + ([Finish(1)] + []), w);
    Hop(w0, UserRequest(Delete), w1, [ClaimHost] + ([ReadWork(1)] + ([Finish(1)] + [])), w);
  }

  /** An operation that passed the check is sent even when the host has been deleted
      in between. */
  lemma {:induction false} CheckedOperationOutlivesDeletion(now: nat, id: string)
    ensures
      var w := Run(Start(E2b, now), Provision(id) + ([Check] + (Deletion() + ([Forward] + []))));
      w.row.deletedAt.Some? && w.row.observed == Deleted && w.operations == 1
  {
    var start := Start(E2b, now);
    ProvisionRun(now, id);
    var w0 := Run(start, Provision(id));
    var w1 := w0.(checked := 1);
    DeletionRun(w1);
    var w2 := Run(w1, Deletion());
    var w := w2.(checked := 0, operations := 1);
    Hop(w2, Forward, w, [], w);
    RunAppend(w1, Deletion(), [Forward] + []);
    Hop(w0, Check, w1, Deletion() + ([Forward] + []), w);
    RunAppend(start, Provision(id), [Check] + (Deletion() + ([Forward] + [])));
  }

  // ---------- a lease left behind ----------

  // A snapshot completes while a worker holds the lease, and the worker crashes.
  function Leftover(): seq<Action> {
    [CreateSnapshot] + ([UserRequest(Refresh)] + ([ClaimHost] + ([SnapshotReady(0)] + ([Crash(1)] + []))))
  }

  lemma {:induction false} LeftoverRun(w0: World)
    requires Settled(w0, 1) && w0.snapshots == []
    ensures var w := Run(w0, Leftover());
      w.row.leaseUntil.Some? && w.row.reconcileAfter.None? && w.row.observed == Paused && w.workers == [Done, Done]
  {
    var w1 := w0.(snapshots := [Snapshot(true, true)]);
    var w3 := Step(Step(w1, UserRequest(Refresh)), ClaimHost);
    ClaimedBesideSnapshot(w0);
    var w4 := Step(w3, SnapshotReady(0));
    var w := Step(w4, Crash(1));
    PausedBesideWorker(w3);
    Hop(w4, Crash(1), w, [], w);
    Hop(w3, SnapshotReady(0), w4, [Crash(1)] + [], w);
    Hop(Step(w1, UserRequest(Refresh)), ClaimHost, w3, [SnapshotReady(0)] + ([Crash(1)] + []), w);
    Hop(w1, UserRequest(Refresh), Step(w1, UserRequest(Refresh)),
        [ClaimHost] + ([SnapshotReady(0)] + ([Crash(1)] + [])), w);
    Hop(w0, CreateSnapshot, w1, [UserRequest(Refresh)] + ([ClaimHost] + ([SnapshotReady(0)] + ([Crash(1)] + []))), w);
  }

  predicate ClaimedWithSnapshot(w: World) {
    && w.row.kind == E2b && w.row.deletedAt.None? && w.row.leaseUntil.Some?
    && w.workers == [Done, Claimed] && w.snapshots == [Snapshot(true, true)]
  }

  lemma ClaimedBesideSnapshot(w0: World)
    requires Settled(w0, 1) && w0.snapshots == []
    ensures var w1 := w0.(snapshots := [Snapshot(true, true)]);
      && Step(w0, CreateSnapshot) == w1
      && ClaimedWithSnapshot(Step(Step(w1, UserRequest(Refresh)), ClaimHost))
  {
    var w3 := Step(Step(w0.(snapshots := [Snapshot(true, true)]), UserRequest(Refresh)), ClaimHost);
    assert w3.workers == [Done, Claimed];
  }

  lemma PausedBesideWorker(w: World)
    requires ClaimedWithSnapshot(w)
    ensures var last := Step(Step(w, SnapshotReady(0)), Crash(1));
      && last.row.leaseUntil.Some? && last.row.reconcileAfter.None? && last.row.observed == Paused
      && last.workers == [Done, Done]
  {}

  /** A host can come to rest with a lease, if a snapshot completes after the last
      request. */
  lemma {:induction false} SnapshotLeavesALease(now: nat, id: string)
    ensures
      var w := Run(Start(E2b, now), Provision(id) + Leftover());
      Quiet(w) && w.row.leaseUntil.Some?
  {
    var start := Start(E2b, now);
    ProvisionRun(now, id);
    var w0 := Run(start, Provision(id));
    LeftoverRun(w0);
    var w := Run(w0, Leftover());
    RunAppend(start, Provision(id), Leftover());
    NoneActive(w.workers);
    forall seconds: nat
      ensures Open(Step(w, Tick(seconds))) == 0
    {
    }
  }
}
