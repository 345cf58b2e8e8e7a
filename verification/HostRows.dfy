/**
 One execution host's database row and the guarded updates on it. Every update here
 is one SQL statement or one transaction, hence atomic; recording a failure takes
 two statements and so two updates. `now` is the time at which an update runs.
 */
module HostRows {
  import opened Wrappers

  datatype Kind = E2b | Registered

  datatype Desired = WantReady | WantPaused | WantDeleted

  datatype Observed =
    | Provisioning | Ready | Pausing | Paused | Resuming
    | Unavailable | Deleting | Deleted | Failed | Lost

  // The execution_hosts row with the columns of its e2b_hosts row that workers
  // read. Lease owners, status texts and descriptors are never read back.
  datatype HostRow = HostRow(
    kind: Kind,
    desired: Desired,
    observed: Observed,
    statusRetryable: bool,
    reconcileAfter: Option<nat>,
    attempts: nat,
    leaseUntil: Option<nat>,
    deletedAt: Option<nat>,
    revision: nat,
    sandbox: Option<string>,
    creationAmbiguous: bool)

  const LEASE_SECONDS := 300

  function Created(kind: Kind, now: nat): HostRow {
    HostRow(kind, WantReady, Provisioning, false, if kind == E2b then Some(now) else None,
            0, None, None, 1, None, false)
  }

  // Seconds until a failed reconciliation is tried again.
  function Backoff(attempts: nat): nat {
    if attempts == 0 then 1 else if attempts == 1 then 2 else if attempts == 2 then 4
    else if attempts == 3 then 8 else if attempts == 4 then 16 else 32
  }

  function RequestState(row: HostRow, desired: Desired, observed: Observed, now: nat): HostRow {
    if row.deletedAt.Some? then row
    else row.(desired := desired, observed := observed, statusRetryable := false,
              reconcileAfter := Some(now), leaseUntil := None, revision := row.revision + 1)
  }

  function ResumeOnUse(row: HostRow, snapshotCreating: bool, now: nat): HostRow {
    if row.kind == E2b && row.desired == WantPaused && row.observed == Paused
       && row.deletedAt.None? && !snapshotCreating
    then row.(desired := WantReady, observed := Resuming, reconcileAfter := Some(now),
              revision := row.revision + 1)
    else row
  }

  function ScheduleReconcile(row: HostRow, now: nat): HostRow {
    if row.deletedAt.Some? then row
    else row.(reconcileAfter := Some(now), leaseUntil := None, revision := row.revision + 1)
  }

  predicate Claimable(row: HostRow, now: nat) {
    && row.kind == E2b
    && row.reconcileAfter.Some? && row.reconcileAfter.value <= now
    && (row.leaseUntil.None? || row.leaseUntil.value < now)
  }

  function Claim(row: HostRow, now: nat): HostRow {
    if Claimable(row, now) then row.(leaseUntil := Some(now + LEASE_SECONDS)) else row
  }

  function AttachSandbox(row: HostRow, sandbox: string): HostRow {
    if row.sandbox.Some? then row
    else row.(sandbox := Some(sandbox), creationAmbiguous := false)
  }

  function Complete(row: HostRow, desired: Desired, now: nat): HostRow {
    if row.desired != desired then row
    else
      row.(
        observed := (match desired case WantReady => Ready case WantPaused => Paused case WantDeleted => Deleted),
        deletedAt := if desired == WantDeleted then Some(now) else row.deletedAt,
        statusRetryable := false, reconcileAfter := None, attempts := 0, leaseUntil := None,
        revision := row.revision + 1)
  }

  // Does a failure recorded for this desired state still match the row?
  predicate Matches(row: HostRow, expected: Option<Desired>) {
    expected.Some? ==> row.desired == expected.value
  }

  // The first statement of fail_host ...
  function Fail(row: HostRow, expected: Option<Desired>, observed: Observed, retryable: bool, now: nat): HostRow {
    if !Matches(row, expected) then row
    else
      row.(
        observed := observed, statusRetryable := retryable, attempts := row.attempts + 1,
        reconcileAfter := if retryable then Some(now + Backoff(row.attempts)) else None,
        leaseUntil := None, revision := row.revision + 1)
  }

  // ... and the second, if the first matched and the outcome is ambiguous.
  function MarkAmbiguous(row: HostRow): HostRow {
    row.(creationAmbiguous := true)
  }

  // The source host of a snapshot that became ready.
  function PausedBySnapshot(row: HostRow): HostRow {
    if row.deletedAt.Some? then row
    else row.(desired := WantPaused, observed := Paused, statusRetryable := false,
              reconcileAfter := None, revision := row.revision + 1)
  }

  function RegisteredConnected(row: HostRow): HostRow {
    if row.kind == Registered && row.desired == WantReady && row.deletedAt.None?
    then row.(observed := Ready, statusRetryable := false, revision := row.revision + 1)
    else row
  }

  function RegisteredUnavailable(row: HostRow): HostRow {
    if row.kind == Registered && row.desired == WantReady && row.deletedAt.None?
    then row.(observed := Unavailable, statusRetryable := true, revision := row.revision + 1)
    else row
  }

  function DeleteRegistered(row: HostRow, now: nat): HostRow {
    if row.kind == Registered && row.deletedAt.None?
    then row.(desired := WantDeleted, observed := Deleted, deletedAt := Some(now),
              statusRetryable := false, revision := row.revision + 1)
    else row
  }

  /** The row as the gateway updates it in place. */
  class HostRecord {
    const kind: Kind
    var desired: Desired
    var observed: Observed
    var statusRetryable: bool
    var reconcileAfter: Option<nat>
    var attempts: nat
    var leaseUntil: Option<nat>
    var deletedAt: Option<nat>
    var revision: nat
    var sandbox: Option<string>
    var creationAmbiguous: bool

    function Row(): HostRow
      reads this
    {
      HostRow(kind, desired, observed, statusRetryable, reconcileAfter, attempts,
              leaseUntil, deletedAt, revision, sandbox, creationAmbiguous)
    }

    constructor (kind: Kind, now: nat)
      ensures Row() == Created(kind, now)
    {
      this.kind := kind;
      desired, observed, statusRetryable := WantReady, Provisioning, false;
      reconcileAfter := if kind == E2b then Some(now) else None;
      attempts, leaseUntil, deletedAt, revision := 0, None, None, 1;
      sandbox, creationAmbiguous := None, false;
    }

    method RequestHostState(wanted: Desired, seen: Observed, now: nat) returns (updated: bool)
      modifies this
      ensures Row() == RequestState(old(Row()), wanted, seen, now)
      ensures updated <==> old(deletedAt).None?
    {
      if deletedAt.Some? {
        return false;
      }
      desired, observed, statusRetryable := wanted, seen, false;
      reconcileAfter, leaseUntil, revision := Some(now), None, revision + 1;
      return true;
    }

    method ResumeHostOnUse(snapshotCreating: bool, now: nat)
      modifies this
      ensures Row() == ResumeOnUse(old(Row()), snapshotCreating, now)
    {
      if kind == E2b && desired == WantPaused && observed == Paused && deletedAt.None? && !snapshotCreating {
        desired, observed, reconcileAfter, revision := WantReady, Resuming, Some(now), revision + 1;
      }
    }

    method ScheduleHostReconcile(now: nat) returns (updated: bool)
      modifies this
      ensures Row() == ScheduleReconcile(old(Row()), now)
      ensures updated <==> old(deletedAt).None?
    {
      if deletedAt.Some? {
        return false;
      }
      reconcileAfter, leaseUntil, revision := Some(now), None, revision + 1;
      return true;
    }

    method ClaimHost(now: nat) returns (claimed: bool)
      modifies this`leaseUntil
      ensures Row() == Claim(old(Row()), now)
      ensures claimed <==> Claimable(old(Row()), now)
    {
      claimed := Claimable(Row(), now);
      if claimed {
        leaseUntil := Some(now + LEASE_SECONDS);
      }
    }

    method AttachProviderHost(id: string)
      modifies this
      ensures Row() == AttachSandbox(old(Row()), id)
    {
      if sandbox.None? {
        sandbox, creationAmbiguous := Some(id), false;
      }
    }

    method CompleteHost(wanted: Desired, now: nat)
      modifies this
      ensures Row() == Complete(old(Row()), wanted, now)
    {
      if desired == wanted {
        if wanted == WantReady {
          observed := Ready;
        } else if wanted == WantPaused {
          observed := Paused;
        } else {
          observed, deletedAt := Deleted, Some(now);
        }
        statusRetryable, reconcileAfter, attempts := false, None, 0;
        leaseUntil, revision := None, revision + 1;
      }
    }

    method RecordFailure(expected: Option<Desired>, seen: Observed, retryable: bool, now: nat)
      returns (updated: bool)
      modifies this
      ensures Row() == Fail(old(Row()), expected, seen, retryable, now)
      ensures updated <==> Matches(old(Row()), expected)
    {
      updated := expected.None? || desired == expected.value;
      if updated {
        observed, statusRetryable := seen, retryable;
        reconcileAfter := if retryable then Some(now + Backoff(attempts)) else None;
        attempts, leaseUntil, revision := attempts + 1, None, revision + 1;
      }
    }

    method MarkCreationAmbiguous()
      modifies this`creationAmbiguous
      ensures Row() == MarkAmbiguous(old(Row()))
    {
      creationAmbiguous := true;
    }

    // fail_host, when nothing comes between its two statements.
    method FailHost(expected: Option<Desired>, seen: Observed, retryable: bool, ambiguous: bool, now: nat)
      modifies this
      ensures
        var failed := Fail(old(Row()), expected, seen, retryable, now);
        Row() == if Matches(old(Row()), expected) && ambiguous then MarkAmbiguous(failed) else failed
    {
      var updated := RecordFailure(expected, seen, retryable, now);
      if ambiguous && updated {
        MarkCreationAmbiguous();
      }
    }

    method PauseAfterSnapshot()
      modifies this
      ensures Row() == PausedBySnapshot(old(Row()))
    {
      if deletedAt.None? {
        desired, observed, statusRetryable := WantPaused, Paused, false;
        reconcileAfter, revision := None, revision + 1;
      }
    }

    // A daemon's connection, or the end of its current one.
    method MarkRegistered(connected: bool)
      modifies this
      ensures Row() == if connected then RegisteredConnected(old(Row())) else RegisteredUnavailable(old(Row()))
    {
      if kind == Registered && desired == WantReady && deletedAt.None? {
        observed := if connected then Ready else Unavailable;
        statusRetryable, revision := !connected, revision + 1;
      }
    }

    method DeleteRegisteredHost(now: nat) returns (deleted: bool)
      modifies this
      ensures Row() == DeleteRegistered(old(Row()), now)
      ensures deleted <==> kind == Registered && old(deletedAt).None?
    {
      deleted := kind == Registered && deletedAt.None?;
      if deleted {
        desired, observed, deletedAt := WantDeleted, Deleted, Some(now);
        statusRetryable, revision := false, revision + 1;
      }
    }
  }
}
