/**
 Idempotent creation: transactions that create a resource under one (scope, key)
 pair, serialized by an advisory lock, committing or rolling back.
 */
module Idempotency {
  import opened Wrappers

  const RECORD_SECONDS: nat := 86400 // 24 hours

  datatype Record = Record(requestHash: string, resource: nat, expiresAt: nat)

  // The committed rows for the key: at most one record, and the resources
  // inserted under it, oldest first, each with the start time of its transaction.
  datatype Table = Table(record: Option<Record>, resources: seq<Created>)

  datatype Created = Created(resource: nat, requestHash: string, startedAt: nat)

  datatype Reply =
    | Answer(resource: nat, replayed: bool)
    | Conflict
    | Refused // a check on the mutable state of another row failed

  datatype Lookup = Found(resource: nat) | Mismatch | Fresh(table: Table)

  // lock_idempotency, after the lock is held. now() is the transaction's start.
  function LockAndLookup(table: Table, requestHash: string, startedAt: nat): Lookup {
    if table.record.Some? && table.record.value.expiresAt > startedAt then
      if table.record.value.requestHash != requestHash then Mismatch
      else Found(table.record.value.resource)
    else Fresh(table.(record := None))
  }

  // complete_idempotency, next to the insertion of the resource.
  function Insert(table: Table, requestHash: string, resource: nat, startedAt: nat): Table {
    Table(Some(Record(requestHash, resource, startedAt + RECORD_SECONDS)),
          table.resources + [Created(resource, requestHash, startedAt)])
  }

  /** The transaction's view of the rows of one key, updated in place. */
  class IdempotencyRows {
    var record: Option<Record>
    var resources: seq<Created>

    function View(): Table
      reads this
    {
      Table(record, resources)
    }

    constructor (table: Table)
      ensures View() == table
    {
      record, resources := table.record, table.resources;
    }

    method LockIdempotency(requestHash: string, startedAt: nat) returns (existing: Lookup)
      modifies this`record
      ensures existing == LockAndLookup(old(View()), requestHash, startedAt)
      ensures View() == if existing.Fresh? then existing.table else old(View())
    {
      if record.Some? && record.value.expiresAt > startedAt {
        return if record.value.requestHash != requestHash then Mismatch else Found(record.value.resource);
      }
      record := None;
      return Fresh(Table(None, resources));
    }

    // create_e2b_host, create_registered_host and create_snapshot: the lookup
    // comes first, then the check of mutable state, then the insertions.
    method Create(id: nat, requestHash: string, startedAt: nat, admissible: bool)
      returns (reply: Reply, commit: bool)
      modifies this
      ensures reply == ReplyOf(old(View()), id, requestHash, startedAt, admissible)
      ensures commit <==> reply.Answer?
      ensures commit ==> View() == Committed(old(View()), id, requestHash, startedAt, admissible)
    {
      var existing := LockIdempotency(requestHash, startedAt);
      match existing
      case Mismatch => return Conflict, false;
      case Found(resource) => return Answer(resource, true), true;
      case Fresh(_) =>
        if !admissible {
          return Refused, false;
        }
        resources := resources + [Created(id, requestHash, startedAt)];
        record := Some(Record(requestHash, id, startedAt + RECORD_SECONDS));
        return Answer(id, false), true;
    }
  }

  function ReplyOf(table: Table, id: nat, requestHash: string, startedAt: nat, admissible: bool): Reply {
    match LockAndLookup(table, requestHash, startedAt)
    case Mismatch => Conflict
    case Found(resource) => Answer(resource, true)
    case Fresh(_) => if admissible then Answer(id, false) else Refused
  }

  // What the transaction would commit.
  function Committed(table: Table, id: nat, requestHash: string, startedAt: nat, admissible: bool): Table {
    match LockAndLookup(table, requestHash, startedAt)
    case Mismatch => table
    case Found(_) => table
    case Fresh(cleared) =>
      if admissible then Insert(cleared, requestHash, id, startedAt) else table
  }

  // ---------- interleaved transactions ----------

  // A transaction waits for the lock, then works on its own view until it ends.
  datatype Transaction =
    | Waiting(id: nat, requestHash: string, startedAt: nat)
    | Holding(id: nat, requestHash: string, startedAt: nat, reply: Reply, view: Table)
    | Ended

  datatype World = World(now: nat, table: Table, transactions: seq<Transaction>, log: seq<Event>)

  // A committed call.
  datatype Event = Event(requestHash: string, startedAt: nat, reply: Reply)

  datatype Action =
    | Tick(seconds: nat)
    | Begin(id: nat, requestHash: string)
    | Lock(transaction: nat, admissible: bool) // the host's state, as read under the lock
    | Commit(transaction: nat)
    | Rollback(transaction: nat)               // an error, a lost connection, or a refusal

  predicate LockIsFree(w: World) {
    forall transaction | transaction in w.transactions :: !transaction.Holding?
  }

  // A disabled action changes nothing.
  function Step(w: World, action: Action): World {
    match action
    case Tick(seconds) => w.(now := w.now + seconds)
    case Begin(id, requestHash) =>
      w.(transactions := w.transactions + [Waiting(id, requestHash, w.now)])
    case Lock(i, admissible) =>
      if i >= |w.transactions| || !w.transactions[i].Waiting? || !LockIsFree(w) then w
      else
        var t := w.transactions[i];
        w.(transactions := w.transactions[i :=
          Holding(t.id, t.requestHash, t.startedAt,
                  ReplyOf(w.table, t.id, t.requestHash, t.startedAt, admissible),
                  Committed(w.table, t.id, t.requestHash, t.startedAt, admissible))])
    case Commit(i) =>
      if i >= |w.transactions| || !w.transactions[i].Holding? || !w.transactions[i].reply.Answer? then w
      else
        var t := w.transactions[i];
        w.(table := t.view, transactions := w.transactions[i := Ended],
           log := w.log + [Event(t.requestHash, t.startedAt, t.reply)])
    case Rollback(i) =>
      if i >= |w.transactions| then w
      else w.(transactions := w.transactions[i := Ended])
  }

  function Run(actions: seq<Action>): World {
    if actions == [] then World(0, Table(None, []), [], [])
    else Step(Run(actions[..|actions| - 1]), actions[|actions| - 1])
  }

  // ---------- the invariant ----------

  function Last(resources: seq<Created>): Created
    requires resources != []
  {
    resources[|resources| - 1]
  }

  // The record, when there is one, is that of the last resource; and resources
  // are a record's lifetime apart.
  ghost predicate Sound(table: Table) {
    && (table.record.None? <==> table.resources == [])
    && (table.record.Some? ==>
          var last := Last(table.resources);
          table.record.value == Record(last.requestHash, last.resource, last.startedAt + RECORD_SECONDS))
    && Spaced(table.resources)
  }

  ghost predicate Spaced(resources: seq<Created>) {
    forall i, j | 0 <= i < j < |resources| ::
      resources[i].startedAt + RECORD_SECONDS <= resources[j].startedAt
  }

  // A held view is one transaction ahead of the committed rows.
  ghost predicate InStep(w: World, t: Transaction) {
    t.Holding? ==>
      exists admissible ::
        && t.reply == ReplyOf(w.table, t.id, t.requestHash, t.startedAt, admissible)
        && t.view == Committed(w.table, t.id, t.requestHash, t.startedAt, admissible)
  }

  ghost predicate Exclusive(transactions: seq<Transaction>) {
    forall i, j | 0 <= i < j < |transactions| ::
      !(transactions[i].Holding? && transactions[j].Holding?)
  }

  lemma CommittedIsSound(table: Table, id: nat, requestHash: string, startedAt: nat, admissible: bool)
    requires Sound(table)
    ensures Sound(Committed(table, id, requestHash, startedAt, admissible))
  {
    var after := Committed(table, id, requestHash, startedAt, admissible);
    if after != table {
      forall i, j | 0 <= i < j < |after.resources|
        ensures after.resources[i].startedAt + RECORD_SECONDS <= after.resources[j].startedAt
      {
        if j == |table.resources| && i < j - 1 {
          assert table.resources[i].startedAt <= Last(table.resources).startedAt;
        }
      }
    }
  }

  // A committed call was answered with the resource made for its very request,
  // within that resource's lifetime.
  ghost predicate Answered(resources: seq<Created>, event: Event) {
    && event.reply.Answer?
    && exists k :: 0 <= k < |resources|
         && resources[k].resource == event.reply.resource
         && resources[k].requestHash == event.requestHash
         && event.startedAt < resources[k].startedAt + RECORD_SECONDS
         && (!event.reply.replayed ==> resources[k].startedAt == event.startedAt)
  }

  ghost predicate Invariant(w: World) {
    && Sound(w.table) && Exclusive(w.transactions)
    && (forall t | t in w.transactions :: InStep(w, t))
    && (forall event | event in w.log :: Answered(w.table.resources, event))
  }

  lemma AnswerIsSound(table: Table, id: nat, requestHash: string, startedAt: nat, admissible: bool)
    requires Sound(table) && ReplyOf(table, id, requestHash, startedAt, admissible).Answer?
    ensures
      var after := Committed(table, id, requestHash, startedAt, admissible);
      && Answered(after.resources, Event(requestHash, startedAt, ReplyOf(table, id, requestHash, startedAt, admissible)))
      && table.resources <= after.resources
  {
    var after := Committed(table, id, requestHash, startedAt, admissible);
    var made := after.resources[|after.resources| - 1];
    assert made.requestHash == requestHash;
  }

  lemma StillAnswered(before: seq<Created>, after: seq<Created>, event: Event)
    requires Answered(before, event) && before <= after
    ensures Answered(after, event)
  {
    var k :| 0 <= k < |before|
      && before[k].resource == event.reply.resource
      && before[k].requestHash == event.requestHash
      && event.startedAt < before[k].startedAt + RECORD_SECONDS
      && (!event.reply.replayed ==> before[k].startedAt == event.startedAt);
    assert after[k] == before[k];
  }

  lemma StepInvariant(w: World, action: Action)
    requires Invariant(w)
    ensures Invariant(Step(w, action))
  {
    var next := Step(w, action);
    match action {
      case Lock(i, admissible) =>
        if next != w {
          var t := next.transactions[i];
          assert t.reply == ReplyOf(w.table, t.id, t.requestHash, t.startedAt, admissible);
          forall k | 0 <= k < |w.transactions|
            ensures !w.transactions[k].Holding?
          {
            assert w.transactions[k] in w.transactions;
          }
        }
      case Commit(i) =>
        if next != w {
          var t := w.transactions[i];
          assert t in w.transactions;
          var admissible :| t.reply == ReplyOf(w.table, t.id, t.requestHash, t.startedAt, admissible)
            && t.view == Committed(w.table, t.id, t.requestHash, t.startedAt, admissible);
          CommittedIsSound(w.table, t.id, t.requestHash, t.startedAt, admissible);
          AnswerIsSound(w.table, t.id, t.requestHash, t.startedAt, admissible);
          forall event | event in w.log
            ensures Answered(next.table.resources, event)
          {
            StillAnswered(w.table.resources, next.table.resources, event);
          }
        }
      case _ =>
    }
    forall t | t in next.transactions
      ensures InStep(next, t)
    {
      if t in w.transactions {
        assert InStep(w, t);
      }
    }
  }

  lemma {:induction false} RunInvariant(actions: seq<Action>)
    ensures Invariant(Run(actions))
  {
    if actions != [] {
      RunInvariant(actions[..|actions| - 1]);
      StepInvariant(Run(actions[..|actions| - 1]), actions[|actions| - 1]);
    }
  }

  // ---------- the theorems ----------

  /** Over every interleaving, two resources made under one key are at least a
      record's lifetime apart, and every committed call got the resource that was
      made for the same request, within its lifetime. */
  lemma OneResourcePerLifetime(actions: seq<Action>)
    ensures Spaced(Run(actions).table.resources)
    ensures forall event | event in Run(actions).log :: Answered(Run(actions).table.resources, event)
  {
    RunInvariant(actions);
  }

  /** While the last resource's record lives, every call under its key is decided
      by it alone, whatever has become of the rows the call would check: the same
      request gets that resource, any other conflicts, and nothing is inserted. */
  lemma LiveRecordDecides(actions: seq<Action>, id: nat, requestHash: string, startedAt: nat, admissible: bool)
    requires Run(actions).table.resources != []
    requires startedAt < Last(Run(actions).table.resources).startedAt + RECORD_SECONDS
    ensures
      var table := Run(actions).table;
      var last := Last(table.resources);
      && ReplyOf(table, id, requestHash, startedAt, admissible)
         == (if requestHash == last.requestHash then Answer(last.resource, true) else Conflict)
      && Committed(table, id, requestHash, startedAt, admissible) == table
  {
    RunInvariant(actions);
  }

  /** The rows of a key change only when a transaction that found no live record
      commits, and then by exactly one resource, its own. */
  lemma OnlyInsertionsChangeRows(actions: seq<Action>, action: Action)
    ensures
      var (w, next) := (Run(actions), Step(Run(actions), action));
      next.table != w.table ==>
        && action.Commit?
        && (w.table.record.Some? ==> w.table.record.value.expiresAt <= w.transactions[action.transaction].startedAt)
        && exists made: Created :: next.table.resources == w.table.resources + [made]
             && made.resource == w.transactions[action.transaction].id
  {
    RunInvariant(actions);
    var (w, next) := (Run(actions), Step(Run(actions), action));
    if next.table != w.table {
      var t := w.transactions[action.transaction];
      assert InStep(w, t);
      assert next.table.resources == w.table.resources + [Created(t.id, t.requestHash, t.startedAt)];
    }
  }

  /** With no live record, an admissible call gets a new resource, its own, which from
      then on decides about the key for the record's lifetime; a call that is not
      admissible is refused and leaves no trace. */
  lemma UnusedKeyCreates(
    actions: seq<Action>, id: nat, requestHash: string, startedAt: nat, again: nat, otherHash: string, later: nat,
    admissible: bool)
    requires
      var resources := Run(actions).table.resources;
      resources == [] || Last(resources).startedAt + RECORD_SECONDS <= startedAt
    requires later < startedAt + RECORD_SECONDS
    ensures
      var table := Run(actions).table;
      var after := Committed(table, id, requestHash, startedAt, true);
      && ReplyOf(table, id, requestHash, startedAt, true) == Answer(id, false)
      && after.resources == table.resources + [Created(id, requestHash, startedAt)]
      && ReplyOf(after, again, otherHash, later, admissible)
         == (if otherHash == requestHash then Answer(id, true) else Conflict)
    ensures
      var table := Run(actions).table;
      && ReplyOf(table, id, requestHash, startedAt, false) == Refused
      && Committed(table, id, requestHash, startedAt, false) == table
  {
    RunInvariant(actions);
  }

  /** In every run, a waiting transaction that gets the free lock and commits leaves
      exactly the rows and the answer its lookup decided on; one that rolls back
      leaves none. */
  lemma LockThenEnd(actions: seq<Action>, i: nat, admissible: bool)
    requires
      var w := Run(actions);
      i < |w.transactions| && w.transactions[i].Waiting? && LockIsFree(w)
    ensures
      var w := Run(actions);
      var t := w.transactions[i];
      var reply := ReplyOf(w.table, t.id, t.requestHash, t.startedAt, admissible);
      var committed := Step(Step(w, Lock(i, admissible)), Commit(i));
      && (reply.Answer? ==>
            && committed.table == Committed(w.table, t.id, t.requestHash, t.startedAt, admissible)
            && committed.log == w.log + [Event(t.requestHash, t.startedAt, reply)])
      && (!reply.Answer? ==> committed.table == w.table && committed.log == w.log)
    ensures
      var w := Run(actions);
      var undone := Step(Step(w, Lock(i, admissible)), Rollback(i));
      undone.table == w.table && undone.log == w.log && LockIsFree(undone)
  {
    var w := Run(actions);
    var held := Step(w, Lock(i, admissible));
    var undone := Step(held, Rollback(i));
    assert undone.transactions == w.transactions[i := Ended];
    forall t | t in undone.transactions
      ensures !t.Holding?
    {
      assert t in w.transactions || t == Ended;
    }
  }
}
