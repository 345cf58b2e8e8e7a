/**
 At-most-once execution of fenced mutations, over every run of supervisors that
 are started afresh at any time, of calls that are resent, duplicated or reused,
 and of executions that are abandoned half-way.
 */
module FencedRuns {
  import opened Wrappers
  import opened ExecutionErrors
  import opened FileMutations
  import opened MutationLedger
  import opened MutationRuns

  // One supervisor generation. The ledger's lock is held while a mutation runs.
  datatype Instance = Instance(records: Records, running: Option<Request>)

  datatype Event =
    | Began(generation: string, request: Request)
    | Ended(generation: string, request: Request, outcome: Outcome)
    | Answered(generation: string, request: Request, outcome: Outcome)

  datatype World = World(instances: map<string, Instance>, log: seq<Event>)

  datatype Action =
    | Launch(generation: string)                   // a start with a fresh generation and an empty ledger
    | Deliver(generation: string, request: Request) // any client's call obtains the lock
    | Abandon(generation: string)                  // the running call's future is dropped
    | Finish(generation: string, outcome: Outcome) // the running call ends

  // A disabled action changes nothing.
  function Step(w: World, action: Action): World {
    match action
    case Launch(g) =>
      if g in w.instances then w
      else w.(instances := w.instances[g := Instance(map[], None)])
    case Deliver(g, request) =>
      if g !in w.instances || w.instances[g].running.Some? then w
      else
        (match Admit(g, w.instances[g].records, request)
         case Refuse(outcome) => w.(log := w.log + [Answered(g, request, outcome)])
         case Execute(records) =>
           World(w.instances[g := Instance(records, Some(request))], w.log + [Began(g, request)]))
    case Abandon(g) =>
      if g !in w.instances then w
      else w.(instances := w.instances[g := w.instances[g].(running := None)])
    case Finish(g, outcome) =>
      if g !in w.instances || w.instances[g].running.None? || !OfKind(outcome, w.instances[g].running.value) then w
      else
        var request := w.instances[g].running.value;
        World(
          w.instances[g := Instance(Settle(w.instances[g].records, request, outcome), None)],
          w.log + [Ended(g, request, outcome)] + [Answered(g, request, outcome)])
  }

  const START := World(map[], [])

  function Run(actions: seq<Action>): World {
    if actions == [] then START
    else Step(Run(actions[..|actions| - 1]), actions[|actions| - 1])
  }

  // Is this the start of an execution under this ID, fenced for this generation?
  predicate Starts(event: Event, id: string, fence: string) {
    event.Began? && event.request.operationId == id && event.request.Fence() == Some(fence)
  }

  function Begun(log: seq<Event>, id: string, fence: string): nat {
    if log == [] then 0
    else Begun(log[..|log| - 1], id, fence) + if Starts(log[|log| - 1], id, fence) then 1 else 0
  }

  lemma BegunAppend(log: seq<Event>, event: Event, id: string, fence: string)
    ensures Begun(log + [event], id, fence) == Begun(log, id, fence) + if Starts(event, id, fence) then 1 else 0
  {
    assert (log + [event])[..|log|] == log;
  }

  // ---------- the invariant ----------

  // An ID that has begun in its generation is in that generation's ledger.
  ghost predicate Fenced(w: World) {
    forall id, fence ::
      Begun(w.log, id, fence) <= 1
      && (Begun(w.log, id, fence) == 1 ==> fence in w.instances && id in w.instances[fence].records)
  }

  // Executions begin only in their generation, under their own record.
  ghost predicate Recorded(w: World) {
    BegunRecorded(w) && RunningRecorded(w)
  }

  ghost predicate BegunRecorded(w: World) {
    forall g, r | Began(g, r) in w.log && r.Fence().Some? ::
      && r.Fence().value == g
      && g in w.instances && r.operationId in w.instances[g].records
      && w.instances[g].records[r.operationId].fingerprint == FingerprintOf(r)
  }

  ghost predicate RunningRecorded(w: World) {
    && (forall g | g in w.instances && w.instances[g].running.Some? ::
          var r := w.instances[g].running.value;
          && Began(g, r) in w.log
          && (r.Fence().Some? ==>
                && r.operationId in w.instances[g].records
                && w.instances[g].records[r.operationId] == Record(FingerprintOf(r), UNKNOWN))
          && (r.Fence().None? ==> r.operationId !in w.instances[g].records))
  }

  // A recorded or reported success is that of an execution that ended so.
  ghost predicate Truthful(w: World) {
    && (forall g, id, r | g in w.instances && id in w.instances[g].records
                       && w.instances[g].records[id].fingerprint == FingerprintOf(r)
                       && !w.instances[g].records[id].outcome.Failed? ::
          Ended(g, r, w.instances[g].records[id].outcome) in w.log)
    && (forall g, r, o | Ended(g, r, o) in w.log :: Began(g, r) in w.log)
    && (forall g, r, o | Answered(g, r, o) in w.log && !o.Failed? :: Ended(g, r, o) in w.log)
  }

  // Only a delivery that is admitted adds to the count, and only from zero.
  lemma StepCounts(w: World, action: Action, id: string, fence: string)
    requires Fenced(w)
    ensures Begun(Step(w, action).log, id, fence) <= 1
    ensures Begun(Step(w, action).log, id, fence) == Begun(w.log, id, fence)
      || (action.Deliver? && action.generation == fence && action.request.operationId == id
          && fence in Step(w, action).instances && id in Step(w, action).instances[fence].records)
  {
    match action
    case Launch(_) =>
    case Abandon(_) =>
    case Deliver(g, request) =>
      BegunAppend(w.log, Began(g, request), id, fence);
      if g in w.instances && w.instances[g].running.None? {
        match Admit(g, w.instances[g].records, request)
        case Refuse(outcome) => BegunAppend(w.log, Answered(g, request, outcome), id, fence);
        case Execute(_) =>
      }
    case Finish(g, outcome) =>
      if g in w.instances && w.instances[g].running.Some? {
        var request := w.instances[g].running.value;
        BegunAppend(w.log, Ended(g, request, outcome), id, fence);
        BegunAppend(w.log + [Ended(g, request, outcome)], Answered(g, request, outcome), id, fence);
      }
  }

  // Ledgers never lose an entry.
  lemma StepKeeps(w: World, action: Action, g: string, id: string)
    requires g in w.instances && id in w.instances[g].records
    ensures g in Step(w, action).instances && id in Step(w, action).instances[g].records
  {}

  lemma StepFenced(w: World, action: Action)
    requires Fenced(w)
    ensures Fenced(Step(w, action))
  {
    var next := Step(w, action);
    forall id, fence
      ensures Begun(next.log, id, fence) <= 1
      ensures Begun(next.log, id, fence) == 1 ==> fence in next.instances && id in next.instances[fence].records
    {
      StepCounts(w, action, id, fence);
      if Begun(w.log, id, fence) == 1 {
        StepKeeps(w, action, fence, id);
      }
    }
  }

  lemma StepRecorded(w: World, action: Action)
    requires Recorded(w)
    ensures Recorded(Step(w, action))
  {
    StepBegunRecorded(w, action);
    StepRunningRecorded(w, action);
  }

  lemma StepBegunRecorded(w: World, action: Action)
    requires Recorded(w)
    ensures BegunRecorded(Step(w, action))
  {}

  lemma StepRunningRecorded(w: World, action: Action)
    requires Recorded(w)
    ensures RunningRecorded(Step(w, action))
  {}

  lemma StepTruthful(w: World, action: Action)
    requires Recorded(w) && Truthful(w)
    ensures Truthful(Step(w, action))
  {
    var next := Step(w, action);
    forall g, id, r | g in next.instances && id in next.instances[g].records
                   && next.instances[g].records[id].fingerprint == FingerprintOf(r)
                   && !next.instances[g].records[id].outcome.Failed?
      ensures Ended(g, r, next.instances[g].records[id].outcome) in next.log
    {
      if action.Finish? && action.generation == g && next != w {
        var request := w.instances[g].running.value;
        if id == request.operationId && !action.outcome.Failed? {
          FingerprintsDistinguish(r, request);
        }
      }
    }
    if action.Deliver? && next != w {
      var (g, request) := (action.generation, action.request);
      match Admit(g, w.instances[g].records, request)
      case Refuse(outcome) =>
      case Execute(_) =>
    }
  }

  lemma {:induction false} RunInvariant(actions: seq<Action>)
    ensures Fenced(Run(actions)) && Recorded(Run(actions)) && Truthful(Run(actions))
  {
    if actions != [] {
      var n := |actions| - 1;
      RunInvariant(actions[..n]);
      StepFenced(Run(actions[..n]), actions[n]);
      StepRecorded(Run(actions[..n]), actions[n]);
      StepTruthful(Run(actions[..n]), actions[n]);
    }
  }

  // ---------- the theorems ----------

  /** In every run, a fenced operation begins executing at most once. */
  lemma AtMostOnce(actions: seq<Action>, id: string, fence: string)
    ensures Begun(Run(actions).log, id, fence) <= 1
  {
    RunInvariant(actions);
  }

  lemma {:induction false} BegunAt(log: seq<Event>, event: Event, id: string, fence: string)
    requires event in log && Starts(event, id, fence)
    ensures Begun(log, id, fence) >= 1
  {
    if log[|log| - 1] != event {
      BegunAt(log[..|log| - 1], event, id, fence);
    }
  }

  /** Every success ever reported for a fenced request is the result with which its
      one and only execution ended, in the generation it was fenced for. */
  lemma SuccessIsTheOneExecution(actions: seq<Action>, g: string, request: Request, outcome: Outcome)
    requires Answered(g, request, outcome) in Run(actions).log
    requires request.Fence().Some? && !outcome.Failed?
    ensures request.Fence() == Some(g)
    ensures Ended(g, request, outcome) in Run(actions).log
    ensures Begun(Run(actions).log, request.operationId, g) == 1
  {
    RunInvariant(actions);
    BegunAt(Run(actions).log, Began(g, request), request.operationId, g);
  }

  // ---------- when an execution begins ----------

  // An event that leaves a record: a fenced start, or a success.
  predicate LeavesRecord(event: Event, g: string, id: string) {
    match event
    case Began(generation, request) =>
      generation == g && request.operationId == id && request.Fence().Some?
    case Ended(generation, request, outcome) =>
      generation == g && request.operationId == id && !outcome.Failed?
    case Answered(_, _, _) => false
  }

  ghost predicate IsUsed(log: seq<Event>, g: string, id: string) {
    exists event :: event in log && LeavesRecord(event, g, id)
  }

  predicate LedgerHas(w: World, g: string, id: string) {
    g in w.instances && id in w.instances[g].records
  }

  // The ledgers hold exactly the IDs the log says were used.
  ghost predicate Logged(w: World) {
    forall g, id :: LedgerHas(w, g, id) <==> IsUsed(w.log, g, id)
  }

  lemma UsedAppend(log: seq<Event>, event: Event, g: string, id: string)
    ensures IsUsed(log + [event], g, id) <==> IsUsed(log, g, id) || LeavesRecord(event, g, id)
  {
    assert event in log + [event];
    forall e | e in log && LeavesRecord(e, g, id)
      ensures IsUsed(log + [event], g, id)
    {
      assert e in log + [event];
    }
  }

  lemma StepLogged(w: World, action: Action)
    requires Logged(w) && RunningRecorded(w)
    ensures Logged(Step(w, action))
  {
    var next := Step(w, action);
    forall g, id
      ensures LedgerHas(next, g, id) <==> IsUsed(next.log, g, id)
    {
      assert LedgerHas(w, g, id) <==> IsUsed(w.log, g, id);
      match action
      case Launch(_) =>
      case Abandon(_) =>
      case Deliver(to, request) =>
        if next != w {
          match Admit(to, w.instances[to].records, request)
          case Refuse(outcome) => UsedAppend(w.log, Answered(to, request, outcome), g, id);
          case Execute(_) => UsedAppend(w.log, Began(to, request), g, id);
        }
      case Finish(to, outcome) =>
        if next != w {
          var request := w.instances[to].running.value;
          UsedAppend(w.log, Ended(to, request, outcome), g, id);
          UsedAppend(w.log + [Ended(to, request, outcome)], Answered(to, request, outcome), g, id);
        }
    }
  }

  lemma {:induction false} RunLogged(actions: seq<Action>)
    ensures Logged(Run(actions))
  {
    if actions != [] {
      var n := |actions| - 1;
      RunLogged(actions[..n]);
      RunInvariant(actions[..n]);
      StepLogged(Run(actions[..n]), actions[n]);
    }
  }

  /** After every run, a request delivered to an idle supervisor begins to execute
      exactly if it is valid, fenced for that supervisor or not at all, and nothing
      fenced has begun and nothing has succeeded there under its ID; otherwise it is
      answered at once. */
  lemma BeginsExactly(actions: seq<Action>, g: string, request: Request)
    requires g in Run(actions).instances && Run(actions).instances[g].running.None?
    ensures
      var w := Run(actions);
      var next := Step(w, Deliver(g, request));
      if Addressed(g, request) && !IsUsed(w.log, g, request.operationId) then
        next.log == w.log + [Began(g, request)] && next.instances[g].running == Some(request)
      else
        exists outcome :: next.log == w.log + [Answered(g, request, outcome)] && next.instances == w.instances
  {
    RunLogged(actions);
    var w := Run(actions);
    assert LedgerHas(w, g, request.operationId) <==> IsUsed(w.log, g, request.operationId);
    match Admit(g, w.instances[g].records, request)
    case Refuse(outcome) => assert Step(w, Deliver(g, request)).log == w.log + [Answered(g, request, outcome)];
    case Execute(_) =>
  }

  // ---------- what becomes of a record ----------

  // Tombstone, or the outcome of an ended execution.
  predicate Final(instance: Instance, id: string) {
    && id in instance.records
    && (instance.running.Some? ==> instance.running.value.operationId != id)
  }

  ghost predicate Follows(before: World, after: World, g: string, id: string)
    requires g in before.instances && id in before.instances[g].records
  {
    && g in after.instances && id in after.instances[g].records
    && after.instances[g].records[id].fingerprint == before.instances[g].records[id].fingerprint
    && (Final(before.instances[g], id) ==>
          && Final(after.instances[g], id)
          && after.instances[g].records[id] == before.instances[g].records[id])
    && (after.instances[g].records[id] != before.instances[g].records[id] ==>
          before.instances[g].records[id].outcome == UNKNOWN)
  }

  lemma StepFollows(w: World, action: Action, g: string, id: string)
    requires Recorded(w) && g in w.instances && id in w.instances[g].records
    ensures Follows(w, Step(w, action), g, id)
  {}

  lemma FollowsOn(first: World, second: World, third: World, g: string, id: string)
    requires g in first.instances && id in first.instances[g].records
    requires Follows(first, second, g, id) && Follows(second, third, g, id)
    ensures Follows(first, third, g, id)
  {}

  lemma FollowsNext(first: World, actions: seq<Action>, g: string, id: string)
    requires g in first.instances && id in first.instances[g].records
    requires actions != [] && Follows(first, Run(actions[..|actions| - 1]), g, id)
    ensures Follows(first, Run(actions), g, id)
  {
    var before := actions[..|actions| - 1];
    RunInvariant(before);
    StepFollows(Run(before), actions[|actions| - 1], g, id);
    FollowsOn(first, Run(before), Run(actions), g, id);
  }

  /** Each operation ID's record only moves from absent to tombstone to final, and
      keeps its fingerprint; a final record, and the tombstone of an abandoned
      call, never change again. */
  lemma {:induction false} RecordsOnlyAdvance(past: seq<Action>, future: seq<Action>, g: string, id: string)
    requires g in Run(past).instances && id in Run(past).instances[g].records
    ensures Follows(Run(past), Run(past + future), g, id)
    decreases |future|
  {
    if future == [] {
      assert past + future == past;
    } else {
      var n := |future| - 1;
      RecordsOnlyAdvance(past, future[..n], g, id);
      var whole := past + future;
      assert whole[..|whole| - 1] == past + future[..n];
      FollowsNext(Run(past), whole, g, id);
    }
  }

  /** A fenced request whose call was abandoned while it ran is answered ever after
      as lost with an unknown outcome, whatever came in between. */
  lemma AbandonedIsUnknown(past: seq<Action>, future: seq<Action>, g: string, request: Request)
    requires g in Run(past).instances && Run(past).instances[g].running == Some(request)
    requires request.Fence().Some?
    requires var later := Run(past + [Abandon(g)] + future);
      g in later.instances ==> later.instances[g].running.None?
    ensures
      var later := Run(past + [Abandon(g)] + future);
      Step(later, Deliver(g, request)).log
      == later.log + [Answered(g, request, Failed(ExecutionLost, OutcomeUnknown))]
  {
    var id := request.operationId;
    var abandoned := past + [Abandon(g)];
    assert abandoned[..|past|] == past;
    RunInvariant(past);
    AbandonedIsFinal(Run(past), g, request);
    RecordsOnlyAdvance(abandoned, future, g, id);
    RunAdmitted(past);
    TombstoneAnswers(Run(abandoned + future), g, request);
  }

  lemma AbandonedIsFinal(w: World, g: string, request: Request)
    requires Recorded(w) && g in w.instances && w.instances[g].running == Some(request)
    requires request.Fence().Some?
    ensures var next := Step(w, Abandon(g));
      && g in next.instances && Final(next.instances[g], request.operationId)
      && next.instances[g].records[request.operationId] == Record(FingerprintOf(request), UNKNOWN)
  {}

  // What is running was admitted.
  ghost predicate AllAdmitted(w: World) {
    forall g | g in w.instances && w.instances[g].running.Some? :: Addressed(g, w.instances[g].running.value)
  }

  lemma StepAdmitted(w: World, action: Action)
    requires AllAdmitted(w)
    ensures AllAdmitted(Step(w, action))
  {}

  lemma {:induction false} RunAdmitted(actions: seq<Action>)
    ensures AllAdmitted(Run(actions))
  {
    if actions != [] {
      var n := |actions| - 1;
      RunAdmitted(actions[..n]);
      StepAdmitted(Run(actions[..n]), actions[n]);
    }
  }

  lemma TombstoneAnswers(w: World, g: string, request: Request)
    requires g in w.instances && w.instances[g].running.None? && Addressed(g, request)
    requires request.operationId in w.instances[g].records
    requires w.instances[g].records[request.operationId] == Record(FingerprintOf(request), UNKNOWN)
    ensures Step(w, Deliver(g, request)).log
         == w.log + [Answered(g, request, Failed(ExecutionLost, OutcomeUnknown))]
  {}

  /** A call that is not abandoned is exactly a delivery, followed by the end of the
      execution if one began: the same ledger and the same answer. */
  lemma CallIsDeliverThenFinish(w: World, s: Supervisor, request: Request, fault: Fault)
    requires s.generation in w.instances && w.instances[s.generation] == Instance(s.records, None)
    ensures
      var g := s.generation;
      var served := Call(s, request, fault);
      var delivered := Step(w, Deliver(g, request));
      var done := if served.executed then Step(delivered, Finish(g, served.outcome)) else delivered;
      && done.instances[g] == Instance(served.next.records, None)
      && done.log[|done.log| - 1] == Answered(g, request, served.outcome)
  {
    if Call(s, request, fault).executed {
      KindOfOutcome(s, request, fault);
    }
  }

  /** The fence is what makes this true: any unfenced request begins again when it
      is resent after an abandoned call. */
  lemma UnfencedBeginsAgain(g: string, request: Request)
    requires request.Valid() && request.Fence().None?
    ensures
      var log := Run([Launch(g), Deliver(g, request), Abandon(g), Deliver(g, request)]).log;
      log == [Began(g, request), Began(g, request)]
  {
    var actions := [Launch(g), Deliver(g, request), Abandon(g), Deliver(g, request)];
    var launched := World(map[g := Instance(map[], None)], []);
    var begun := World(map[g := Instance(map[], Some(request))], [Began(g, request)]);
    var abandoned := World(map[g := Instance(map[], None)], [Began(g, request)]);
    assert Run([Launch(g)]) == launched by {
      assert [Launch(g)][..0] == [];
    }
    assert Run([Launch(g), Deliver(g, request)]) == begun by {
      assert [Launch(g), Deliver(g, request)][..1] == [Launch(g)];
    }
    assert Run([Launch(g), Deliver(g, request), Abandon(g)]) == abandoned by {
      assert [Launch(g), Deliver(g, request), Abandon(g)][..2] == [Launch(g), Deliver(g, request)];
    }
    assert actions[..3] == [Launch(g), Deliver(g, request), Abandon(g)];
  }
}
