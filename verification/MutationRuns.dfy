/**
 Whole runs of mutation calls on one supervisor: replays are stable, no update is
 lost, and nothing outside the writable roots ever changes.
 */
module MutationRuns {
  import opened Wrappers
  import opened ExecutionErrors
  import opened FileTree
  import opened PathResolver
  import opened FileMutations
  import opened MutationSafety
  import opened MutationLedger

  datatype Attempt = Attempt(request: Request, fault: Fault)

  // The supervisor after a run of calls.
  function Serve(s: Supervisor, attempts: seq<Attempt>): Supervisor
    decreases |attempts|, 0
  {
    if attempts == [] then s
    else At(s, attempts, |attempts| - 1).next
  }

  // The i-th call of a run.
  function At(s: Supervisor, attempts: seq<Attempt>, i: nat): Served
    requires i < |attempts|
    decreases i, 1
  {
    Call(Serve(s, attempts[..i]), attempts[i].request, attempts[i].fault)
  }

  lemma ServeStep(s: Supervisor, attempts: seq<Attempt>, i: nat)
    requires i < |attempts|
    ensures Serve(s, attempts[..i + 1]) == At(s, attempts, i).next
  {
    var longer := attempts[..i + 1];
    assert longer[..i] == attempts[..i] && longer[i] == attempts[i];
    assert |longer| - 1 == i;
  }

  // ---------- execution ----------

  // May this request begin, as far as the supervisor's identity goes?
  predicate Addressed(generation: string, request: Request) {
    request.Valid() && (request.Fence().None? || request.Fence() == Some(generation))
  }

  // Its result stays in the ledger: any outcome if it is fenced, else a success.
  predicate Keeps(request: Request, outcome: Outcome) {
    request.Fence().Some? || !outcome.Failed?
  }

  /** A call executes exactly if it is valid, fenced for this supervisor or not at
      all, and under an unused ID; then it does what the mutation does, and its
      ledger entry is that outcome, if it is kept. Otherwise nothing changes. */
  lemma CallExecutesExactly(s: Supervisor, request: Request, fault: Fault)
    ensures
      var served := Call(s, request, fault);
      var m := Mutate(s.tree, s.roots, s.maxWriteBytes, request, fault);
      && (served.executed <==> Addressed(s.generation, request) && request.operationId !in s.records)
      && (!served.executed ==> served.next == s && served.effect == NoEffect)
      && (!request.Valid() ==> served.outcome == Failed(InvalidRequest, NoDetail))
      && (request.Valid() && !Addressed(s.generation, request) ==>
            served.outcome == Failed(ExecutionLost, NoDetail))
      && (served.executed ==>
            && served.outcome == m.outcome && served.effect == m.effect
            && served.next == s.(
                 tree := m.tree,
                 records :=
                   if !Keeps(request, m.outcome) then s.records
                   else s.records[request.operationId := Record(FingerprintOf(request), m.outcome)]))
  {}

  // The j-th call of the run used the ID and its result was kept.
  predicate KeptAt(s: Supervisor, attempts: seq<Attempt>, j: nat, id: string)
    requires j < |attempts|
  {
    && attempts[j].request.operationId == id
    && At(s, attempts, j).executed
    && Keeps(attempts[j].request, At(s, attempts, j).outcome)
  }

  // The ledger holds the IDs it began with and those kept since.
  lemma {:induction false} LedgerIsWhatWasKept(s: Supervisor, attempts: seq<Attempt>, i: nat, id: string)
    requires i <= |attempts|
    ensures
      var now := Serve(s, attempts[..i]);
      && now.generation == s.generation
      && (id in now.records <==> id in s.records || exists j :: 0 <= j < i && KeptAt(s, attempts, j, id))
  {
    if i > 0 {
      LedgerIsWhatWasKept(s, attempts, i - 1, id);
      ServeStep(s, attempts, i - 1);
      var attempt := attempts[i - 1];
      CallExecutesExactly(Serve(s, attempts[..i - 1]), attempt.request, attempt.fault);
      assert KeptAt(s, attempts, i - 1, id) ==> exists j :: 0 <= j < i && KeptAt(s, attempts, j, id);
    }
  }

  /** In every run of calls, each executes exactly if it is valid, rightly fenced or
      unfenced, and no earlier call's result was kept under its ID. */
  lemma ExecutesUnlessKept(s: Supervisor, attempts: seq<Attempt>, i: nat)
    requires s.records == map[] && i < |attempts|
    ensures
      var request := attempts[i].request;
      At(s, attempts, i).executed <==>
        && Addressed(s.generation, request)
        && forall j | 0 <= j < i :: !KeptAt(s, attempts, j, request.operationId)
  {
    LedgerIsWhatWasKept(s, attempts, i, attempts[i].request.operationId);
    CallExecutesExactly(Serve(s, attempts[..i]), attempts[i].request, attempts[i].fault);
  }

  // ---------- replays ----------

  lemma RecordsGrow(s: Supervisor, request: Request, fault: Fault, id: string)
    requires id in s.records
    ensures var next := Call(s, request, fault).next;
      id in next.records && next.records[id] == s.records[id] && next.generation == s.generation
  {}

  // A record, once made, is never changed by any later call.
  lemma {:induction false} RecordsAreFinal(s: Supervisor, attempts: seq<Attempt>, id: string)
    requires id in s.records
    ensures var last := Serve(s, attempts);
      id in last.records && last.records[id] == s.records[id] && last.generation == s.generation
    decreases |attempts|
  {
    if attempts != [] {
      var n := |attempts| - 1;
      RecordsAreFinal(s, attempts[..n], id);
      RecordsGrow(Serve(s, attempts[..n]), attempts[n].request, attempts[n].fault, id);
    }
  }

  /** After a call whose result was kept, an identical resend returns that result
      and changes nothing, however many calls came in between; any other request
      under the same ID changes nothing either and is answered with a conflict, or
      before that as invalid or as fenced for another generation. */
  lemma ResendsAreStable(
    s: Supervisor, request: Request, fault: Fault, between: seq<Attempt>, again: Request, later: Fault)
    requires Call(s, request, fault).executed
    requires request.Fence().Some? || !Call(s, request, fault).outcome.Failed?
    requires again.operationId == request.operationId
    ensures
      var first := Call(s, request, fault);
      var now := Serve(first.next, between);
      var second := Call(now, again, later);
      && second.next == now && second.effect == NoEffect && !second.executed
      && second.outcome ==
           if again == request then first.outcome
           else if !again.Valid() then Failed(InvalidRequest, NoDetail)
           else if again.Fence().Some? && again.Fence().value != s.generation then Failed(ExecutionLost, NoDetail)
           else CONFLICT
  {
    var first := Call(s, request, fault);
    ExecutionIsRecorded(s, request, fault);
    RecordsAreFinal(first.next, between, request.operationId);
    KindOfOutcome(s, request, fault);
    RecordAnswers(Serve(first.next, between), request, first.outcome, again, later);
  }

  lemma ExecutionIsRecorded(s: Supervisor, request: Request, fault: Fault)
    requires Call(s, request, fault).executed
    requires request.Fence().Some? || !Call(s, request, fault).outcome.Failed?
    ensures request.Valid() && (request.Fence().Some? ==> request.Fence().value == s.generation)
    ensures var first := Call(s, request, fault);
      && request.operationId in first.next.records
      && first.next.records[request.operationId] == Record(FingerprintOf(request), first.outcome)
      && first.next.generation == s.generation
  {}

  // What a record of one request answers to a request under its ID.
  lemma RecordAnswers(now: Supervisor, request: Request, outcome: Outcome, again: Request, later: Fault)
    requires request.Valid() && (request.Fence().Some? ==> request.Fence().value == now.generation)
    requires OfKind(outcome, request) && again.operationId == request.operationId
    requires request.operationId in now.records
    requires now.records[request.operationId] == Record(FingerprintOf(request), outcome)
    ensures
      var second := Call(now, again, later);
      && second.next == now && second.effect == NoEffect && !second.executed
      && second.outcome ==
           if again == request then outcome
           else if !again.Valid() then Failed(InvalidRequest, NoDetail)
           else if again.Fence().Some? && again.Fence().value != now.generation then Failed(ExecutionLost, NoDetail)
           else CONFLICT
  {
    if FingerprintOf(again) == FingerprintOf(request) {
      FingerprintsDistinguish(again, request);
    }
  }

  // A mutation reports an outcome of its own kind.
  predicate OfKind(outcome: Outcome, request: Request) {
    match outcome
    case Failed(_, _) => true
    case Written(_, _, _, _) => request.Write?
    case DirectoryCreated => request.CreateDirectory?
    case Removed(_) => request.Remove?
  }

  lemma CommitKind(tree: Tree, roots: Roots, target: Path, request: Request, fault: Fault, written: Outcome)
    requires request.Write? && written.Written?
    ensures OfKind(CommitAtomic(tree, target, request, fault, written).outcome, request)
    ensures OfKind(CommitInPlace(tree, roots, target, request, fault, written).outcome, request)
  {
    CommitInPlaceKind(tree, roots, target, request, fault, written);
  }

  lemma CommitInPlaceKind(
    tree: Tree, roots: Roots, target: Path, request: Request, fault: Fault, written: Outcome)
    requires request.Write? && written.Written?
    ensures OfKind(CommitInPlace(tree, roots, target, request, fault, written).outcome, request)
  {}

  lemma WriteKind(tree: Tree, roots: Roots, maxWriteBytes: nat, request: Request, fault: Fault)
    requires request.Write?
    ensures OfKind(WriteInner(tree, roots, maxWriteBytes, request, fault).outcome, request)
  {
    if ResolveTarget(tree, roots, request).Success? {
      var target := ResolveTarget(tree, roots, request).value;
      var existing := Lstat(tree, target);
      var written := Written(request.path, existing.Found?, Sha256(request.data), |request.data|);
      CommitKind(tree, roots, target, request, fault, written);
    }
  }

  lemma KindOfOutcome(s: Supervisor, request: Request, fault: Fault)
    requires Call(s, request, fault).executed
    ensures OfKind(Call(s, request, fault).outcome, request)
  {
    match request
    case Write(_, _, _, _, _, _, _, _) => WriteKind(s.tree, s.roots, s.maxWriteBytes, request, fault);
    case CreateDirectory(_, _, _) =>
    case Remove(_, _, _, _, _, _, _) => RemoveKind(s.tree, s.roots, request, fault);
  }

  lemma RemoveKind(tree: Tree, roots: Roots, request: Request, fault: Fault)
    requires request.Remove?
    ensures OfKind(RemoveInner(tree, roots, request, fault).outcome, request)
  {}

  lemma {:induction false} ConfigurationIsFixed(s: Supervisor, attempts: seq<Attempt>)
    ensures var last := Serve(s, attempts);
      last.generation == s.generation && last.roots == s.roots && last.maxWriteBytes == s.maxWriteBytes
    decreases |attempts|
  {
    if attempts != [] {
      ConfigurationIsFixed(s, attempts[..|attempts| - 1]);
    }
  }

  // The revision the effects of calls i .. j leave at a location.
  function LeftBy(s: Supervisor, attempts: seq<Attempt>, i: nat, j: nat, at: Path, before: Option<Revision>)
    : Option<Revision>
    requires i <= j <= |attempts|
    decreases j - i
  {
    if i == j then before
    else After(At(s, attempts, j - 1).effect, at, LeftBy(s, attempts, i, j - 1, at, before))
  }

  predicate Writable(roots: Roots, at: Path) {
    exists id :: id in roots && !roots[id].readOnly && roots[id].canonicalPath <= at
  }

  // Nothing outside the writable roots differs.
  ghost predicate SameElsewhere(roots: Roots, tree: Tree, after: Tree) {
    forall at | !Writable(roots, at) :: (at in tree <==> at in after) && (at in tree ==> after[at] == tree[at])
  }

  lemma CallTracks(s: Supervisor, request: Request, fault: Fault)
    requires WellFormed(s.tree)
    ensures var served := Call(s, request, fault);
      && WellFormed(served.next.tree)
      && (forall at ::
            RevisionAt(served.next.tree, at) == After(served.effect, at, RevisionAt(s.tree, at)))
      && SameElsewhere(s.roots, s.tree, served.next.tree)
  {
    MutationIsConfined(s.tree, s.roots, s.maxWriteBytes, request, fault);
    var served := Call(s, request, fault);
    TracksRevisions(s.tree, served.next.tree, served.effect);
  }

  /** At every point of every run, each location holds exactly what the last effect
      on it left, and everything outside the writable roots is as it was. */
  lemma {:induction false} TreeFollowsEffects(s: Supervisor, attempts: seq<Attempt>, i: nat, j: nat)
    requires WellFormed(s.tree) && i <= j <= |attempts|
    ensures WellFormed(Serve(s, attempts[..j]).tree)
    ensures forall at ::
      RevisionAt(Serve(s, attempts[..j]).tree, at)
      == LeftBy(s, attempts, i, j, at, RevisionAt(Serve(s, attempts[..i]).tree, at))
    ensures SameElsewhere(s.roots, s.tree, Serve(s, attempts[..j]).tree)
    decreases j, i
  {
    if j == 0 {
      assert attempts[..0] == [];
    } else if i == j {
      TreeFollowsEffects(s, attempts, i - 1, j);
    } else {
      TreeFollowsEffects(s, attempts, i, j - 1);
      ServeStep(s, attempts, j - 1);
      ConfigurationIsFixed(s, attempts[..j - 1]);
      CallTracks(Serve(s, attempts[..j - 1]), attempts[j - 1].request, attempts[j - 1].fault);
    }
  }

  /** No lost updates: a revision-matched write succeeds only if its revision is
      that of what the last effect at its place left. */
  lemma {:induction false} NoLostUpdate(s: Supervisor, attempts: seq<Attempt>, i: nat)
    requires WellFormed(s.tree) && i < |attempts|
    requires attempts[i].request.Write? && attempts[i].request.condition.MatchRevision?
    requires At(s, attempts, i).executed && At(s, attempts, i).outcome.Written?
    ensures At(s, attempts, i).effect.Stored?
    ensures var at := At(s, attempts, i).effect.at;
      LeftBy(s, attempts, 0, i, at, RevisionAt(s.tree, at)) == Some(attempts[i].request.condition.revision)
  {
    TreeFollowsEffects(s, attempts, 0, i);
    assert attempts[..0] == [];
    var before := Serve(s, attempts[..i]);
    WriteKeeps(before.tree, before.roots, before.maxWriteBytes, attempts[i].request, attempts[i].fault);
  }

  // What is there stays there until something at or above it is deleted.
  lemma {:induction false} StaysUntilDeleted(
    s: Supervisor, attempts: seq<Attempt>, i: nat, j: nat, at: Path, before: Option<Revision>)
    requires i <= j <= |attempts| && before.Some?
    requires LeftBy(s, attempts, i, j, at, before) == None
    ensures exists k :: i <= k < j && Deletes(s, attempts, k, at)
    decreases j - i
  {
    if Deletes(s, attempts, j - 1, at) {
    } else {
      StaysUntilDeleted(s, attempts, i, j - 1, at, before);
    }
  }

  ghost predicate Deletes(s: Supervisor, attempts: seq<Attempt>, k: nat, at: Path)
    requires k < |attempts|
  {
    var effect := At(s, attempts, k).effect;
    effect.Deleted? && exists q :: q in effect.subtrees && q <= at
  }

  /** Between two successful must-not-exist writes to one place there is a removal
      of it. */
  lemma {:induction false} OneCreationBetweenRemovals(s: Supervisor, attempts: seq<Attempt>, i: nat, j: nat)
    requires WellFormed(s.tree) && i < j < |attempts|
    requires forall k | k == i || k == j ::
      && attempts[k].request.Write? && attempts[k].request.condition == MustNotExist
      && At(s, attempts, k).executed && At(s, attempts, k).outcome.Written?
    ensures At(s, attempts, i).effect.Stored? && At(s, attempts, j).effect.Stored?
    ensures At(s, attempts, i).effect.at == At(s, attempts, j).effect.at ==>
      exists k :: i < k < j && Deletes(s, attempts, k, At(s, attempts, i).effect.at)
  {
    SuccessStores(s, attempts, i);
    SuccessStores(s, attempts, j);
    if At(s, attempts, i).effect.at == At(s, attempts, j).effect.at {
      RemovalBetween(s, attempts, i, j);
    }
  }

  // A successful write has stored its bytes.
  lemma SuccessStores(s: Supervisor, attempts: seq<Attempt>, i: nat)
    requires WellFormed(s.tree) && i < |attempts| && attempts[i].request.Write?
    requires At(s, attempts, i).executed && At(s, attempts, i).outcome.Written?
    ensures At(s, attempts, i).effect.Stored?
  {
    TreeFollowsEffects(s, attempts, 0, i);
    var before := Serve(s, attempts[..i]);
    WriteKeeps(before.tree, before.roots, before.maxWriteBytes, attempts[i].request, attempts[i].fault);
  }

  lemma RemovalBetween(s: Supervisor, attempts: seq<Attempt>, i: nat, j: nat)
    requires WellFormed(s.tree) && i < j < |attempts|
    requires attempts[j].request.Write? && attempts[j].request.condition == MustNotExist
    requires At(s, attempts, j).executed && At(s, attempts, j).outcome.Written?
    requires At(s, attempts, i).effect.Stored? && At(s, attempts, j).effect.Stored?
    requires At(s, attempts, i).effect.at == At(s, attempts, j).effect.at
    ensures exists k :: i < k < j && Deletes(s, attempts, k, At(s, attempts, i).effect.at)
  {
    var at := At(s, attempts, i).effect.at;
    var before := Serve(s, attempts[..i]);
    TreeFollowsEffects(s, attempts, 0, i);
    CallTracks(before, attempts[i].request, attempts[i].fault);
    ServeStep(s, attempts, i);
    var made := Serve(s, attempts[..i + 1]);
    assert RevisionAt(made.tree, at) == After(At(s, attempts, i).effect, at, RevisionAt(before.tree, at));
    var later := Serve(s, attempts[..j]);
    TreeFollowsEffects(s, attempts, i + 1, j);
    WriteKeeps(later.tree, later.roots, later.maxWriteBytes, attempts[j].request, attempts[j].fault);
    assert attempts[j].request.condition == MustNotExist;
    StaysUntilDeleted(s, attempts, i + 1, j, at, RevisionAt(made.tree, at));
  }
}
