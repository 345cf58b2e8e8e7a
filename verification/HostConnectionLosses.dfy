/**
 When the router lets a waiting call down: the exact steps, over every run, and what
 protects a response that has arrived.
 */
module HostConnectionLosses {
  import opened Wrappers
  import opened HostConnections

  // Another call with the same request ID on the same connection cleans up while the
  // entry is this call's. (So does the call itself, after a time-out.)
  predicate Collides(w: World, action: Action, id: CallId) {
    && action.CleanUp? && action.call in w.calls && w.calls[action.call].phase.Cleaning?
    && HasEntry(w, id)
    && w.calls[action.call].connection == w.calls[id].connection
    && w.calls[action.call].requestId == w.calls[id].requestId
  }

  // The call's connection is gone, and its pending map is cleared.
  predicate LosesConnection(w: World, action: Action, id: CallId) {
    action.Clear? && action.connection in w.clearing && HasEntry(w, id) && w.calls[id].connection == action.connection
  }

  predicate Closes(w: World, action: Action, id: CallId) {
    Collides(w, action, id) || LosesConnection(w, action, id)
  }

  /** The sender of a call that has heard nothing is dropped by exactly two steps:
      the clearing of its connection, and a clean-up under its request ID. */
  lemma StepCloses(w: World, action: Action, id: CallId)
    requires Invariant(w) && id in w.calls && w.calls[id].mailbox.Empty?
    ensures id in Step(w, action).calls
    ensures Step(w, action).calls[id].mailbox.Closed? <==> Closes(w, action, id)
  {
    var call := w.calls[id];
    if action.Clear? {
      assert EntryFits(w, action.connection, call.requestId);
    } else if action.CleanUp? && action.call in w.calls {
      assert EntryFits(w, w.calls[action.call].connection, w.calls[action.call].requestId);
    }
  }

  lemma StepKeepsMailbox(w: World, action: Action, id: CallId)
    requires id in w.calls
    ensures id in Step(w, action).calls && SameRequest(Step(w, action).calls[id], w.calls[id])
    ensures !w.calls[id].mailbox.Empty? ==> Step(w, action).calls[id].mailbox == w.calls[id].mailbox
  {}

  predicate SameRequest(a: Call, b: Call) {
    a.connection == b.connection && a.requestId == b.requestId
  }

  // A connection that is current now has been since it was inserted.
  lemma StepCurrent(w: World, action: Action, host: HostId, c: ConnectionId)
    requires c in w.router.connections && Current(Step(w, action).router, host, c)
    ensures Current(w.router, host, c)
  {}

  // A step of the run lets the call down.
  predicate ClosesAt(w: World, actions: seq<Action>, id: CallId, k: nat) {
    k < |actions| && Closes(Run(w, actions[..k]), actions[k], id)
  }

  // The closing steps of a run are those of all but its last step, and that one.
  lemma ClosingsGrow(w: World, actions: seq<Action>, id: CallId)
    requires actions != []
    ensures
      var before := actions[..|actions| - 1];
      (exists k :: ClosesAt(w, actions, id, k)) <==>
        (exists k :: ClosesAt(w, before, id, k)) || Closes(Run(w, before), actions[|actions| - 1], id)
  {
    var n := |actions| - 1;
    assert forall k | 0 <= k < n :: actions[..n][..k] == actions[..k];
    forall k: nat | ClosesAt(w, actions, id, k)
      ensures ClosesAt(w, actions[..n], id, k) || k == n
    {
    }
    forall k: nat | ClosesAt(w, actions[..n], id, k)
      ensures ClosesAt(w, actions, id, k)
    {
    }
    assert ClosesAt(w, actions, id, n) <==> Closes(Run(w, actions[..n]), actions[n], id);
  }

  lemma NewCallIsOpen(w: World, action: Action, id: CallId)
    requires id !in w.calls && id in Step(w, action).calls
    ensures Step(w, action).calls[id].mailbox.Empty?
  {}

  lemma {:induction false} NoClosingBefore(w: World, actions: seq<Action>, id: CallId)
    requires id !in Run(w, actions).calls
    ensures !exists k :: ClosesAt(w, actions, id, k)
    decreases |actions|
  {
    if actions != [] {
      var n := |actions| - 1;
      var before := Run(w, actions[..n]);
      if id in before.calls {
        StepKeepsMailbox(before, actions[n], id);
      }
      NoClosingBefore(w, actions[..n], id);
      ClosingsGrow(w, actions, id);
    }
  }

  /** A call's sender has been dropped if and only if the run has a step that clears
      its connection, or that cleans up under its request ID, while the sender is in
      the pending map. */
  lemma {:induction false} LetDownExactly(w: World, actions: seq<Action>, id: CallId)
    requires Invariant(w) && id in Run(w, actions).calls
    requires id in w.calls ==> !w.calls[id].mailbox.Closed?
    ensures Run(w, actions).calls[id].mailbox.Closed? <==> exists k :: ClosesAt(w, actions, id, k)
    decreases |actions|
  {
    if actions != [] {
      var n := |actions| - 1;
      var before := Run(w, actions[..n]);
      RunKeepsInvariant(w, actions[..n]);
      ClosingsGrow(w, actions, id);
      if id in before.calls {
        StepKeepsMailbox(before, actions[n], id);
        LetDownExactly(w, actions[..n], id);
        if before.calls[id].mailbox.Empty? {
          StepCloses(before, actions[n], id);
        } else {
          assert EntryFits(before, before.calls[id].connection, before.calls[id].requestId);
        }
      } else {
        NewCallIsOpen(before, actions[n], id);
        NoClosingBefore(w, actions[..n], id);
      }
    } else {
      assert forall k: nat :: !ClosesAt(w, actions, id, k);
    }
  }

  lemma {:induction false} CurrentBefore(w: World, actions: seq<Action>, host: HostId, c: ConnectionId)
    requires c in w.router.connections && Current(Run(w, actions).router, host, c)
    ensures Current(w.router, host, c)
    decreases |actions|
  {
    if actions != [] {
      var n := |actions| - 1;
      ConnectionsStay(w, actions[..n], c);
      StepCurrent(Run(w, actions[..n]), actions[n], host, c);
      CurrentBefore(w, actions[..n], host, c);
    }
  }

  lemma {:induction false} ConnectionsStay(w: World, actions: seq<Action>, c: ConnectionId)
    requires c in w.router.connections
    ensures c in Run(w, actions).router.connections
    decreases |actions|
  {
    if actions != [] {
      var n := |actions| - 1;
      ConnectionsStay(w, actions[..n], c);
      StepKeepsConnection(Run(w, actions[..n]), actions[n], c);
    }
  }

  lemma {:induction false} CallsStay(w: World, actions: seq<Action>, id: CallId)
    requires id in w.calls
    ensures id in Run(w, actions).calls && SameRequest(Run(w, actions).calls[id], w.calls[id])
    decreases |actions|
  {
    if actions != [] {
      var n := |actions| - 1;
      CallsStay(w, actions[..n], id);
      StepKeepsMailbox(Run(w, actions[..n]), actions[n], id);
    }
  }

  // A call that cleans up is not live afterwards.
  lemma CleanUpFinishes(w: World, id: CallId)
    requires id in w.calls && w.calls[id].phase.Cleaning?
    ensures id in Step(w, CleanUp(id)).calls && Step(w, CleanUp(id)).calls[id].phase.Finished?
  {}

  lemma StepKeepsConnection(w: World, action: Action, c: ConnectionId)
    requires c in w.router.connections
    ensures c in Step(w, action).router.connections
  {}

  predicate CollidesAt(w: World, actions: seq<Action>, id: CallId, k: nat) {
    k < |actions| && Collides(Run(w, actions[..k]), actions[k], id)
  }

  /** While its connection is the host's current one, a live call has been let down
      if and only if, at some point of the run, another call with its connection and
      request ID cleaned up while the entry was this call's. */
  lemma ClosedByCollision(maxInFlight: nat, actions: seq<Action>, id: CallId, host: HostId)
    requires var w := Run(Start(maxInFlight), actions);
      id in w.calls && Live(w.calls[id].phase) && Current(w.router, host, w.calls[id].connection)
    ensures Run(Start(maxInFlight), actions).calls[id].mailbox.Closed? <==>
      exists k: nat :: CollidesAt(Start(maxInFlight), actions, id, k) && actions[k].call != id
  {
    var start := Start(maxInFlight);
    RunInvariant(maxInFlight, []);
    LetDownExactly(start, actions, id);
    forall k: nat | ClosesAt(start, actions, id, k)
      ensures CollidesAt(start, actions, id, k) && actions[k].call != id
    {
      ClosingIsCollision(maxInFlight, actions, id, host, k);
    }
    forall k: nat | CollidesAt(start, actions, id, k)
      ensures ClosesAt(start, actions, id, k)
    {
    }
  }

  lemma ClosingIsCollision(maxInFlight: nat, actions: seq<Action>, id: CallId, host: HostId, k: nat)
    requires ClosesAt(Start(maxInFlight), actions, id, k)
    requires var w := Run(Start(maxInFlight), actions);
      id in w.calls && Live(w.calls[id].phase) && Current(w.router, host, w.calls[id].connection)
    ensures CollidesAt(Start(maxInFlight), actions, id, k) && actions[k].call != id
  {
    var start := Start(maxInFlight);
    var before := Run(start, actions[..k]);
    RunInvariant(maxInFlight, actions[..k]);
    RunFrom(start, actions, k);
    CallsStay(before, actions[k..], id);
    CurrentBefore(before, actions[k..], host, before.calls[id].connection);
    if actions[k] == CleanUp(id) {
      CleanUpFinishes(before, id);
      assert actions[..k + 1][..k] == actions[..k];
      RunFrom(start, actions, k + 1);
      OutcomesAreFinal(Run(start, actions[..k + 1]), actions[k + 1..], id);
    }
  }

  // ---------- no response is lost ----------

  // The call has its answer or will be given one, or it timed out or was dropped.
  ghost predicate Safe(w: World, id: CallId) {
    && id in w.calls
    && var call := w.calls[id];
    && (|| call.phase.Dropped?
        || call.phase == Cleaning(Timeout) || call.phase == Finished(Failure(Timeout))
        || (call.phase.Finished? && call.phase.outcome.Success?)
        || (call.phase.Waiting? && call.mailbox.Filled?)
        || (call.phase.Waiting? && call.mailbox.Empty? && Carried(w, id)))
  }

  // The call waits, and its sender is in the pending map.
  predicate Exposed(w: World, id: CallId) {
    && id in w.calls && w.calls[id].phase.Waiting? && w.calls[id].mailbox.Empty?
    && HasEntry(w, id)
  }

  // Once its sender is out of the pending map, nothing can let a call down.
  lemma {:induction false} StepSafe(w: World, action: Action, id: CallId)
    requires Invariant(w) && Safe(w, id)
    ensures Safe(Step(w, action), id)
  {
    var next := Step(w, action);
    StepKeepsMailbox(w, action, id);
    if w.calls[id].phase.Waiting? && w.calls[id].mailbox.Empty? {
      var i :| CarriedBy(w, i, id);
      assert CompletionFits(w, i);
      StepCloses(w, action, id);
      CarriedOn(w, action, id, i);
    }
    SafePhase(w, action, id);
  }

  // How the phase of a call that waits, or has stopped waiting, goes on.
  lemma SafePhase(w: World, action: Action, id: CallId)
    requires Known(w) && id in w.calls
    ensures
      var (call, after) := (w.calls[id], Step(w, action).calls[id]);
      && (call.phase.Dropped? || call.phase.Finished? ==> after.phase == call.phase)
      && (call.phase == Cleaning(Timeout) ==>
            after.phase == call.phase || after.phase.Dropped? || after.phase == Finished(Failure(Timeout)))
      && (call.phase.Waiting? ==>
            || after.phase.Waiting? || after.phase.Dropped? || after.phase == Cleaning(Timeout)
            || (call.mailbox.Filled? && after.phase == Finished(Success(call.mailbox.response)))
            || (call.mailbox.Closed? && after.phase == Finished(Failure(Disconnected))))
  {}

  lemma CarriedOn(w: World, action: Action, id: CallId, i: int)
    requires CarriedBy(w, i, id) && id in w.calls && w.calls[id].phase.Waiting? && w.calls[id].mailbox.Empty?
    ensures var next := Step(w, action);
      CarriedBy(next, i, id) || (id in next.calls && next.calls[id].mailbox.Filled?)
  {}

  lemma {:induction false} RunSafe(w: World, actions: seq<Action>, id: CallId)
    requires Invariant(w) && Safe(w, id)
    ensures Invariant(Run(w, actions)) && Safe(Run(w, actions), id)
    decreases |actions|
  {
    if actions != [] {
      var n := |actions| - 1;
      RunSafe(w, actions[..n], id);
      StepInvariant(Run(w, actions[..n]), actions[n]);
      StepSafe(Run(w, actions[..n]), actions[n], id);
    }
  }

  // A waiting call stays exposed, becomes safe, or is let down by a closing step.
  lemma {:induction false} StepExposed(w: World, action: Action, id: CallId)
    requires Invariant(w) && Exposed(w, id)
    ensures Closes(w, action, id) || Exposed(Step(w, action), id) || Safe(Step(w, action), id)
  {
    if !Closes(w, action, id) {
      var next := Step(w, action);
      StepCloses(w, action, id);
      StepKeepsMailbox(w, action, id);
      SafePhase(w, action, id);
      StepInvariant(w, action);
      assert CallFits(next, id);
    }
  }

  // A task has found a response for the waiting call.
  predicate Awaits(w: World, id: CallId, i: nat) {
    && Exposed(w, id)
    && i < |w.completions| && w.completions[i].Found?
    && w.completions[i].connection == w.calls[id].connection
    && w.completions[i].response.requestId == w.calls[id].requestId
  }

  lemma TakeSaves(w: World, id: CallId, i: nat)
    requires Awaits(w, id, i)
    ensures Safe(Step(w, Take(i)), id)
  {
    assert CarriedBy(Step(w, Take(i)), i, id);
  }

  lemma OnlyTakeMoves(w: World, action: Action, i: nat)
    requires i < |w.completions| && w.completions[i].Found? && action != Take(i)
    ensures i < |Step(w, action).completions| && Step(w, action).completions[i] == w.completions[i]
  {}

  lemma StepAwaits(w: World, action: Action, id: CallId, i: nat)
    requires Invariant(w) && Awaits(w, id, i)
    ensures Closes(w, action, id) || Awaits(Step(w, action), id, i) || Safe(Step(w, action), id)
  {
    if action == Take(i) {
      TakeSaves(w, id, i);
    } else {
      StepExposed(w, action, id);
      OnlyTakeMoves(w, action, i);
      StepKeepsMailbox(w, action, id);
    }
  }

  // A closing step, other than the call's own clean-up.
  predicate LetsDown(w: World, action: Action, id: CallId) {
    Closes(w, action, id) && action != CleanUp(id)
  }

  predicate LetsDownAt(w: World, actions: seq<Action>, id: CallId, k: nat) {
    k < |actions| && LetsDown(Run(w, actions[..k]), actions[k], id)
  }

  lemma {:induction false} RunAwaits(w: World, actions: seq<Action>, id: CallId, i: nat)
    requires Invariant(w) && (Awaits(w, id, i) || Safe(w, id))
    requires forall k :: !LetsDownAt(w, actions, id, k)
    ensures Invariant(Run(w, actions))
    ensures Awaits(Run(w, actions), id, i) || Safe(Run(w, actions), id)
    decreases |actions|
  {
    if actions != [] {
      var n := |actions| - 1;
      forall k: nat
        ensures !LetsDownAt(w, actions[..n], id, k)
      {
        assert !LetsDownAt(w, actions, id, k);
        assert k < n ==> actions[..n][..k] == actions[..k];
      }
      RunAwaits(w, actions[..n], id, i);
      assert !LetsDownAt(w, actions, id, n);
      NextAwaits(Run(w, actions[..n]), actions[n], id, i);
    }
  }

  lemma NextAwaits(w: World, action: Action, id: CallId, i: nat)
    requires Invariant(w) && (Awaits(w, id, i) || Safe(w, id)) && !LetsDown(w, action, id)
    ensures Invariant(Step(w, action)) && (Awaits(Step(w, action), id, i) || Safe(Step(w, action), id))
  {
    StepInvariant(w, action);
    if Safe(w, id) {
      StepSafe(w, action, id);
    } else {
      StepAwaits(w, action, id, i);
    }
  }

  // The call has returned an answer, or it timed out or was dropped.
  predicate Settled(w: World, id: CallId) {
    && id in w.calls
    && var phase := w.calls[id].phase;
    && (|| phase.Dropped? || phase == Cleaning(Timeout) || phase == Finished(Failure(Timeout))
        || (phase.Finished? && phase.outcome.Success?))
  }

  /** A response that is looked up for a waiting call is never lost unless, before
      its entry is taken, the call's connection is cleared or another call's clean-up
      under its request ID takes the entry: whatever else happens, once all that is carried
      has been delivered the call returns an answer as soon as it looks, unless it
      timed out or was dropped. */
  lemma NoResponseIsLost(
    maxInFlight: nat, past: seq<Action>, id: CallId, host: HostId, body: nat,
    between: seq<Action>, later: seq<Action>)
    requires
      var w := Run(Start(maxInFlight), past);
      && id in w.calls && w.calls[id].phase.Waiting? && !w.calls[id].mailbox.Closed?
      && Current(w.router, host, w.calls[id].connection)
    requires
      var w := Run(Start(maxInFlight), past);
      var lookUp := LookUp(host, w.calls[id].connection, Response(w.calls[id].requestId, body));
      forall k :: !LetsDownAt(Step(w, lookUp), between, id, k)
    ensures
      var w := Run(Start(maxInFlight), past);
      var lookUp := LookUp(host, w.calls[id].connection, Response(w.calls[id].requestId, body));
      var taken := Step(Run(Step(w, lookUp), between), Take(|w.completions|));
      var last := Run(taken, later);
      !Carried(last, id) ==> Settled(Step(last, Receive(id)), id)
  {
    var w := Run(Start(maxInFlight), past);
    var c := w.calls[id].connection;
    var response := Response(w.calls[id].requestId, body);
    var found := Step(w, LookUp(host, c, response));
    var i := |w.completions|;
    RunInvariant(maxInFlight, past);
    assert CallFits(w, id);
    StepInvariant(w, LookUp(host, c, response));
    FoundIsOpen(w, id, host, c, response);
    RunAwaits(found, between, id, i);
    var ready := Run(found, between);
    StepInvariant(ready, Take(i));
    if Safe(ready, id) {
      StepSafe(ready, Take(i), id);
    } else {
      TakeSaves(ready, id, i);
    }
    RunSafe(Step(ready, Take(i)), later, id);
    if !Carried(Run(Step(ready, Take(i)), later), id) {
      ReceiveSettles(Run(Step(ready, Take(i)), later), id);
    }
  }

  lemma FoundIsOpen(w: World, id: CallId, host: HostId, c: ConnectionId, response: Response)
    requires CallFits(w, id) && id in w.calls && w.calls[id].phase.Waiting? && !w.calls[id].mailbox.Closed?
    requires Current(w.router, host, c) && w.calls[id].connection == c && w.calls[id].requestId == response.requestId
    ensures var found := Step(w, LookUp(host, c, response)); Awaits(found, id, |w.completions|) || Safe(found, id)
  {
    KeepsCarried(w, Step(w, LookUp(host, c, response)), id);
  }

  lemma ReceiveSettles(w: World, id: CallId)
    requires Known(w) && Safe(w, id) && !Carried(w, id)
    ensures Settled(Step(w, Receive(id)), id)
  {}

  /** In a caller's terms: if the connection is still the host's current one when the
      entry is taken, and no other call on it uses the request ID, the response
      found for a waiting call leads to an answer. */
  lemma CurrentResponseIsReturned(
    maxInFlight: nat, past: seq<Action>, id: CallId, host: HostId, body: nat,
    between: seq<Action>, later: seq<Action>)
    requires
      var w := Run(Start(maxInFlight), past);
      && id in w.calls && w.calls[id].phase.Waiting? && !w.calls[id].mailbox.Closed?
      && Current(w.router, host, w.calls[id].connection)
    requires
      var w := Run(Start(maxInFlight), past);
      var c := w.calls[id].connection;
      var ready := Run(Step(w, LookUp(host, c, Response(w.calls[id].requestId, body))), between);
      && Current(ready.router, host, c)
      && forall other | other in ready.calls && other != id :: !SameRequest(ready.calls[other], w.calls[id])
    ensures
      var w := Run(Start(maxInFlight), past);
      var lookUp := LookUp(host, w.calls[id].connection, Response(w.calls[id].requestId, body));
      var taken := Step(Run(Step(w, lookUp), between), Take(|w.completions|));
      var last := Run(taken, later);
      !Carried(last, id) ==> Settled(Step(last, Receive(id)), id)
  {
    var w := Run(Start(maxInFlight), past);
    var lookUp := LookUp(host, w.calls[id].connection, Response(w.calls[id].requestId, body));
    RunInvariant(maxInFlight, past);
    StepInvariant(w, lookUp);
    StepKeepsMailbox(w, lookUp, id);
    forall k: nat
      ensures !LetsDownAt(Step(w, lookUp), between, id, k)
    {
      if LetsDownAt(Step(w, lookUp), between, id, k) {
        CurrentIsNotLetDown(Step(w, lookUp), between, id, host, k);
      }
    }
    NoResponseIsLost(maxInFlight, past, id, host, body, between, later);
  }

  // A call on a connection that stays current is let down only by a call that shares
  // its request.
  lemma CurrentIsNotLetDown(w: World, actions: seq<Action>, id: CallId, host: HostId, k: nat)
    requires Invariant(w) && id in w.calls && LetsDownAt(w, actions, id, k)
    requires Current(Run(w, actions).router, host, w.calls[id].connection)
    ensures exists other | other in Run(w, actions).calls ::
      other != id && SameRequest(Run(w, actions).calls[other], w.calls[id])
  {
    var before := Run(w, actions[..k]);
    RunKeepsInvariant(w, actions[..k]);
    CallsStay(w, actions[..k], id);
    RunFrom(w, actions, k);
    CurrentBefore(before, actions[k..], host, w.calls[id].connection);
    var other := actions[k].call;
    CallsStay(before, actions[k..], other);
    assert other != id && SameRequest(Run(w, actions).calls[other], w.calls[id]);
  }
}
