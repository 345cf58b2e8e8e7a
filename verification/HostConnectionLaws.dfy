/**
 What becomes of connections, and when calls are turned away: a connection is a
 host's current one, or waits to be cleared, or has been cleared; and a call fails
 as busy or duplicate exactly when it has to.
 */
module HostConnectionLaws {
  import opened Wrappers
  import opened HostConnections

  // ---------- the life of a connection ----------

  ghost predicate IsRegistered(w: World, c: ConnectionId) {
    exists host :: Current(w.router, host, c)
  }

  // A task that took the connection out of the registry has cleared it.
  ghost predicate ClearedAt(maxInFlight: nat, actions: seq<Action>, k: nat, c: ConnectionId) {
    && k < |actions| && actions[k] == Clear(c)
    && c in Run(Start(maxInFlight), actions[..k]).clearing
  }

  ghost predicate WasCleared(maxInFlight: nat, actions: seq<Action>, c: ConnectionId) {
    exists k: nat :: ClearedAt(maxInFlight, actions, k, c)
  }

  lemma WasClearedLast(maxInFlight: nat, actions: seq<Action>, c: ConnectionId)
    requires actions != []
    ensures
      var n := |actions| - 1;
      WasCleared(maxInFlight, actions, c) <==>
        WasCleared(maxInFlight, actions[..n], c) || ClearedAt(maxInFlight, actions, n, c)
  {
    var n := |actions| - 1;
    forall k: nat | k < n
      ensures ClearedAt(maxInFlight, actions, k, c) <==> ClearedAt(maxInFlight, actions[..n], k, c)
    {
      assert actions[..n][..k] == actions[..k];
    }
    if k: nat :| ClearedAt(maxInFlight, actions[..n], k, c) {
      assert ClearedAt(maxInFlight, actions, k, c);
    }
  }

  // What one step does to the place of a connection.
  lemma StepPlaces(w: World, action: Action, c: ConnectionId)
    requires Known(w)
    ensures var next := Step(w, action);
      && (IsRegistered(w, c) ==> IsRegistered(next, c) || c in next.clearing)
      && (c in w.clearing ==> c in next.clearing || action == Clear(c))
      && (c in next.clearing && c !in w.clearing ==> IsRegistered(w, c))
      && (action == Clear(c) ==> c !in next.clearing)
      && (IsRegistered(next, c) && !IsRegistered(w, c) ==> c !in w.router.connections)
      && (c in w.router.connections ==> c in next.router.connections)
      && (c in next.router.connections && c !in w.router.connections ==> IsRegistered(next, c))
  {
    var next := Step(w, action);
    forall host | Current(w.router, host, c)
      ensures Current(next.router, host, c) || c in next.clearing
    {
    }
    forall host | Current(next.router, host, c)
      ensures Current(w.router, host, c) || c !in w.router.connections
    {
    }
    if c in next.clearing && c !in w.clearing {
      assert Current(w.router, action.host, c);
    }
    if action.Insert? && c !in w.router.connections && c in next.router.connections {
      assert Current(next.router, action.host, c);
    }
  }

  /** In every run, a connection that was ever registered is its host's current one,
      or is about to be cleared, or has been cleared: exactly one of the three. */
  lemma {:induction false} RetiredIsCleared(maxInFlight: nat, actions: seq<Action>, c: ConnectionId)
    ensures
      var w := Run(Start(maxInFlight), actions);
      && (c in w.router.connections <==>
            IsRegistered(w, c) || c in w.clearing || WasCleared(maxInFlight, actions, c))
      && !(IsRegistered(w, c) && c in w.clearing)
      && (WasCleared(maxInFlight, actions, c) ==> !IsRegistered(w, c) && c !in w.clearing)
    decreases |actions|
  {
    if actions != [] {
      var n := |actions| - 1;
      var before := Run(Start(maxInFlight), actions[..n]);
      RetiredIsCleared(maxInFlight, actions[..n], c);
      RunInvariant(maxInFlight, actions[..n]);
      RunInvariant(maxInFlight, actions);
      StepPlaces(before, actions[n], c);
      WasClearedLast(maxInFlight, actions, c);
    }
  }

  /** Clearing drops every sender: each call with an entry there hears that its
      connection is gone. */
  lemma ClearingCloses(maxInFlight: nat, actions: seq<Action>, c: ConnectionId, id: CallId)
    requires c in Run(Start(maxInFlight), actions).clearing
    ensures
      var w := Run(Start(maxInFlight), actions);
      var next := Step(w, Clear(c));
      && PendingOf(next.router, c) == map[]
      && (HasEntry(w, id) && w.calls[id].connection == c ==> next.calls[id].mailbox.Closed?)
  {
    RunInvariant(maxInFlight, actions);
    var w := Run(Start(maxInFlight), actions);
    if HasEntry(w, id) {
      assert EntryFits(w, c, w.calls[id].requestId);
    }
  }

  /** A new connection becomes the host's current one; only its end or a disconnection
      of the host, or a newer connection, changes that. */
  lemma CurrentIsTheLatest(maxInFlight: nat, actions: seq<Action>, action: Action, host: HostId)
    ensures
      var w := Run(Start(maxInFlight), actions);
      Registered(Step(w, action).router, host)
      == match action
         case Insert(to, c) =>
           if to == host && c !in w.router.connections then Some(c) else Registered(w.router, host)
         case Remove(of, c) =>
           if of == host && Registered(w.router, host) == Some(c) then None else Registered(w.router, host)
         case Disconnect(of) => if of == host then None else Registered(w.router, host)
         case _ => Registered(w.router, host)
  {}

  // ---------- refused calls ----------

  ghost function LiveCalls(w: World, c: ConnectionId): set<CallId> {
    set id | id in w.calls && w.calls[id].connection == c && Live(w.calls[id].phase)
  }

  // Another call on the connection has its entry under the same request ID.
  ghost predicate IsTaken(w: World, id: CallId)
    requires id in w.calls
  {
    exists other ::
      && HasEntry(w, other) && w.calls[other].connection == w.calls[id].connection
      && w.calls[other].requestId == w.calls[id].requestId
  }

  /** A call is turned away as busy exactly when the limit of live calls is reached
      on its connection; otherwise it gets a permit. */
  lemma BusyExactly(maxInFlight: nat, actions: seq<Action>, id: CallId)
    requires In(Run(Start(maxInFlight), actions), id, Acquiring)
    ensures
      var w := Run(Start(maxInFlight), actions);
      var c := w.calls[id].connection;
      var next := Step(w, Acquire(id));
      next.calls[id].phase
      == if |LiveCalls(w, c)| == maxInFlight then Finished(Failure(Busy)) else Enrolling
  {
    var w := Run(Start(maxInFlight), actions);
    var c := w.calls[id].connection;
    RunInvariant(maxInFlight, actions);
    LimitIsFixed(Start(maxInFlight), actions);
    PermitsAreLive(w, c);
    assert Bounded(w, c);
    AcquireDecides(w, id);
  }

  lemma PermitsAreLive(w: World, c: ConnectionId)
    requires Invariant(w) && c in w.router.connections
    ensures LiveCalls(w, c) == w.router.connections[c].permits
  {
    forall other
      ensures other in LiveCalls(w, c) <==> other in w.router.connections[c].permits
    {
      assert PermitFits(w, c, other);
    }
  }

  lemma AcquireDecides(w: World, id: CallId)
    requires In(w, id, Acquiring)
    ensures Step(w, Acquire(id)).calls[id].phase ==
      if |w.router.connections[w.calls[id].connection].permits| < w.maxInFlight then Enrolling
      else Finished(Failure(Busy))
  {}

  /** It is turned away as a duplicate exactly when another call holds the entry under
      its request ID; otherwise the entry is its own. */
  lemma DuplicateExactly(maxInFlight: nat, actions: seq<Action>, id: CallId)
    requires In(Run(Start(maxInFlight), actions), id, Enrolling)
    ensures
      var w := Run(Start(maxInFlight), actions);
      var next := Step(w, Enrol(id));
      if IsTaken(w, id) then next.calls[id].phase == Finished(Failure(DuplicateRequest))
      else next.calls[id].phase == Sending && HasEntry(next, id)
  {
    var w := Run(Start(maxInFlight), actions);
    RunInvariant(maxInFlight, actions);
    var (c, r) := (w.calls[id].connection, w.calls[id].requestId);
    assert EntryFits(w, c, r);
    if r in PendingOf(w.router, c) {
      assert HasEntry(w, PendingOf(w.router, c)[r]);
    }
  }

  /** A call that has returned holds neither a permit nor an entry. */
  lemma ReturnedHoldsNothing(maxInFlight: nat, actions: seq<Action>, id: CallId)
    requires
      var w := Run(Start(maxInFlight), actions);
      id in w.calls && w.calls[id].phase.Finished?
    ensures
      var w := Run(Start(maxInFlight), actions);
      && !HasEntry(w, id)
      && forall c | c in w.router.connections :: id !in w.router.connections[c].permits
  {
    var w := Run(Start(maxInFlight), actions);
    RunInvariant(maxInFlight, actions);
    assert EntryFits(w, w.calls[id].connection, w.calls[id].requestId);
    forall c | c in w.router.connections
      ensures id !in w.router.connections[c].permits
    {
      assert PermitFits(w, c, id);
    }
  }
}
