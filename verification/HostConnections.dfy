/**
 The router between callers and host daemons: requests go out on a host's current
 connection and responses are matched to the calls waiting there, while
 connections are replaced, dropped and closed at any time.

 A step of `World` takes at most one lock of the source: the registry's, or that of
 one connection's pending map. What a task does under two locks in turn is two
 steps, with anything in between. A call's return and the release of its permit
 are one step.
 */
module HostConnections {
  import opened Wrappers

  type HostId = nat
  type ConnectionId = nat
  type CallId = nat

  datatype Response = Response(requestId: string, body: nat)

  datatype CallError = Offline | DuplicateRequest | Busy | Disconnected | Timeout

  // One connection: who waits for which request, and who holds a permit.
  datatype Connection = Connection(pending: map<string, CallId>, permits: set<CallId>)

  // The registry, and every connection that some task may still refer to.
  datatype Router = Router(registry: map<HostId, ConnectionId>, connections: map<ConnectionId, Connection>)

  // The receiving end of a call's one-shot channel.
  datatype Mailbox = Empty | Filled(response: Response) | Closed

  // What a call of execute does next.
  datatype Phase =
    | Acquiring                  // has the connection, wants a permit
    | Enrolling                  // wants a pending entry
    | Sending                    // wants to send the request
    | Waiting
    | Cleaning(error: CallError) // removes its pending entry before failing
    | Finished(outcome: Result<Response, CallError>)
    | Dropped                    // the caller went away

  datatype Call = Call(connection: ConnectionId, requestId: string, phase: Phase, mailbox: Mailbox)

  predicate Live(phase: Phase) {
    phase.Enrolling? || phase.Sending? || phase.Waiting? || phase.Cleaning?
  }

  // What a task that handles a response does next.
  datatype Completion =
    | Found(connection: ConnectionId, response: Response) // wants the pending entry
    | Carrying(call: CallId, response: Response)          // has the sender of a call
    | Ended

  // `clearing` holds the connections that a task has taken out of the registry and
  // whose pending map it will clear; `arrivals` the responses that came in.
  datatype World = World(
    router: Router, clearing: set<ConnectionId>, calls: map<CallId, Call>, completions: seq<Completion>,
    arrivals: seq<(ConnectionId, Response)>, maxInFlight: nat)

  datatype Action =
    | Insert(host: HostId, connection: ConnectionId) // register
    | Remove(host: HostId, connection: ConnectionId) // unregister
    | Disconnect(host: HostId)
    | Clear(connection: ConnectionId)                // the second half of each of these
    | Execute(call: CallId, host: HostId, requestId: string)
    | Acquire(call: CallId)
    | Enrol(call: CallId)
    | Send(call: CallId, accepted: bool, closed: bool)
    | LookUp(host: HostId, connection: ConnectionId, response: Response) // complete
    | Take(completion: nat)
    | Deliver(completion: nat)
    | Receive(call: CallId)
    | TimeOut(call: CallId)
    | CleanUp(call: CallId)
    | Drop(call: CallId)

  // ---------- the shared state ----------

  predicate Current(router: Router, host: HostId, c: ConnectionId) {
    host in router.registry && router.registry[host] == c
  }

  function Registered(router: Router, host: HostId): Option<ConnectionId> {
    if host in router.registry then Some(router.registry[host]) else None
  }

  function PendingOf(router: Router, c: ConnectionId): map<string, CallId> {
    if c in router.connections then router.connections[c].pending else map[]
  }

  function Inserted(router: Router, host: HostId, c: ConnectionId): Router {
    Router(router.registry[host := c], router.connections[c := Connection(map[], {})])
  }

  function Removed(router: Router, host: HostId): Router {
    router.(registry := router.registry - {host})
  }

  // Clearing a connection's pending map drops every sender in it.
  function Cleared(router: Router, c: ConnectionId): Router {
    if c !in router.connections then router
    else router.(connections := router.connections[c := router.connections[c].(pending := map[])])
  }

  function Entry(router: Router, c: ConnectionId, requestId: string): Option<CallId> {
    if requestId in PendingOf(router, c) then Some(PendingOf(router, c)[requestId]) else None
  }

  function Unpended(router: Router, c: ConnectionId, requestId: string): Router {
    if c !in router.connections then router
    else
      var connection := router.connections[c];
      router.(connections := router.connections[c := connection.(pending := connection.pending - {requestId})])
  }

  function Released(router: Router, c: ConnectionId, call: CallId): Router {
    if c !in router.connections then router
    else
      var connection := router.connections[c];
      router.(connections := router.connections[c := connection.(permits := connection.permits - {call})])
  }

  /** The registry object. The first five methods are its critical sections; the
      others are what the source calls, run without interference. */
  class HostConnectionRegistry {
    var registry: map<HostId, ConnectionId>
    var connections: map<ConnectionId, Connection>

    function State(): Router
      reads this
    {
      Router(registry, connections)
    }

    constructor ()
      ensures State() == Router(map[], map[])
    {
      registry, connections := map[], map[];
    }

    method InsertCurrent(host: HostId, c: ConnectionId) returns (previous: Option<ConnectionId>)
      modifies this
      ensures previous == Registered(old(State()), host)
      ensures State() == Inserted(old(State()), host, c)
    {
      previous := if host in registry then Some(registry[host]) else None;
      registry, connections := registry[host := c], connections[c := Connection(map[], {})];
    }

    method RemoveCurrent(host: HostId, only: Option<ConnectionId>) returns (removed: Option<ConnectionId>)
      modifies this`registry
      ensures removed == var registered := Registered(old(State()), host);
        if only.None? || only == registered then registered else None
      ensures State() == if removed.Some? then Removed(old(State()), host) else old(State())
    {
      removed := None;
      if host in registry && (only.None? || registry[host] == only.value) {
        removed := Some(registry[host]);
        registry := registry - {host};
      }
    }

    method IsCurrent(host: HostId, c: ConnectionId) returns (current: bool)
      ensures current <==> Current(State(), host, c)
    {
      return host in registry && registry[host] == c;
    }

    method FailPending(c: ConnectionId)
      modifies this`connections
      ensures State() == Cleared(old(State()), c)
    {
      if c in connections {
        connections := connections[c := connections[c].(pending := map[])];
      }
    }

    method TakePending(c: ConnectionId, requestId: string) returns (sender: Option<CallId>)
      modifies this`connections
      ensures sender == Entry(old(State()), c, requestId)
      ensures State() == if sender.Some? then Unpended(old(State()), c, requestId) else old(State())
    {
      sender := None;
      if c in connections && requestId in connections[c].pending {
        sender := Some(connections[c].pending[requestId]);
        connections := connections[c := connections[c].(pending := connections[c].pending - {requestId})];
      }
    }

    method Register(host: HostId, c: ConnectionId)
      modifies this
      ensures
        var inserted := Inserted(old(State()), host, c);
        State() == match Registered(old(State()), host)
          case None => inserted
          case Some(previous) => Cleared(inserted, previous)
    {
      var previous := InsertCurrent(host, c);
      if previous.Some? {
        FailPending(previous.value);
      }
    }

    method Unregister(host: HostId, c: ConnectionId) returns (removed: bool)
      modifies this
      ensures removed <==> Current(old(State()), host, c)
      ensures State() == if removed then Cleared(Removed(old(State()), host), c) else old(State())
    {
      var active := RemoveCurrent(host, Some(c));
      if active.Some? {
        FailPending(active.value);
      }
      return active.Some?;
    }

    method DisconnectHost(host: HostId)
      modifies this
      ensures State() == match Registered(old(State()), host)
        case None => old(State())
        case Some(c) => Cleared(Removed(old(State()), host), c)
    {
      var removed := RemoveCurrent(host, None);
      if removed.Some? {
        FailPending(removed.value);
      }
    }

    method Complete(host: HostId, c: ConnectionId, requestId: string) returns (sender: Option<CallId>)
      modifies this
      ensures sender == if Current(old(State()), host, c) then Entry(old(State()), c, requestId) else None
      ensures State() == if sender.Some? then Unpended(old(State()), c, requestId) else old(State())
    {
      var current := IsCurrent(host, c);
      if !current {
        return None;
      }
      sender := TakePending(c, requestId);
    }
  }

  // ---------- interleavings ----------

  // The senders in these entries are dropped.
  function CloseAll(calls: map<CallId, Call>, pending: map<string, CallId>): map<CallId, Call> {
    map id | id in calls ::
      if calls[id].requestId in pending && pending[calls[id].requestId] == id && calls[id].mailbox.Empty?
      then calls[id].(mailbox := Closed) else calls[id]
  }

  function Enter(w: World, id: CallId, phase: Phase): World
    requires id in w.calls
  {
    w.(calls := w.calls[id := w.calls[id].(phase := phase)])
  }

  // The call returns, and its permit with it.
  function Return(w: World, id: CallId, phase: Phase): World
    requires id in w.calls
  {
    Enter(w, id, phase).(router := Released(w.router, w.calls[id].connection, id))
  }

  predicate In(w: World, id: CallId, phase: Phase) {
    id in w.calls && w.calls[id].phase == phase && w.calls[id].connection in w.router.connections
  }

  function Retired(w: World, c: Option<ConnectionId>): set<ConnectionId> {
    if c.Some? then w.clearing + {c.value} else w.clearing
  }

  // A disabled action changes nothing.
  function Step(w: World, action: Action): World {
    match action
    case Insert(host, c) =>
      if c in w.router.connections then w // connection IDs are fresh
      else w.(router := Inserted(w.router, host, c), clearing := Retired(w, Registered(w.router, host)))
    case Remove(host, c) =>
      if !Current(w.router, host, c) then w
      else w.(router := Removed(w.router, host), clearing := w.clearing + {c})
    case Disconnect(host) =>
      w.(router := Removed(w.router, host), clearing := Retired(w, Registered(w.router, host)))
    case Clear(c) =>
      if c !in w.clearing then w
      else
        w.(router := Cleared(w.router, c), clearing := w.clearing - {c},
           calls := CloseAll(w.calls, PendingOf(w.router, c)))
    case Execute(id, host, requestId) =>
      // Call IDs only name calls; a call without a connection fails as offline.
      if id in w.calls || host !in w.router.registry then w
      else w.(calls := w.calls[id := Call(w.router.registry[host], requestId, Acquiring, Empty)])
    case Acquire(id) =>
      if !In(w, id, Acquiring) then w
      else
        var c := w.calls[id].connection;
        var connection := w.router.connections[c];
        if |connection.permits| < w.maxInFlight then
          Enter(w, id, Enrolling).(router := w.router.(connections :=
            w.router.connections[c := connection.(permits := connection.permits + {id})]))
        else Enter(w, id, Finished(Failure(Busy)))
    case Enrol(id) =>
      if !In(w, id, Enrolling) then w
      else
        var c := w.calls[id].connection;
        var connection := w.router.connections[c];
        if w.calls[id].requestId in connection.pending then Return(w, id, Finished(Failure(DuplicateRequest)))
        else
          Enter(w, id, Sending).(router := w.router.(connections :=
            w.router.connections[c := connection.(pending := connection.pending[w.calls[id].requestId := id])]))
    case Send(id, accepted, closed) =>
      if !In(w, id, Sending) then w
      else Enter(w, id, if accepted then Waiting else Cleaning(if closed then Disconnected else Busy))
    case LookUp(host, c, response) =>
      var arrived := w.(arrivals := w.arrivals + [(c, response)]);
      if !Current(w.router, host, c) then arrived
      else arrived.(completions := w.completions + [Found(c, response)])
    case Take(i) =>
      if i >= |w.completions| || !w.completions[i].Found? then w
      else
        var found := w.completions[i];
        (match Entry(w.router, found.connection, found.response.requestId)
         case None => w.(completions := w.completions[i := Ended])
         case Some(id) =>
           w.(router := Unpended(w.router, found.connection, found.response.requestId),
              completions := w.completions[i := Carrying(id, found.response)]))
    case Deliver(i) =>
      if i >= |w.completions| || !w.completions[i].Carrying? then w
      else
        var id := w.completions[i].call;
        var sent := w.(completions := w.completions[i := Ended]);
        // Nobody receives what is sent after the call has gone.
        if id in w.calls && Live(w.calls[id].phase) && w.calls[id].mailbox.Empty?
        then sent.(calls := w.calls[id := w.calls[id].(mailbox := Filled(w.completions[i].response))])
        else sent
    case Receive(id) =>
      if !In(w, id, Waiting) || w.calls[id].mailbox.Empty? then w
      else if w.calls[id].mailbox.Closed? then Return(w, id, Finished(Failure(Disconnected)))
      else Return(w, id, Finished(Success(w.calls[id].mailbox.response)))
    case TimeOut(id) =>
      if !In(w, id, Waiting) || !w.calls[id].mailbox.Empty? then w
      else Enter(w, id, Cleaning(Timeout))
    case CleanUp(id) =>
      if id !in w.calls || !w.calls[id].phase.Cleaning? then w
      else
        var (c, requestId) := (w.calls[id].connection, w.calls[id].requestId);
        // The entry under this request ID goes, whosever it is by now.
        var entry := if Entry(w.router, c, requestId).Some?
                     then map[requestId := Entry(w.router, c, requestId).value] else map[];
        var returned := Return(w, id, Finished(Failure(w.calls[id].phase.error)));
        returned.(router := Unpended(returned.router, c, requestId), calls := CloseAll(returned.calls, entry))
    case Drop(id) =>
      if id !in w.calls || w.calls[id].phase.Finished? then w
      else Return(w, id, Dropped)
  }

  function Start(maxInFlight: nat): World {
    World(Router(map[], map[]), {}, map[], [], [], maxInFlight)
  }

  function Run(w: World, actions: seq<Action>): World {
    if actions == [] then w
    else Step(Run(w, actions[..|actions| - 1]), actions[|actions| - 1])
  }

  lemma {:induction false} RunAppend(w: World, first: seq<Action>, second: seq<Action>)
    ensures Run(w, first + second) == Run(Run(w, first), second)
    decreases |second|
  {
    if second == [] {
      assert first + second == first;
    } else {
      var n := |second| - 1;
      var whole := first + second;
      assert whole[..|whole| - 1] == first + second[..n] && whole[|whole| - 1] == second[n];
      RunAppend(w, first, second[..n]);
      RunLast(w, whole);
      RunLast(Run(w, first), second);
    }
  }

  lemma RunLast(w: World, actions: seq<Action>)
    requires actions != []
    ensures Run(w, actions) == Step(Run(w, actions[..|actions| - 1]), actions[|actions| - 1])
  {}

  lemma RunFrom(w: World, actions: seq<Action>, k: nat)
    requires k <= |actions|
    ensures Run(w, actions) == Run(Run(w, actions[..k]), actions[k..])
  {
    assert actions == actions[..k] + actions[k..];
    RunAppend(w, actions[..k], actions[k..]);
  }

  // ---------- the invariants ----------

  // Every call's connection is known, registrations are of known connections, and
  // a connection to be cleared is registered for no host.
  ghost predicate Known(w: World) {
    && (forall id | id in w.calls :: w.calls[id].connection in w.router.connections)
    && (forall host | host in w.router.registry ::
          w.router.registry[host] in w.router.connections && w.router.registry[host] !in w.clearing)
    && (forall h1, h2 | h1 in w.router.registry && h2 in w.router.registry && h1 != h2 ::
          w.router.registry[h1] != w.router.registry[h2])
    && (forall c | c in w.clearing :: c in w.router.connections)
  }

  // The pending entry under the call's request ID is the call's own.
  predicate HasEntry(w: World, id: CallId) {
    id in w.calls && Entry(w.router, w.calls[id].connection, w.calls[id].requestId) == Some(id)
  }

  predicate CarriedBy(w: World, i: int, id: CallId) {
    0 <= i < |w.completions| && w.completions[i].Carrying? && w.completions[i].call == id
  }

  // Some task has the call's sender and will use it.
  ghost predicate Carried(w: World, id: CallId) {
    exists i :: CarriedBy(w, i, id)
  }

  // A pending entry is that of the one call that enrolled it and has heard nothing.
  predicate EntryFits(w: World, c: ConnectionId, r: string) {
    r in PendingOf(w.router, c) ==>
      var id := PendingOf(w.router, c)[r];
      && id in w.calls
      && w.calls[id].connection == c && w.calls[id].requestId == r
      && w.calls[id].mailbox.Empty?
      && (Live(w.calls[id].phase) || w.calls[id].phase.Dropped?) && !w.calls[id].phase.Enrolling?
  }

  // A call that has enrolled and heard nothing has an entry or is about to hear.
  ghost predicate CallFits(w: World, id: CallId) {
    id in w.calls ==>
      var call := w.calls[id];
      && (call.phase.Acquiring? || call.phase.Enrolling? ==> call.mailbox.Empty?)
      && ((call.phase.Sending? || call.phase.Waiting? || call.phase.Cleaning?) && call.mailbox.Empty? ==>
            HasEntry(w, id) || Carried(w, id))
      && (call.mailbox.Filled? ==> Arrived(w, call, call.mailbox.response))
      && (call.phase.Finished? && call.phase.outcome.Success? ==> Arrived(w, call, call.phase.outcome.value))
  }

  // A response to the call's own request, from the call's own connection.
  predicate Arrived(w: World, call: Call, response: Response) {
    response.requestId == call.requestId && (call.connection, response) in w.arrivals
  }

  // What was found has arrived, and what is carried is out of the pending map.
  predicate CompletionFits(w: World, i: int) {
    0 <= i < |w.completions| ==>
      match w.completions[i]
      case Found(c, response) => c in w.router.connections && (c, response) in w.arrivals
      case Carrying(id, response) =>
        && id in w.calls && Arrived(w, w.calls[id], response) && !HasEntry(w, id)
        && !w.calls[id].phase.Acquiring? && !w.calls[id].phase.Enrolling?
      case Ended => true
  }

  // Permits are held by exactly the live calls.
  predicate PermitFits(w: World, c: ConnectionId, id: CallId) {
    c in w.router.connections ==>
      (id in w.router.connections[c].permits <==>
       id in w.calls && w.calls[id].connection == c && Live(w.calls[id].phase))
  }

  predicate Bounded(w: World, c: ConnectionId) {
    c in w.router.connections ==> |w.router.connections[c].permits| <= w.maxInFlight
  }

  ghost predicate Invariant(w: World) {
    && Known(w)
    && (forall c, r :: EntryFits(w, c, r))
    && (forall id :: CallFits(w, id))
    && (forall i :: CompletionFits(w, i))
    && (forall c, id :: PermitFits(w, c, id))
    && (forall c :: Bounded(w, c))
  }

  lemma StepKnown(w: World, action: Action)
    requires Known(w)
    ensures Known(Step(w, action))
  {
    if OnRegistry(action) {
      RegistryKnown(w, action);
    }
  }

  lemma RegistryKnown(w: World, action: Action)
    requires Known(w) && OnRegistry(action)
    ensures Known(Step(w, action))
  {}

  predicate OnRegistry(action: Action) {
    action.Insert? || action.Remove? || action.Disconnect?
  }

  predicate OnCompletion(action: Action) {
    action.LookUp? || action.Take? || action.Deliver?
  }

  // The registry's steps leave calls and pending entries alone.
  lemma AfterRegistry(w: World, action: Action)
    requires OnRegistry(action)
    ensures var next := Step(w, action);
      && next.calls == w.calls && next.completions == w.completions && next.arrivals == w.arrivals
      && (forall c :: PendingOf(next.router, c) == PendingOf(w.router, c))
      && (forall c | c in w.router.connections :: c in next.router.connections)
  {}

  // The entry a step of another kind takes out of a pending map, if any.
  lemma {:induction false} StepEntry(w: World, action: Action, c: ConnectionId, r: string)
    requires Known(w) && (forall c, r :: EntryFits(w, c, r)) && (forall i :: CompletionFits(w, i))
    requires forall id :: CallFits(w, id)
    ensures EntryFits(Step(w, action), c, r)
  {
    assert EntryFits(w, c, r);
    if OnRegistry(action) {
      AfterRegistry(w, action);
    } else if action.Clear? {
      EntryAfterClear(w, action, c, r);
    } else if OnCompletion(action) {
      EntryAfterCompletion(w, action, c, r);
    } else if action.CleanUp? {
      EntryAfterCleanUp(w, action, c, r);
    } else if action.Enrol? {
      assert CallFits(w, action.call);
      EntryAfterEnrol(w, action, c, r);
    } else {
      EntryAfterOwnStep(w, action, c, r);
    }
  }

  lemma EntryAfterClear(w: World, action: Action, c: ConnectionId, r: string)
    requires Known(w) && action.Clear? && EntryFits(w, c, r) && forall c, r :: EntryFits(w, c, r)
    ensures EntryFits(Step(w, action), c, r)
  {
    assert EntryFits(w, action.connection, r);
  }

  lemma EntryAfterCompletion(w: World, action: Action, c: ConnectionId, r: string)
    requires Known(w) && OnCompletion(action) && EntryFits(w, c, r) && forall i :: CompletionFits(w, i)
    ensures EntryFits(Step(w, action), c, r)
  {
    if action.Deliver? {
      assert CompletionFits(w, action.completion);
    }
  }

  lemma EntryAfterCleanUp(w: World, action: Action, c: ConnectionId, r: string)
    requires Known(w) && action.CleanUp? && EntryFits(w, c, r) && forall c, r :: EntryFits(w, c, r)
    ensures EntryFits(Step(w, action), c, r)
  {
    if action.call in w.calls {
      assert EntryFits(w, w.calls[action.call].connection, r);
      assert EntryFits(w, w.calls[action.call].connection, w.calls[action.call].requestId);
    }
  }

  lemma EntryAfterEnrol(w: World, action: Action, c: ConnectionId, r: string)
    requires Known(w) && action.Enrol? && EntryFits(w, c, r)
    requires CallFits(w, action.call)
    ensures EntryFits(Step(w, action), c, r)
  {}

  lemma EntryAfterOwnStep(w: World, action: Action, c: ConnectionId, r: string)
    requires Known(w) && EntryFits(w, c, r)
    requires !OnRegistry(action) && !OnCompletion(action)
    requires !action.Clear? && !action.CleanUp? && !action.Enrol?
    ensures EntryFits(Step(w, action), c, r)
  {}

  lemma {:induction false} StepCall(w: World, action: Action, id: CallId)
    requires Known(w) && (forall c, r :: EntryFits(w, c, r)) && (forall i :: CompletionFits(w, i))
    requires forall id :: CallFits(w, id)
    ensures CallFits(Step(w, action), id)
  {
    assert CallFits(w, id);
    if OnRegistry(action) {
      AfterRegistry(w, action);
      KeepsCarried(w, Step(w, action), id);
    } else if action.Clear? {
      CallAfterClear(w, action, id);
    } else if action.LookUp? {
      CallAfterLookUp(w, action, id);
    } else if action.Take? {
      CallAfterTake(w, action, id);
    } else if action.Deliver? {
      CallAfterDeliver(w, action, id);
    } else if action.CleanUp? {
      CallAfterCleanUp(w, action, id);
    } else {
      KeepsCarried(w, Step(w, action), id);
      CallAfterOwnStep(w, action, id);
    }
  }

  lemma KeepsCarried(w: World, next: World, id: CallId)
    requires w.completions <= next.completions
    ensures Carried(w, id) ==> Carried(next, id)
  {
    if Carried(w, id) {
      var i :| CarriedBy(w, i, id);
      assert CarriedBy(next, i, id);
    }
  }

  lemma CallAfterClear(w: World, action: Action, id: CallId)
    requires Known(w) && action.Clear? && CallFits(w, id) && forall c, r :: EntryFits(w, c, r)
    ensures CallFits(Step(w, action), id)
  {
    KeepsCarried(w, Step(w, action), id);
    if id in w.calls {
      assert EntryFits(w, action.connection, w.calls[id].requestId);
    }
  }

  lemma CallAfterLookUp(w: World, action: Action, id: CallId)
    requires CallFits(w, id) && action.LookUp?
    ensures CallFits(Step(w, action), id)
  {
    KeepsCarried(w, Step(w, action), id);
  }

  // What is taken out of the pending map is carried from then on.
  lemma CallAfterTake(w: World, action: Action, id: CallId)
    requires CallFits(w, id) && action.Take?
    ensures CallFits(Step(w, action), id)
  {
    var next := Step(w, action);
    if Carried(w, id) {
      var i :| CarriedBy(w, i, id);
      assert CarriedBy(next, i, id);
    } else if HasEntry(w, id) && !HasEntry(next, id) {
      assert CarriedBy(next, action.completion, id);
    }
  }

  lemma CallAfterDeliver(w: World, action: Action, id: CallId)
    requires CallFits(w, id) && action.Deliver? && CompletionFits(w, action.completion)
    ensures CallFits(Step(w, action), id)
  {
    var next := Step(w, action);
    if Carried(w, id) {
      var i :| CarriedBy(w, i, id);
      if i != action.completion {
        assert CarriedBy(next, i, id);
      }
    }
  }

  lemma CallAfterCleanUp(w: World, action: Action, id: CallId)
    requires Known(w) && action.CleanUp? && CallFits(w, id) && forall c, r :: EntryFits(w, c, r)
    ensures CallFits(Step(w, action), id)
  {
    KeepsCarried(w, Step(w, action), id);
    if action.call in w.calls {
      assert EntryFits(w, w.calls[action.call].connection, w.calls[action.call].requestId);
    }
  }

  lemma CallAfterOwnStep(w: World, action: Action, id: CallId)
    requires Known(w) && CallFits(w, id) && (Carried(w, id) ==> Carried(Step(w, action), id))
    requires !OnRegistry(action) && !OnCompletion(action) && !action.Clear? && !action.CleanUp?
    ensures CallFits(Step(w, action), id)
  {
    if action.Receive? || action.Drop? || action.TimeOut? {
      CallAfterWaiting(w, action, id);
    } else if action.Enrol? {
      CallAfterEnrol(w, action, id);
    }
  }

  lemma CallAfterWaiting(w: World, action: Action, id: CallId)
    requires Known(w) && CallFits(w, id) && (Carried(w, id) ==> Carried(Step(w, action), id))
    requires action.Receive? || action.Drop? || action.TimeOut?
    ensures CallFits(Step(w, action), id)
  {}

  lemma CallAfterEnrol(w: World, action: Action, id: CallId)
    requires Known(w) && CallFits(w, id) && (Carried(w, id) ==> Carried(Step(w, action), id))
    requires action.Enrol?
    ensures CallFits(Step(w, action), id)
  {}

  lemma {:induction false} StepCompletion(w: World, action: Action, i: int)
    requires Known(w) && (forall c, r :: EntryFits(w, c, r)) && (forall i :: CompletionFits(w, i))
    ensures CompletionFits(Step(w, action), i)
  {
    assert CompletionFits(w, i);
    if OnRegistry(action) {
      AfterRegistry(w, action);
    } else if action.Clear? {
      CompletionAfterClear(w, action, i);
    } else if action.Take? {
      CompletionAfterTake(w, action, i);
    } else if action.CleanUp? {
      CompletionAfterCleanUp(w, action, i);
    } else if OnCompletion(action) {
      CompletionAfterOther(w, action, i);
    } else {
      CompletionAfterOwnStep(w, action, i);
    }
  }

  lemma CompletionAfterClear(w: World, action: Action, i: int)
    requires Known(w) && action.Clear? && CompletionFits(w, i)
    ensures CompletionFits(Step(w, action), i)
  {}

  lemma CompletionAfterTake(w: World, action: Action, i: int)
    requires Known(w) && action.Take? && CompletionFits(w, i) && CompletionFits(w, action.completion)
    requires forall c, r :: EntryFits(w, c, r)
    ensures CompletionFits(Step(w, action), i)
  {
    if action.completion < |w.completions| && w.completions[action.completion].Found? {
      var found := w.completions[action.completion];
      assert EntryFits(w, found.connection, found.response.requestId);
    }
  }

  lemma CompletionAfterOther(w: World, action: Action, i: int)
    requires Known(w) && (action.LookUp? || action.Deliver?) && CompletionFits(w, i)
    ensures CompletionFits(Step(w, action), i)
  {}

  lemma CompletionAfterCleanUp(w: World, action: Action, i: int)
    requires Known(w) && action.CleanUp? && CompletionFits(w, i)
    ensures CompletionFits(Step(w, action), i)
  {}

  lemma CompletionAfterOwnStep(w: World, action: Action, i: int)
    requires Known(w) && CompletionFits(w, i)
    requires !OnRegistry(action) && !OnCompletion(action) && !action.Clear? && !action.CleanUp?
    ensures CompletionFits(Step(w, action), i)
  {
    if action.Receive? || action.Drop? || action.TimeOut? {
      CompletionAfterWaiting(w, action, i);
    }
  }

  lemma CompletionAfterWaiting(w: World, action: Action, i: int)
    requires Known(w) && CompletionFits(w, i) && (action.Receive? || action.Drop? || action.TimeOut?)
    ensures CompletionFits(Step(w, action), i)
  {}

  lemma StepPermit(w: World, action: Action, c: ConnectionId, id: CallId)
    requires Known(w) && PermitFits(w, c, id)
    ensures PermitFits(Step(w, action), c, id)
  {
    if OnRegistry(action) || action.Clear? {
      PermitAfterRegistry(w, action, c, id);
    } else if OnCompletion(action) || action.CleanUp? {
      PermitAfterUnpending(w, action, c, id);
    }
  }

  lemma PermitAfterRegistry(w: World, action: Action, c: ConnectionId, id: CallId)
    requires Known(w) && PermitFits(w, c, id) && (OnRegistry(action) || action.Clear?)
    ensures PermitFits(Step(w, action), c, id)
  {}

  lemma PermitAfterUnpending(w: World, action: Action, c: ConnectionId, id: CallId)
    requires Known(w) && PermitFits(w, c, id) && (OnCompletion(action) || action.CleanUp?)
    ensures PermitFits(Step(w, action), c, id)
  {}

  lemma StepBounded(w: World, action: Action, c: ConnectionId)
    requires Bounded(w, c)
    ensures Bounded(Step(w, action), c)
  {}

  lemma StepInvariant(w: World, action: Action)
    requires Invariant(w)
    ensures Invariant(Step(w, action))
  {
    var next := Step(w, action);
    StepKnown(w, action);
    forall c, r
      ensures EntryFits(next, c, r)
    {
      StepEntry(w, action, c, r);
    }
    forall id
      ensures CallFits(next, id)
    {
      StepCall(w, action, id);
    }
    forall i
      ensures CompletionFits(next, i)
    {
      StepCompletion(w, action, i);
    }
    forall c, id
      ensures PermitFits(next, c, id)
    {
      assert PermitFits(w, c, id);
      StepPermit(w, action, c, id);
    }
    forall c
      ensures Bounded(next, c)
    {
      assert Bounded(w, c);
      StepBounded(w, action, c);
    }
  }

  lemma {:induction false} RunKeepsInvariant(w: World, actions: seq<Action>)
    requires Invariant(w)
    ensures Invariant(Run(w, actions))
    decreases |actions|
  {
    if actions != [] {
      var n := |actions| - 1;
      RunKeepsInvariant(w, actions[..n]);
      StepInvariant(Run(w, actions[..n]), actions[n]);
    }
  }

  lemma RunInvariant(maxInFlight: nat, actions: seq<Action>)
    ensures Invariant(Run(Start(maxInFlight), actions))
  {
    RunKeepsInvariant(Start(maxInFlight), actions);
  }

  // ---------- the theorems ----------

  /** A call that succeeds got a response to its own request ID that arrived on the
      very connection its request went out on. */
  lemma ResponsesAreRouted(maxInFlight: nat, actions: seq<Action>, id: CallId)
    requires
      var w := Run(Start(maxInFlight), actions);
      id in w.calls && w.calls[id].phase.Finished? && w.calls[id].phase.outcome.Success?
    ensures
      var w := Run(Start(maxInFlight), actions);
      var response := w.calls[id].phase.outcome.value;
      response.requestId == w.calls[id].requestId && (w.calls[id].connection, response) in w.arrivals
  {
    RunInvariant(maxInFlight, actions);
    assert CallFits(Run(Start(maxInFlight), actions), id);
  }

  lemma StepKeepsFinished(w: World, action: Action, id: CallId)
    requires id in w.calls && w.calls[id].phase.Finished?
    ensures id in Step(w, action).calls && Step(w, action).calls[id].phase == w.calls[id].phase
  {}

  /** A call is resolved at most once: its outcome never changes. */
  lemma {:induction false} OutcomesAreFinal(w: World, actions: seq<Action>, id: CallId)
    requires id in w.calls && w.calls[id].phase.Finished?
    ensures id in Run(w, actions).calls && Run(w, actions).calls[id].phase == w.calls[id].phase
    decreases |actions|
  {
    if actions != [] {
      OutcomesAreFinal(w, actions[..|actions| - 1], id);
      StepKeepsFinished(Run(w, actions[..|actions| - 1]), actions[|actions| - 1], id);
    }
  }

  /** The calls in flight on a connection never exceed the limit, and each host has
      at most one connection and each connection at most one host. */
  lemma InFlightIsBounded(maxInFlight: nat, actions: seq<Action>, c: ConnectionId)
    ensures
      var w := Run(Start(maxInFlight), actions);
      && |set id | id in w.calls && w.calls[id].connection == c && Live(w.calls[id].phase)| <= maxInFlight
      && (forall h1, h2 | Current(w.router, h1, c) && Current(w.router, h2, c) :: h1 == h2)
  {
    var w := Run(Start(maxInFlight), actions);
    RunInvariant(maxInFlight, actions);
    LimitIsFixed(Start(maxInFlight), actions);
    var live := set id | id in w.calls && w.calls[id].connection == c && Live(w.calls[id].phase);
    assert Bounded(w, c);
    if c in w.router.connections {
      forall id
        ensures id in live <==> id in w.router.connections[c].permits
      {
        assert PermitFits(w, c, id);
      }
      assert live == w.router.connections[c].permits;
    } else {
      assert live == {};
    }
  }

  lemma StepKeepsLimit(w: World, action: Action)
    ensures Step(w, action).maxInFlight == w.maxInFlight
  {}

  lemma {:induction false} LimitIsFixed(w: World, actions: seq<Action>)
    ensures Run(w, actions).maxInFlight == w.maxInFlight
    decreases |actions|
  {
    if actions != [] {
      var n := |actions| - 1;
      LimitIsFixed(w, actions[..n]);
      StepKeepsLimit(Run(w, actions[..n]), actions[n]);
    }
  }

  // The connection that an arriving response or a connection's end is about.
  function Concerns(w: World, action: Action): Option<ConnectionId> {
    match action
    case Remove(host, c) => if Current(w.router, host, c) then Some(c) else None
    case Disconnect(host) => Registered(w.router, host)
    case Clear(c) => Some(c)
    case LookUp(host, c, _) => if Current(w.router, host, c) then Some(c) else None
    case Take(i) =>
      if i < |w.completions| && w.completions[i].Found? then Some(w.completions[i].connection) else None
    case Deliver(i) =>
      if i < |w.completions| && w.completions[i].Carrying? && w.completions[i].call in w.calls
      then Some(w.calls[w.completions[i].call].connection) else None
    case _ => None
  }

  /** What arrives for a connection, or its end, concerns that connection and its
      calls alone; and a response that is looked up, or an end that is reported,
      when the connection is no longer the host's current one does nothing. */
  lemma {:induction false} ConnectionsAreIsolated(maxInFlight: nat, actions: seq<Action>, action: Action)
    requires action.Remove? || action.Disconnect? || action.Clear? || OnCompletion(action)
    ensures
      var w := Run(Start(maxInFlight), actions);
      var next := Step(w, action);
      var c := Concerns(w, action);
      && (c.None? ==> next.router == w.router && next.calls == w.calls && next.clearing == w.clearing)
      && (c.None? && action.LookUp? ==> next.completions == w.completions)
      && (forall other | other in w.router.connections && c != Some(other) ::
            other in next.router.connections && next.router.connections[other] == w.router.connections[other])
      && (forall id | id in w.calls && c != Some(w.calls[id].connection) ::
            id in next.calls && next.calls[id] == w.calls[id])
  {
    var w := Run(Start(maxInFlight), actions);
    RunInvariant(maxInFlight, actions);
    forall id | id in w.calls && Concerns(w, action) != Some(w.calls[id].connection)
      ensures id in Step(w, action).calls && Step(w, action).calls[id] == w.calls[id]
    {
      if action.Clear? {
        assert EntryFits(w, action.connection, w.calls[id].requestId);
      }
    }
    if action.Disconnect? && action.host !in w.router.registry {
      assert w.router.registry - {action.host} == w.router.registry;
    }
  }
}
