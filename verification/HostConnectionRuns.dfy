/**
 Runs of the router in which a call is let down although its response arrived, or
 although its connection is there all the time.
 */
module HostConnectionRuns {
  import opened Wrappers
  import opened HostConnections

  // A run known step by step, from the last to the first.
  lemma {:induction false} Hop(w: World, action: Action, next: World, rest: seq<Action>, last: World)
    requires Step(w, action) == next && Run(next, rest) == last
    ensures Run(w, [action] + rest) == last
  {
    assert [action][..0] == [];
    RunAppend(w, [action], rest);
  }

  // A host with one connection that has these pending entries and permits.
  function Online(n: nat, pending: map<string, CallId>, permits: set<CallId>, calls: map<CallId, Call>): World {
    World(Router(map[0 := 0], map[0 := Connection(pending, permits)]), {}, calls, [], [], n)
  }

  // A call goes out to the host.
  function CallOut(id: CallId, r: string): seq<Action> {
    [Execute(id, 0, r)] + ([Acquire(id)] + ([Enrol(id)] + ([Send(id, true, false)] + [])))
  }

  predicate Idle(w: World, id: CallId, r: string) {
    && w.router.registry == map[0 := 0] && w.router.connections.Keys == {0}
    && id !in w.calls && r !in w.router.connections[0].pending
    && id !in w.router.connections[0].permits && |w.router.connections[0].permits| < w.maxInFlight
  }

  function OutOn(w: World, id: CallId, r: string, phase: Phase, permits: set<CallId>, pending: map<string, CallId>): World {
    w.(calls := w.calls[id := Call(0, r, phase, Empty)],
       router := w.router.(connections := map[0 := Connection(pending, permits)]))
  }

  lemma {:induction false} CallOutRun(w: World, id: CallId, r: string)
    requires Idle(w, id, r)
    ensures var c := w.router.connections[0];
      Run(w, CallOut(id, r)) == OutOn(w, id, r, Waiting, c.permits + {id}, c.pending[r := id])
  {
    var c := w.router.connections[0];
    var (free, held) := (c.permits, c.permits + {id});
    var (without, with) := (c.pending, c.pending[r := id]);
    var w1 := OutOn(w, id, r, Acquiring, free, without);
    var w2 := OutOn(w, id, r, Enrolling, held, without);
    var w3 := OutOn(w, id, r, Sending, held, with);
    var w4 := OutOn(w, id, r, Waiting, held, with);
    OutStep1(w, id, r);
    OutStep2(w, id, r);
    OutStep3(w, id, r);
    OutStep4(w, id, r);
    Hop(w3, Send(id, true, false), w4, [], w4);
    Hop(w2, Enrol(id), w3, [Send(id, true, false)] + [], w4);
    Hop(w1, Acquire(id), w2, [Enrol(id)] + ([Send(id, true, false)] + []), w4);
    Hop(w, Execute(id, 0, r), w1, [Acquire(id)] + ([Enrol(id)] + ([Send(id, true, false)] + [])), w4);
  }

  lemma OutStep1(w: World, id: CallId, r: string)
    requires Idle(w, id, r)
    ensures var c := w.router.connections[0];
      Step(w, Execute(id, 0, r)) == OutOn(w, id, r, Acquiring, c.permits, c.pending)
  {
    assert w.router.connections == map[0 := w.router.connections[0]];
  }

  lemma OutStep2(w: World, id: CallId, r: string)
    requires Idle(w, id, r)
    ensures var c := w.router.connections[0];
      Step(OutOn(w, id, r, Acquiring, c.permits, c.pending), Acquire(id))
      == OutOn(w, id, r, Enrolling, c.permits + {id}, c.pending)
  {}

  lemma OutStep3(w: World, id: CallId, r: string)
    requires Idle(w, id, r)
    ensures var c := w.router.connections[0];
      Step(OutOn(w, id, r, Enrolling, c.permits + {id}, c.pending), Enrol(id))
      == OutOn(w, id, r, Sending, c.permits + {id}, c.pending[r := id])
  {}

  lemma OutStep4(w: World, id: CallId, r: string)
    requires Idle(w, id, r)
    ensures var c := w.router.connections[0];
      Step(OutOn(w, id, r, Sending, c.permits + {id}, c.pending[r := id]), Send(id, true, false))
      == OutOn(w, id, r, Waiting, c.permits + {id}, c.pending[r := id])
  {}

  // A host connects, and a call waits there.
  function Opening(r: string): seq<Action> {
    [Insert(0, 0)] + CallOut(1, r)
  }

  function OneWaiting(n: nat, r: string): World {
    Online(n, map[r := 1], {1}, map[1 := Call(0, r, Waiting, Empty)])
  }

  lemma OpeningRun(n: nat, r: string)
    requires n >= 1
    ensures Run(Start(n), Opening(r)) == OneWaiting(n, r)
  {
    var w := Online(n, map[], {}, map[]);
    CallOutRun(w, 1, r);
    assert Run(w, CallOut(1, r)) == OneWaiting(n, r);
    Hop(Start(n), Insert(0, 0), w, CallOut(1, r), OneWaiting(n, r));
  }

  // A response is looked up, the host reconnects, and only then is the entry taken.
  function Replacement(r: string, body: nat): seq<Action> {
    [LookUp(0, 0, Response(r, body))] + ([Insert(0, 1)] + ([Clear(0)] + ([Take(0)] + ([Receive(1)] + []))))
  }

  function Replaced(n: nat, r: string, body: nat, pending: map<string, CallId>, permits: set<CallId>): World {
    World(Router(map[0 := 1], map[0 := Connection(pending, permits), 1 := Connection(map[], {})]), {0},
          map[1 := Call(0, r, Waiting, Empty)], [Found(0, Response(r, body))], [(0, Response(r, body))], n)
  }

  function LetDown(n: nat, r: string, body: nat): World {
    Replaced(n, r, body, map[], {1}).(clearing := {}, calls := map[1 := Call(0, r, Waiting, Closed)])
  }

  function Failed(n: nat, r: string, body: nat): World {
    Replaced(n, r, body, map[], {}).(clearing := {}, completions := [Ended],
      calls := map[1 := Call(0, r, Finished(Failure(Disconnected)), Closed)])
  }

  lemma ReplacementSteps(n: nat, r: string, body: nat)
    ensures
      var found := OneWaiting(n, r).(
        arrivals := [(0, Response(r, body))], completions := [Found(0, Response(r, body))]);
      && Step(OneWaiting(n, r), LookUp(0, 0, Response(r, body))) == found
      && Step(found, Insert(0, 1)) == Replaced(n, r, body, map[r := 1], {1})
  {}

  lemma ClearLetsDown(n: nat, r: string, body: nat)
    ensures Step(Replaced(n, r, body, map[r := 1], {1}), Clear(0)) == LetDown(n, r, body)
  {
    var w := Replaced(n, r, body, map[r := 1], {1});
    var last := LetDown(n, r, body);
    CloseOne(r);
    ClearOne(r);
    assert w.clearing - {0} == last.clearing;
  }

  lemma ClearOne(r: string)
    ensures
      var before := Router(map[0 := 1], map[0 := Connection(map[r := 1], {1}), 1 := Connection(map[], {})]);
      && PendingOf(before, 0) == map[r := 1]
      && Cleared(before, 0) == Router(map[0 := 1], map[0 := Connection(map[], {1}), 1 := Connection(map[], {})])
  {}

  lemma CloseOne(r: string)
    ensures CloseAll(map[1 := Call(0, r, Waiting, Empty)], map[r := 1]) == map[1 := Call(0, r, Waiting, Closed)]
  {}

  lemma TakeFindsNothing(n: nat, r: string, body: nat)
    ensures
      var taken := LetDown(n, r, body).(completions := [Ended]);
      && Step(LetDown(n, r, body), Take(0)) == taken
      && Step(taken, Receive(1)) == Failed(n, r, body)
  {
    var held: set<CallId> := {1};
    assert held - {1} == {};
  }

  /** Even with a single call in the world, a response that arrived in time is lost
      when its connection is replaced between look-up and take. */
  lemma ReplacementLosesAResponse(n: nat, r: string, body: nat)
    requires n >= 1
    ensures Run(Start(n), Opening(r) + Replacement(r, body)) == Failed(n, r, body)
    ensures var w := Failed(n, r, body);
      && (0, Response(r, body)) in w.arrivals
      && w.calls == map[1 := Call(0, r, Finished(Failure(Disconnected)), Closed)]
  {
    OpeningRun(n, r);
    RunAppend(Start(n), Opening(r), Replacement(r, body));
    ReplacementRun(n, r, body);
  }

  lemma {:induction false} ReplacementRun(n: nat, r: string, body: nat)
    ensures Run(OneWaiting(n, r), Replacement(r, body)) == Failed(n, r, body)
  {
    var last := Failed(n, r, body);
    var found := OneWaiting(n, r).(
      arrivals := [(0, Response(r, body))], completions := [Found(0, Response(r, body))]);
    ReplacementSteps(n, r, body);
    ClearLetsDown(n, r, body);
    TakeFindsNothing(n, r, body);
    Hop(LetDown(n, r, body).(completions := [Ended]), Receive(1), last, [], last);
    Hop(LetDown(n, r, body), Take(0), LetDown(n, r, body).(completions := [Ended]), [Receive(1)] + [], last);
    Hop(Replaced(n, r, body, map[r := 1], {1}), Clear(0), LetDown(n, r, body), [Take(0)] + ([Receive(1)] + []), last);
    Hop(found, Insert(0, 1), Replaced(n, r, body, map[r := 1], {1}),
        [Clear(0)] + ([Take(0)] + ([Receive(1)] + [])), last);
    Hop(OneWaiting(n, r), LookUp(0, 0, Response(r, body)), found,
        [Insert(0, 1)] + ([Clear(0)] + ([Take(0)] + ([Receive(1)] + []))), last);
  }

  // A call is answered in the moment it times out; before it cleans up, another
  // call goes out under its request ID.
  function LateAnswer(r: string, body: nat): seq<Action> {
    [TimeOut(1)] + ([LookUp(0, 0, Response(r, body))] + ([Take(0)] + []))
  }

  function OneLate(n: nat, r: string, body: nat): World {
    Online(n, map[], {1}, map[1 := Call(0, r, Cleaning(Timeout), Empty)]).(
      completions := [Carrying(1, Response(r, body))], arrivals := [(0, Response(r, body))])
  }

  lemma {:induction false} LateAnswerRun(n: nat, r: string, body: nat)
    ensures Run(OneWaiting(n, r), LateAnswer(r, body)) == OneLate(n, r, body)
  {
    var response := Response(r, body);
    var last := OneLate(n, r, body);
    var late := Online(n, map[r := 1], {1}, map[1 := Call(0, r, Cleaning(Timeout), Empty)]);
    var found := late.(arrivals := [(0, response)], completions := [Found(0, response)]);
    LateSteps(n, r, body);
    LateTake(n, r, body);
    Hop(found, Take(0), last, [], last);
    Hop(late, LookUp(0, 0, response), found, [Take(0)] + [], last);
    Hop(OneWaiting(n, r), TimeOut(1), late, [LookUp(0, 0, response)] + ([Take(0)] + []), last);
  }

  lemma LateSteps(n: nat, r: string, body: nat)
    ensures
      var response := Response(r, body);
      var late := Online(n, map[r := 1], {1}, map[1 := Call(0, r, Cleaning(Timeout), Empty)]);
      var found := late.(arrivals := [(0, response)], completions := [Found(0, response)]);
      && Step(OneWaiting(n, r), TimeOut(1)) == late
      && Step(late, LookUp(0, 0, response)) == found
  {}

  lemma LateTake(n: nat, r: string, body: nat)
    ensures
      var late := Online(n, map[r := 1], {1}, map[1 := Call(0, r, Cleaning(Timeout), Empty)]);
      var found := late.(arrivals := [(0, Response(r, body))], completions := [Found(0, Response(r, body))]);
      Step(found, Take(0)) == OneLate(n, r, body)
  {
    var some: map<string, CallId> := map[r := 1];
    assert some - {r} == map[];
    var late := Online(n, some, {1}, map[1 := Call(0, r, Cleaning(Timeout), Empty)]);
    assert Unpended(late.router, 0, r) == OneLate(n, r, body).router;
  }

  // The second call on its way, and after the first has cleaned up.
  function LateAndWaiting(n: nat, r: string, body: nat): World {
    OutOn(OneLate(n, r, body), 2, r, Waiting, {1} + {2}, map[r := 2])
  }

  function CleanedUp(n: nat, r: string, body: nat, phase: Phase, permits: set<CallId>): World {
    OneLate(n, r, body).(
      router := Router(map[0 := 0], map[0 := Connection(map[], permits)]),
      calls := map[1 := Call(0, r, Finished(Failure(Timeout)), Empty), 2 := Call(0, r, phase, Closed)])
  }

  lemma CleanUpLetsDown(n: nat, r: string, body: nat)
    ensures Step(LateAndWaiting(n, r, body), CleanUp(1)) == CleanedUp(n, r, body, Waiting, {2})
  {
    var w := LateAndWaiting(n, r, body);
    var last := CleanedUp(n, r, body, Waiting, {2});
    var returned := Return(w, 1, Finished(Failure(Timeout)));
    assert Entry(w.router, 0, r) == Some(2);
    CleanUpRouter(r);
    CleanUpCalls(r);
    assert returned.calls == map[1 := Call(0, r, Finished(Failure(Timeout)), Empty), 2 := Call(0, r, Waiting, Empty)];
    assert Unpended(returned.router, 0, r) == last.router;
  }

  lemma CleanUpRouter(r: string)
    ensures
      var before := Router(map[0 := 0], map[0 := Connection(map[r := 2], {1} + {2})]);
      Unpended(Released(before, 0, 1), 0, r) == Router(map[0 := 0], map[0 := Connection(map[], {2})])
  {
    var entry: map<string, CallId> := map[r := 2];
    var none: map<string, CallId> := map[];
    assert {1} + {2} - {1} == {2} && entry - {r} == none;
  }

  lemma CleanUpCalls(r: string)
    ensures
      CloseAll(map[1 := Call(0, r, Finished(Failure(Timeout)), Empty), 2 := Call(0, r, Waiting, Empty)], map[r := 2])
      == map[1 := Call(0, r, Finished(Failure(Timeout)), Empty), 2 := Call(0, r, Waiting, Closed)]
  {}

  lemma ReceiveFails(n: nat, r: string, body: nat)
    ensures Step(CleanedUp(n, r, body, Waiting, {2}), Receive(2))
         == CleanedUp(n, r, body, Finished(Failure(Disconnected)), {})
  {
    var held: set<CallId> := {2};
    assert held - {2} == {};
  }

  function Collision(r: string, body: nat): seq<Action> {
    LateAnswer(r, body) + (CallOut(2, r) + ([CleanUp(1)] + ([Receive(2)] + [])))
  }

  /** With a shared request ID a call can fail as disconnected on a connection that
      is the host's current one all the time. */
  lemma {:induction false} SharedRequestIdsCollide(n: nat, r: string, body: nat)
    requires n >= 2
    ensures var w := Run(Start(n), Opening(r) + Collision(r, body));
      && w == CleanedUp(n, r, body, Finished(Failure(Disconnected)), {})
      && Current(w.router, 0, 0)
      && w.calls[2] == Call(0, r, Finished(Failure(Disconnected)), Closed)
  {
    var last := CleanedUp(n, r, body, Finished(Failure(Disconnected)), {});
    var ending := [CleanUp(1)] + ([Receive(2)] + []);
    CleanUpLetsDown(n, r, body);
    ReceiveFails(n, r, body);
    Hop(CleanedUp(n, r, body, Waiting, {2}), Receive(2), last, [], last);
    Hop(LateAndWaiting(n, r, body), CleanUp(1), CleanedUp(n, r, body, Waiting, {2}), [Receive(2)] + [], last);
    CallOutRun(OneLate(n, r, body), 2, r);
    RunAppend(OneLate(n, r, body), CallOut(2, r), ending);
    LateAnswerRun(n, r, body);
    RunAppend(OneWaiting(n, r), LateAnswer(r, body), CallOut(2, r) + ending);
    OpeningRun(n, r);
    RunAppend(Start(n), Opening(r), Collision(r, body));
  }
}
