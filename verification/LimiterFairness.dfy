/**
 What a limiter owes its clients: nobody is refused who has not used up the maximum
 within the last duration, and neither refused calls nor other clients' calls count
 against anyone.
 */
module LimiterFairness {
  import opened Limiter

  // ---------- no client is refused too early ----------

  // The start of the span of one duration that ends with a reading.
  function SpanBefore(now: nat, duration: nat): nat {
    if now + 1 <= duration then 0 else now + 1 - duration
  }

  // The client's window, if it began in the span, holds no more than was admitted there.
  predicate CountsIn(windows: Windows, client: Client, from: nat, admitted: nat, now: nat) {
    client in windows ==>
      && windows[client].startedAt <= now
      && (windows[client].startedAt >= from ==> windows[client].attempts <= admitted)
  }

  lemma CallCountsIn(windows: Windows, call: Call, client: Client, from: nat, admitted: nat, limits: Limits)
    requires Representable(limits) && call.now < from + limits.duration
    requires CountsIn(windows, client, from, admitted, call.now)
    ensures
      var used := if Admits(windows, call, limits) && call.client == client && InSpan(call.now, from, limits.duration)
                  then 1 else 0;
      CountsIn(Counted(windows, call, limits), client, from, admitted + used, call.now)
  {}

  lemma {:induction false} RefusedInSpan(
    windows: Windows, calls: seq<Call>, i: nat, from: nat, admitted: nat, limits: Limits)
    requires Representable(limits) && Ordered(calls) && i < |calls|
    requires from == SpanBefore(calls[i].now, limits.duration) && 0 < limits.duration
    requires CountsIn(windows, calls[i].client, from, admitted, calls[0].now)
    requires !Decisions(false, windows, calls, limits)[i]
    ensures
      admitted
      + Tally(calls[..i], Decisions(false, windows, calls, limits)[..i], calls[i].client, from, limits.duration)
      >= limits.maximum
    decreases i
  {
    var decisions := Decisions(false, windows, calls, limits);
    if i > 0 {
      var client := calls[i].client;
      var next := Counted(windows, calls[0], limits);
      CallCountsIn(windows, calls[0], client, from, admitted, limits);
      var used := if decisions[0] && calls[0].client == client && InSpan(calls[0].now, from, limits.duration)
                  then 1 else 0;
      assert calls[1..][0] == calls[1];
      RefusedInSpan(next, calls[1..], i - 1, from, admitted + used, limits);
      assert calls[..i][1..] == calls[1..][..i - 1];
      assert decisions[..i][1..] == decisions[1..][..i - 1];
    }
  }

  /** With clock readings in order, a client is refused only if the maximum number of
      its own calls was admitted within the last duration. */
  lemma RefusedOnlyWhenUsedUp(calls: seq<Call>, i: nat, limits: Limits)
    requires Representable(limits) && Ordered(calls) && i < |calls|
    ensures
      var decisions := Decisions(true, map[], calls, limits);
      !decisions[i] ==>
        Tally(calls[..i], decisions[..i], calls[i].client, SpanBefore(calls[i].now, limits.duration), limits.duration)
        >= limits.maximum
  {
    var none: Windows := map[];
    PruningIsInvisible(none, none, calls, limits);
    if !Decisions(false, none, calls, limits)[i] {
      if limits.duration == 0 {
        NoDuration(none, calls, i, limits);
      } else {
        RefusedInSpan(none, calls, i, SpanBefore(calls[i].now, limits.duration), 0, limits);
      }
    }
  }

  // Every call opens a window of its own.
  lemma {:induction false} NoDuration(windows: Windows, calls: seq<Call>, i: nat, limits: Limits)
    requires limits.duration == 0 && i < |calls| && !Decisions(false, windows, calls, limits)[i]
    ensures limits.maximum == 0
    decreases i
  {
    if i > 0 {
      NoDuration(Counted(windows, calls[0], limits), calls[1..], i - 1, limits);
    }
  }

  // ---------- refused calls leave no trace ----------

  function Without<T>(s: seq<T>, i: nat): seq<T>
    requires i < |s|
  {
    s[..i] + s[i + 1..]
  }

  lemma {:induction false} NeverAdmitted(windows: Windows, calls: seq<Call>, limits: Limits)
    requires limits.maximum == 0
    ensures forall i | 0 <= i < |calls| :: !Decisions(false, windows, calls, limits)[i]
    decreases |calls|
  {
    if calls != [] {
      NeverAdmitted(Counted(windows, calls[0], limits), calls[1..], limits);
    }
  }

  lemma WithoutNext<T(!new)>(s: seq<T>, i: nat)
    requires 0 < i < |s|
    ensures Without(s, i) == [s[0]] + Without(s[1..], i - 1)
  {}

  lemma RefusedFirst(windows: Windows, calls: seq<Call>, limits: Limits)
    requires 0 < limits.maximum && calls != [] && !Decisions(false, windows, calls, limits)[0]
    ensures Counted(windows, calls[0], limits) == windows
  {}

  lemma {:induction false} RefusedIsNotCounted(windows: Windows, calls: seq<Call>, i: nat, limits: Limits)
    requires 0 < limits.maximum && i < |calls| && !Decisions(false, windows, calls, limits)[i]
    ensures Decisions(false, windows, Without(calls, i), limits)
         == Without(Decisions(false, windows, calls, limits), i)
    decreases i
  {
    var decisions := Decisions(false, windows, calls, limits);
    var next := Counted(windows, calls[0], limits);
    assert decisions == [Admits(windows, calls[0], limits)] + Decisions(false, next, calls[1..], limits);
    if i == 0 {
      RefusedFirst(windows, calls, limits);
      assert Without(calls, 0) == calls[1..] && Without(decisions, 0) == decisions[1..];
    } else {
      assert decisions[1..] == Decisions(false, next, calls[1..], limits);
      RefusedIsNotCounted(next, calls[1..], i - 1, limits);
      WithoutNext(calls, i);
      WithoutNext(decisions, i);
      DecisionsNext(windows, calls[0], Without(calls[1..], i - 1), limits);
    }
  }

  lemma DecisionsNext(windows: Windows, call: Call, rest: seq<Call>, limits: Limits)
    ensures Decisions(false, windows, [call] + rest, limits)
         == [Admits(windows, call, limits)] + Decisions(false, Counted(windows, call, limits), rest, limits)
  {
    assert ([call] + rest)[1..] == rest;
  }

  /** Leaving a refused call out of a run changes no other decision: trying again
      does not keep a client locked out. */
  lemma RefusalsLeaveNoTrace(calls: seq<Call>, i: nat, limits: Limits)
    requires NearlyOrdered(calls, limits.duration) && i < |calls|
    requires !Decisions(true, map[], calls, limits)[i]
    ensures Decisions(true, map[], Without(calls, i), limits) == Without(Decisions(true, map[], calls, limits), i)
  {
    var none: Windows := map[];
    var shorter := Without(calls, i);
    assert forall k | 0 <= k < |shorter| :: shorter[k] == if k < i then calls[k] else calls[k + 1];
    PruningIsInvisible(none, none, calls, limits);
    PruningIsInvisible(none, none, shorter, limits);
    if limits.maximum > 0 {
      RefusedIsNotCounted(none, calls, i, limits);
    } else {
      NeverAdmitted(none, calls, limits);
      NeverAdmitted(none, shorter, limits);
    }
  }

  // ---------- clients do not affect each other ----------

  // The client's own calls, and the decisions on them.
  function OwnCalls(calls: seq<Call>, client: Client): seq<Call> {
    if calls == [] then []
    else (if calls[0].client == client then [calls[0]] else []) + OwnCalls(calls[1..], client)
  }

  function OwnDecisions(calls: seq<Call>, decisions: seq<bool>, client: Client): seq<bool>
    requires |calls| == |decisions|
  {
    if calls == [] then []
    else
      (if calls[0].client == client then [decisions[0]] else [])
      + OwnDecisions(calls[1..], decisions[1..], client)
  }

  lemma {:induction false} OwnAreCalls(calls: seq<Call>, client: Client)
    ensures forall call | call in OwnCalls(calls, client) :: call in calls
  {
    if calls != [] {
      OwnAreCalls(calls[1..], client);
    }
  }

  lemma {:induction false} OwnAreOrdered(calls: seq<Call>, client: Client, skew: nat)
    requires NearlyOrdered(calls, skew)
    ensures NearlyOrdered(OwnCalls(calls, client), skew)
  {
    if calls != [] {
      var rest := OwnCalls(calls[1..], client);
      OwnAreOrdered(calls[1..], client, skew);
      OwnAreCalls(calls[1..], client);
      forall j | 0 <= j < |rest|
        ensures calls[0].now <= rest[j].now + skew
      {
        assert rest[j] in calls[1..];
      }
    }
  }

  lemma {:induction false} OthersDoNotCount(
    windows: Windows, own: Windows, calls: seq<Call>, client: Client, limits: Limits)
    requires client in windows <==> client in own
    requires client in windows ==> windows[client] == own[client]
    ensures OwnDecisions(calls, Decisions(false, windows, calls, limits), client)
         == Decisions(false, own, OwnCalls(calls, client), limits)
    decreases |calls|
  {
    if calls != [] {
      var next := Counted(windows, calls[0], limits);
      if calls[0].client == client {
        OthersDoNotCount(next, Counted(own, calls[0], limits), calls[1..], client, limits);
      } else {
        OthersDoNotCount(next, own, calls[1..], client, limits);
        assert OwnCalls(calls, client) == OwnCalls(calls[1..], client);
        var decisions := Decisions(false, windows, calls, limits);
        assert decisions[1..] == Decisions(false, next, calls[1..], limits);
        assert OwnDecisions(calls, decisions, client) == OwnDecisions(calls[1..], decisions[1..], client);
      }
    }
  }

  /** What is decided about a client's calls is what would be decided if no one else
      had called. */
  lemma ClientsAreIndependent(calls: seq<Call>, client: Client, limits: Limits)
    requires NearlyOrdered(calls, limits.duration)
    ensures OwnDecisions(calls, Decisions(true, map[], calls, limits), client)
         == Decisions(true, map[], OwnCalls(calls, client), limits)
  {
    var none: Windows := map[];
    PruningIsInvisible(none, none, calls, limits);
    OwnAreOrdered(calls, client, limits.duration);
    PruningIsInvisible(none, none, OwnCalls(calls, client), limits);
    OthersDoNotCount(none, none, calls, client, limits);
  }
}
