/**
 The gateway's fixed-window request limiter, which forgets old windows once it holds
 many of them.
 */
module Limiter {
  import opened Wrappers

  type Client = Option<nat> // the address, when there is one

  // Time in nanoseconds.
  datatype Window = Window(startedAt: nat, attempts: nat)

  type Windows = map<Client, Window>

  datatype Limits = Limits(maximum: nat, duration: nat)

  const PRUNING_THRESHOLD := 4096
  const U32_MAX := 0xFFFF_FFFF

  // `maximum` is a 32-bit count.
  predicate Representable(limits: Limits) { limits.maximum <= U32_MAX }

  // Instant::duration_since, which is zero for an earlier `now`.
  function Since(now: nat, startedAt: nat): nat {
    if now < startedAt then 0 else now - startedAt
  }

  function SaturatingAdd(n: nat, m: nat): nat {
    if n + m > U32_MAX then U32_MAX else n + m
  }

  // ---------- one call ----------

  function Prune(windows: Windows, now: nat, duration: nat): Windows {
    if |windows| <= PRUNING_THRESHOLD then windows
    else map c | c in windows && Since(now, windows[c].startedAt) < 2 * duration :: windows[c]
  }

  // The window a call falls into.
  function Current(windows: Windows, now: nat, client: Client, duration: nat): Window {
    if client !in windows || Since(now, windows[client].startedAt) >= duration then Window(now, 0)
    else windows[client]
  }

  function Admits(windows: Windows, call: Call, limits: Limits): bool {
    Current(windows, call.now, call.client, limits.duration).attempts < limits.maximum
  }

  function Counted(windows: Windows, call: Call, limits: Limits): Windows {
    var window := Current(windows, call.now, call.client, limits.duration);
    windows[call.client := if window.attempts < limits.maximum
                           then Window(window.startedAt, SaturatingAdd(window.attempts, 1))
                           else window]
  }

  datatype Call = Call(now: nat, client: Client)

  class FixedWindowLimiter {
    var windows: Windows
    const limits: Limits

    constructor (limits: Limits)
      ensures this.limits == limits && windows == map[]
    {
      this.limits := limits;
      windows := map[];
    }

    method Allow(client: Client, now: nat) returns (allowed: bool)
      modifies this
      ensures
        var before := Prune(old(windows), now, limits.duration);
        && allowed == Admits(before, Call(now, client), limits)
        && windows == Counted(before, Call(now, client), limits)
    {
      if |windows| > PRUNING_THRESHOLD {
        var retention := limits.duration * 2;
        windows := map c | c in windows && Since(now, windows[c].startedAt) < retention :: windows[c];
      }
      if client !in windows {
        windows := windows[client := Window(now, 0)];
      }
      var window := windows[client];
      if Since(now, window.startedAt) >= limits.duration {
        window := Window(now, 0);
        windows := windows[client := window];
      }
      if window.attempts >= limits.maximum {
        return false;
      }
      windows := windows[client := window.(attempts := SaturatingAdd(window.attempts, 1))];
      return true;
    }
  }

  // ---------- runs ----------

  function Before(pruning: bool, windows: Windows, call: Call, limits: Limits): Windows {
    if pruning then Prune(windows, call.now, limits.duration) else windows
  }

  // The decisions of a limiter over a run of calls.
  function Decisions(pruning: bool, windows: Windows, calls: seq<Call>, limits: Limits): (decisions: seq<bool>)
    ensures |decisions| == |calls|
    decreases |calls|
  {
    if calls == [] then []
    else
      var before := Before(pruning, windows, calls[0], limits);
      [Admits(before, calls[0], limits)]
      + Decisions(pruning, Counted(before, calls[0], limits), calls[1..], limits)
  }

  // A clock is read before the lock is taken, so a call can be counted after one
  // that read a later time, though not by more than this.
  predicate NearlyOrdered(calls: seq<Call>, skew: nat) {
    forall i, j | 0 <= i < j < |calls| :: calls[i].now <= calls[j].now + skew
  }

  predicate Ordered(calls: seq<Call>) {
    forall i, j | 0 <= i < j < |calls| :: calls[i].now <= calls[j].now
  }

  // The windows of a pruning limiter are those of one that never prunes, but for
  // windows that every call to come would start over.
  predicate Covers(pruned: Windows, full: Windows, calls: seq<Call>, duration: nat) {
    && (forall c | c in pruned :: c in full && full[c] == pruned[c])
    && (forall c, i | c in full && c !in pruned && 0 <= i < |calls| ::
          Since(calls[i].now, full[c].startedAt) >= duration)
  }

  lemma PruningCovers(pruned: Windows, full: Windows, calls: seq<Call>, duration: nat)
    requires calls != [] && NearlyOrdered(calls, duration) && Covers(pruned, full, calls, duration)
    ensures Covers(Prune(pruned, calls[0].now, duration), full, calls, duration)
  {
    var kept := Prune(pruned, calls[0].now, duration);
    forall c, i | c in full && c !in kept && 0 <= i < |calls|
      ensures Since(calls[i].now, full[c].startedAt) >= duration
    {
      if c in pruned {
        assert Since(calls[0].now, full[c].startedAt) >= 2 * duration;
        assert i > 0 ==> calls[0].now <= calls[i].now + duration;
      }
    }
  }

  lemma CountingCovers(pruned: Windows, full: Windows, calls: seq<Call>, limits: Limits)
    requires calls != [] && Covers(pruned, full, calls, limits.duration)
    ensures Admits(pruned, calls[0], limits) == Admits(full, calls[0], limits)
    ensures Covers(Counted(pruned, calls[0], limits), Counted(full, calls[0], limits), calls[1..], limits.duration)
  {
    var call := calls[0];
    assert Current(pruned, call.now, call.client, limits.duration) == Current(full, call.now, call.client, limits.duration);
    forall c, i | c in full && c !in pruned && 0 <= i < |calls[1..]|
      ensures Since(calls[1..][i].now, full[c].startedAt) >= limits.duration
    {
      assert calls[1..][i] == calls[i + 1];
    }
  }

  /** Forgetting windows changes no decision, as long as calls are counted within
      one duration of the order of their clock readings: that is what keeping
      windows for two durations is for. */
  lemma {:induction false} PruningIsInvisible(pruned: Windows, full: Windows, calls: seq<Call>, limits: Limits)
    requires NearlyOrdered(calls, limits.duration) && Covers(pruned, full, calls, limits.duration)
    ensures Decisions(true, pruned, calls, limits) == Decisions(false, full, calls, limits)
    decreases |calls|
  {
    if calls != [] {
      var kept := Prune(pruned, calls[0].now, limits.duration);
      PruningCovers(pruned, full, calls, limits.duration);
      CountingCovers(kept, full, calls, limits);
      PruningIsInvisible(Counted(kept, calls[0], limits), Counted(full, calls[0], limits), calls[1..], limits);
    }
  }

  // ---------- the bound ----------

  predicate InSpan(now: nat, from: nat, duration: nat) { from <= now < from + duration }

  // How many calls of a client were admitted in a span of one duration.
  function Tally(calls: seq<Call>, decisions: seq<bool>, client: Client, from: nat, duration: nat): nat
    requires |calls| == |decisions|
  {
    if calls == [] then 0
    else
      (if decisions[0] && calls[0].client == client && InSpan(calls[0].now, from, duration) then 1 else 0)
      + Tally(calls[1..], decisions[1..], client, from, duration)
  }

  // A window is there because a call was admitted into it, is never overfull, and
  // started no more than `early` after any call to come.
  predicate Sound(windows: Windows, client: Client, early: nat, maximum: nat, calls: seq<Call>) {
    client in windows ==>
      && 1 <= windows[client].attempts <= maximum
      && forall i | 0 <= i < |calls| :: windows[client].startedAt <= calls[i].now + early
  }

  // The next call counted, for its own client or another.
  lemma SoundNext(windows: Windows, client: Client, early: nat, limits: Limits, calls: seq<Call>)
    requires 0 < limits.maximum && Representable(limits) && calls != []
    requires Sound(windows, client, early, limits.maximum, calls)
    requires forall i | 0 <= i < |calls| :: calls[0].now <= calls[i].now + early
    ensures Sound(Counted(windows, calls[0], limits), client, early, limits.maximum, calls[1..])
  {
    forall i | 0 <= i < |calls[1..]|
      ensures calls[1..][i] == calls[i + 1]
    {
    }
  }

  // How many more admissions the span from `from` can still see, if a window can be
  // at most three wide there: it starts before the span, in it, or after it.
  function Room(windows: Windows, client: Client, from: nat, limits: Limits): int {
    var (m, d) := (limits.maximum, limits.duration);
    if client !in windows || windows[client].startedAt + d <= from then 3 * m - 2
    else
      var left := m - windows[client].attempts;
      if windows[client].startedAt < from then left + 2 * m - 1
      else if windows[client].startedAt < from + d then left + m - 1
      else if windows[client].startedAt < from + 2 * d then left
      else 0
  }

  // One call uses up the room it takes.
  lemma CallUsesRoom(windows: Windows, call: Call, client: Client, from: nat, limits: Limits)
    requires 0 < limits.maximum && Representable(limits)
    requires Sound(windows, client, limits.duration, limits.maximum, [call])
    ensures
      var used := if Admits(windows, call, limits) && call.client == client && InSpan(call.now, from, limits.duration)
                  then 1 else 0;
      used + Room(Counted(windows, call, limits), client, from, limits) <= Room(windows, client, from, limits)
    ensures Room(windows, client, from, limits) >= 0
  {
    assert [call][0] == call;
  }

  lemma {:induction false} RoomBoundsTally(
    windows: Windows, calls: seq<Call>, client: Client, from: nat, limits: Limits)
    requires 0 < limits.maximum && Representable(limits)
    requires NearlyOrdered(calls, limits.duration)
    requires Sound(windows, client, limits.duration, limits.maximum, calls)
    ensures Tally(calls, Decisions(false, windows, calls, limits), client, from, limits.duration)
         <= Room(windows, client, from, limits)
    decreases |calls|
  {
    if calls == [] {
      CallUsesRoom(windows, Call(if client in windows then windows[client].startedAt else 0, client), client, from, limits);
    } else {
      var next := Counted(windows, calls[0], limits);
      SoundNext(windows, client, limits.duration, limits, calls);
      CallUsesRoom(windows, calls[0], client, from, limits);
      RoomBoundsTally(next, calls[1..], client, from, limits);
    }
  }

  // The same, while clock readings are in order: the last one is known.
  function OrderedRoom(windows: Windows, client: Client, last: nat, from: nat, limits: Limits): int {
    if last < from then 2 * limits.maximum - 1
    else if last >= from + limits.duration then 0
    else if client !in windows then limits.maximum
    else
      (if windows[client].startedAt < from then 2 * limits.maximum else limits.maximum)
      - windows[client].attempts
  }

  predicate StartedBy(windows: Windows, client: Client, last: nat, maximum: nat) {
    client in windows ==> windows[client].startedAt <= last && 1 <= windows[client].attempts <= maximum
  }

  lemma CallUsesOrderedRoom(windows: Windows, call: Call, client: Client, last: nat, from: nat, limits: Limits)
    requires 0 < limits.maximum && Representable(limits)
    requires last <= call.now && StartedBy(windows, client, last, limits.maximum)
    ensures StartedBy(Counted(windows, call, limits), client, call.now, limits.maximum)
    ensures
      var used := if Admits(windows, call, limits) && call.client == client && InSpan(call.now, from, limits.duration)
                  then 1 else 0;
      used + OrderedRoom(Counted(windows, call, limits), client, call.now, from, limits)
      <= OrderedRoom(windows, client, last, from, limits)
    ensures OrderedRoom(windows, client, last, from, limits) >= 0
  {}

  lemma {:induction false} OrderedRoomBoundsTally(
    windows: Windows, calls: seq<Call>, client: Client, last: nat, from: nat, limits: Limits)
    requires 0 < limits.maximum && Representable(limits)
    requires StartedBy(windows, client, last, limits.maximum)
    requires Ordered(calls) && (calls != [] ==> last <= calls[0].now)
    ensures Tally(calls, Decisions(false, windows, calls, limits), client, from, limits.duration)
         <= OrderedRoom(windows, client, last, from, limits)
    decreases |calls|
  {
    if calls != [] {
      var next := Counted(windows, calls[0], limits);
      CallUsesOrderedRoom(windows, calls[0], client, last, from, limits);
      OrderedRoomBoundsTally(next, calls[1..], client, calls[0].now, from, limits);
    }
  }

  lemma {:induction false} NothingAdmitted(
    pruning: bool, windows: Windows, calls: seq<Call>, client: Client, from: nat, limits: Limits)
    requires limits.maximum == 0
    ensures Tally(calls, Decisions(pruning, windows, calls, limits), client, from, limits.duration) == 0
    decreases |calls|
  {
    if calls != [] {
      var before := Before(pruning, windows, calls[0], limits);
      NothingAdmitted(pruning, Counted(before, calls[0], limits), calls[1..], client, from, limits);
    }
  }

  /** In any half-open span of one duration the pruning limiter admits a client at
      most 3 * maximum - 2 times, never if the maximum is zero, while clock readings
      are out of order by at most one duration. */
  lemma AdmissionsAreBounded(calls: seq<Call>, client: Client, from: nat, limits: Limits)
    requires Representable(limits) && NearlyOrdered(calls, limits.duration)
    ensures Tally(calls, Decisions(true, map[], calls, limits), client, from, limits.duration)
         <= if limits.maximum == 0 then 0 else 3 * limits.maximum - 2
  {
    var none: Windows := map[];
    PruningIsInvisible(none, none, calls, limits);
    if limits.maximum == 0 {
      NothingAdmitted(false, none, calls, client, from, limits);
    } else {
      RoomBoundsTally(none, calls, client, from, limits);
    }
  }

  /** With clock readings in order it is at most 2 * maximum - 1 times. */
  lemma OrderedAdmissionsAreBounded(calls: seq<Call>, client: Client, from: nat, limits: Limits)
    requires Representable(limits) && Ordered(calls)
    ensures Tally(calls, Decisions(true, map[], calls, limits), client, from, limits.duration)
         <= if limits.maximum == 0 then 0 else 2 * limits.maximum - 1
  {
    var none: Windows := map[];
    PruningIsInvisible(none, none, calls, limits);
    if limits.maximum == 0 {
      NothingAdmitted(false, none, calls, client, from, limits);
    } else if calls != [] {
      OrderedRoomBoundsTally(none, calls, client, calls[0].now, from, limits);
      assert OrderedRoom(none, client, calls[0].now, from, limits) <= 2 * limits.maximum - 1;
    }
  }

  // ---------- both bounds are met ----------

  function Repeat(n: nat, call: Call): seq<Call> {
    if n == 0 then [] else [call] + Repeat(n - 1, call)
  }

  // One call opens a window, the rest of it is used at its very end, and all of
  // the next one right after.
  function Burst(client: Client, limits: Limits): seq<Call>
    requires 0 < limits.maximum && 0 < limits.duration
  {
    [Call(1, client)]
    + (Repeat(limits.maximum - 1, Call(limits.duration, client))
       + (Repeat(limits.maximum, Call(limits.duration + 1, client)) + []))
  }

  // After that a call with a late reading opens a third window, in which calls with
  // earlier readings are counted.
  function LateBurst(client: Client, limits: Limits): seq<Call>
    requires 0 < limits.maximum && 0 < limits.duration
  {
    [Call(1, client)]
    + (Repeat(limits.maximum - 1, Call(limits.duration, client))
       + (Repeat(limits.maximum, Call(limits.duration + 1, client))
          + ([Call(2 * limits.duration + 1, client)]
             + (Repeat(limits.maximum - 1, Call(2 * limits.duration - 1, client)) + []))))
  }

  // The admissions of a run in the span [from, from + duration).
  function Admissions(windows: Windows, calls: seq<Call>, client: Client, from: nat, limits: Limits): nat {
    Tally(calls, Decisions(false, windows, calls, limits), client, from, limits.duration)
  }

  lemma AdmissionsOf(windows: Windows, call: Call, rest: seq<Call>, from: nat, limits: Limits)
    ensures Admissions(windows, [call] + rest, call.client, from, limits) ==
      (if Admits(windows, call, limits) && InSpan(call.now, from, limits.duration) then 1 else 0)
      + Admissions(Counted(windows, call, limits), rest, call.client, from, limits)
  {
    assert ([call] + rest)[1..] == rest;
  }

  function Having(windows: Windows, client: Client, startedAt: nat, attempts: nat): Windows {
    windows[client := Window(startedAt, attempts)]
  }

  // Calls in the span into an open window with room for them are all admitted.
  lemma {:induction false} RepeatsAreAdmitted(
    windows: Windows, startedAt: nat, attempts: nat, n: nat, call: Call, rest: seq<Call>, from: nat, limits: Limits)
    requires Representable(limits) && InSpan(call.now, from, limits.duration)
    requires Since(call.now, startedAt) < limits.duration && attempts + n <= limits.maximum
    ensures Admissions(Having(windows, call.client, startedAt, attempts), Repeat(n, call) + rest, call.client, from, limits)
         == n + Admissions(Having(windows, call.client, startedAt, attempts + n), rest, call.client, from, limits)
    decreases n
  {
    var now := Having(windows, call.client, startedAt, attempts);
    if n == 0 {
      assert Repeat(n, call) + rest == rest;
    } else {
      assert Repeat(n, call) + rest == [call] + (Repeat(n - 1, call) + rest);
      AdmissionsOf(now, call, Repeat(n - 1, call) + rest, from, limits);
      assert Counted(now, call, limits) == Having(windows, call.client, startedAt, attempts + 1);
      RepeatsAreAdmitted(windows, startedAt, attempts + 1, n - 1, call, rest, from, limits);
    }
  }

  // A call that opens a window.
  lemma Opens(windows: Windows, call: Call, rest: seq<Call>, from: nat, limits: Limits)
    requires Representable(limits) && 0 < limits.maximum
    requires call.client in windows ==> Since(call.now, windows[call.client].startedAt) >= limits.duration
    ensures Admissions(windows, [call] + rest, call.client, from, limits) ==
      (if InSpan(call.now, from, limits.duration) then 1 else 0)
      + Admissions(Having(windows, call.client, call.now, 1), rest, call.client, from, limits)
  {
    AdmissionsOf(windows, call, rest, from, limits);
  }

  // All of a new window, used at once.
  lemma {:induction false} WholeWindow(windows: Windows, call: Call, rest: seq<Call>, from: nat, limits: Limits)
    requires Representable(limits) && 0 < limits.maximum && 0 < limits.duration
    requires call.client in windows && Since(call.now, windows[call.client].startedAt) >= limits.duration
    requires InSpan(call.now, from, limits.duration)
    ensures Admissions(windows, Repeat(limits.maximum, call) + rest, call.client, from, limits)
         == limits.maximum
            + Admissions(Having(windows, call.client, call.now, limits.maximum), rest, call.client, from, limits)
  {
    var n := limits.maximum - 1;
    assert Repeat(limits.maximum, call) + rest == [call] + (Repeat(n, call) + rest);
    Opens(windows, call, Repeat(n, call) + rest, from, limits);
    RepeatsAreAdmitted(windows, call.now, 1, n, call, rest, from, limits);
  }

  // The first two windows of both bursts, seen from the end of the first.
  lemma TwoWindows(client: Client, rest: seq<Call>, limits: Limits)
    requires Representable(limits) && 0 < limits.maximum && 1 < limits.duration
    ensures
      var (m, d) := (limits.maximum, limits.duration);
      var none: Windows := map[];
      var calls := [Call(1, client)]
        + (Repeat(m - 1, Call(d, client)) + (Repeat(m, Call(d + 1, client)) + rest));
      Admissions(none, calls, client, d, limits)
      == 2 * m - 1 + Admissions(Having(none, client, d + 1, m), rest, client, d, limits)
  {
    var (m, d) := (limits.maximum, limits.duration);
    var none: Windows := map[];
    var second := Repeat(m, Call(d + 1, client)) + rest;
    Opens(none, Call(1, client), Repeat(m - 1, Call(d, client)) + second, d, limits);
    RepeatsAreAdmitted(none, 1, 1, m - 1, Call(d, client), second, d, limits);
    WholeWindow(Having(none, client, 1, m), Call(d + 1, client), rest, d, limits);
    assert Having(Having(none, client, 1, m), client, d + 1, m) == Having(none, client, d + 1, m);
  }

  /** For every limiter with a maximum and a duration of more than a tick, some run
      with readings in order admits a client 2 * maximum - 1 times in one span. */
  lemma OrderedBoundIsMet(client: Client, limits: Limits)
    requires Representable(limits) && 0 < limits.maximum && 1 < limits.duration
    ensures
      var calls := Burst(client, limits);
      && Ordered(calls)
      && Tally(calls, Decisions(true, map[], calls, limits), client, limits.duration, limits.duration)
         == 2 * limits.maximum - 1
  {
    var none: Windows := map[];
    BurstIsOrdered(client, limits);
    PruningIsInvisible(none, none, Burst(client, limits), limits);
    TwoWindows(client, [], limits);
  }

  lemma BurstIsOrdered(client: Client, limits: Limits)
    requires 0 < limits.maximum && 0 < limits.duration
    ensures Ordered(Burst(client, limits))
  {
    RepeatIsConstant(limits.maximum - 1, Call(limits.duration, client));
    RepeatIsConstant(limits.maximum, Call(limits.duration + 1, client));
  }

  /** And some run with readings out of order by no more than a duration admits it
      3 * maximum - 2 times. */
  lemma BoundIsMet(client: Client, limits: Limits)
    requires Representable(limits) && 0 < limits.maximum && 1 < limits.duration
    ensures
      var calls := LateBurst(client, limits);
      && NearlyOrdered(calls, limits.duration)
      && Tally(calls, Decisions(true, map[], calls, limits), client, limits.duration, limits.duration)
         == 3 * limits.maximum - 2
  {
    var d := limits.duration;
    var none: Windows := map[];
    LateBurstIsNearlyOrdered(client, limits);
    PruningIsInvisible(none, none, LateBurst(client, limits), limits);
    var last := Repeat(limits.maximum - 1, Call(2 * d - 1, client)) + [];
    TwoWindows(client, [Call(2 * d + 1, client)] + last, limits);
    ThirdWindow(client, limits);
  }

  lemma ThirdWindow(client: Client, limits: Limits)
    requires Representable(limits) && 0 < limits.maximum && 1 < limits.duration
    ensures
      var (m, d) := (limits.maximum, limits.duration);
      var last := Repeat(m - 1, Call(2 * d - 1, client)) + [];
      Admissions(Having(map[], client, d + 1, m), [Call(2 * d + 1, client)] + last, client, d, limits) == m - 1
  {
    var (m, d) := (limits.maximum, limits.duration);
    var none: Windows := map[];
    var last := Repeat(m - 1, Call(2 * d - 1, client)) + [];
    var second := Having(none, client, d + 1, m);
    Opens(second, Call(2 * d + 1, client), last, d, limits);
    assert Having(second, client, 2 * d + 1, 1) == Having(none, client, 2 * d + 1, 1);
    RepeatsAreAdmitted(none, 2 * d + 1, 1, m - 1, Call(2 * d - 1, client), [], d, limits);
  }

  lemma LateBurstIsNearlyOrdered(client: Client, limits: Limits)
    requires 0 < limits.maximum && 1 < limits.duration
    ensures NearlyOrdered(LateBurst(client, limits), limits.duration)
  {
    var (m, d) := (limits.maximum, limits.duration);
    RepeatIsConstant(m - 1, Call(d, client));
    RepeatIsConstant(m, Call(d + 1, client));
    RepeatIsConstant(m - 1, Call(2 * d - 1, client));
    var calls := LateBurst(client, limits);
    forall i | 0 <= i < |calls|
      ensures calls[i].now <= 2 * d + 1 && (i < 2 * m ==> calls[i].now <= d + 1)
      ensures i >= 1 ==> calls[i].now >= d
      ensures i >= 2 * m ==> calls[i].now >= 2 * d - 1
    {
    }
  }

  lemma {:induction false} RepeatIsConstant(n: nat, call: Call)
    ensures |Repeat(n, call)| == n && forall i | 0 <= i < n :: Repeat(n, call)[i] == call
  {
    if n > 0 {
      RepeatIsConstant(n - 1, call);
    }
  }
}
