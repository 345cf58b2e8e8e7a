/**
 How far clock readings may be out of order before the limiter stops limiting: by
 less than two durations.
 */
module LimiterDisorder {
  import opened Wrappers
  import opened Limiter

  // The admissions of a client in the span [from, from + duration).
  function Counting(
    pruning: bool, windows: Windows, calls: seq<Call>, client: Client, from: nat, limits: Limits): nat
  {
    Tally(calls, Decisions(pruning, windows, calls, limits), client, from, limits.duration)
  }

  // ---------- below two durations ----------

  // How far apart the windows of a client start at least, forgotten ones included.
  function Gap(limits: Limits, skew: nat): (gap: nat)
    requires skew < 2 * limits.duration
    ensures 0 < gap <= limits.duration && gap + skew <= 2 * limits.duration
  {
    if skew <= limits.duration then limits.duration else 2 * limits.duration - skew
  }

  // The maximum, once for every window that can start from `next` on before `until`.
  function Share(maximum: nat, next: int, until: int, gap: nat): nat
    requires 0 < gap
    decreases until - next
  {
    if next >= until then 0 else maximum + Share(maximum, next + gap, until, gap)
  }

  lemma {:induction false} ShareShrinks(maximum: nat, a: int, b: int, until: int, gap: nat)
    requires 0 < gap && a <= b
    ensures Share(maximum, b, until, gap) <= Share(maximum, a, until, gap)
    decreases until - a
  {
    if b < until {
      ShareShrinks(maximum, a + gap, b + gap, until, gap);
    }
  }

  lemma {:induction false} ShareShifts(maximum: nat, next: int, until: int, gap: nat, skew: int)
    requires 0 < gap
    ensures Share(maximum, next + skew, until + skew, gap) == Share(maximum, next, until, gap)
    decreases until - next
  {
    if next < until {
      ShareShifts(maximum, next + gap, until, gap, skew);
    }
  }

  // `seen` is the last window of the client, whether or not the limiter still has it;
  // if not, every call to come reads a time at least a gap after its start.
  ghost predicate Knows(
    windows: Windows, client: Client, seen: Option<Window>, calls: seq<Call>, limits: Limits, skew: nat)
    requires skew < 2 * limits.duration
  {
    && (client in windows ==> seen == Some(windows[client]))
    && (seen.Some? ==>
          && 1 <= seen.value.attempts <= limits.maximum
          && (forall i | 0 <= i < |calls| :: seen.value.startedAt <= calls[i].now + skew)
          && (client !in windows ==>
                forall i | 0 <= i < |calls| :: seen.value.startedAt + Gap(limits, skew) <= calls[i].now))
  }

  lemma PruneKnows(windows: Windows, client: Client, seen: Option<Window>, calls: seq<Call>, limits: Limits, skew: nat)
    requires skew < 2 * limits.duration && calls != [] && NearlyOrdered(calls, skew)
    requires Knows(windows, client, seen, calls, limits, skew)
    ensures Knows(Before(true, windows, calls[0], limits), client, seen, calls, limits, skew)
  {
    var before := Before(true, windows, calls[0], limits);
    if client in windows && client !in before {
      forall i | 0 <= i < |calls|
        ensures seen.value.startedAt + Gap(limits, skew) <= calls[i].now
      {
        assert Since(calls[0].now, seen.value.startedAt) >= 2 * limits.duration;
        assert i > 0 ==> calls[0].now <= calls[i].now + skew;
      }
    }
  }

  function SeenAfter(before: Windows, call: Call, client: Client, seen: Option<Window>, limits: Limits): Option<Window> {
    if call.client == client then Some(Counted(before, call, limits)[client]) else seen
  }

  lemma CountKnows(before: Windows, client: Client, seen: Option<Window>, calls: seq<Call>, limits: Limits, skew: nat)
    requires 0 < limits.maximum && Representable(limits) && skew < 2 * limits.duration
    requires calls != [] && NearlyOrdered(calls, skew) && Knows(before, client, seen, calls, limits, skew)
    ensures Knows(Counted(before, calls[0], limits), client, SeenAfter(before, calls[0], client, seen, limits),
                  calls[1..], limits, skew)
  {
    forall i | 0 <= i < |calls[1..]|
      ensures calls[1..][i] == calls[i + 1] && calls[0].now <= calls[i + 1].now + skew
    {
    }
  }

  // The admissions the span can still see. Only windows that start less than a
  // duration before it, or before its end plus the disorder, count in it.
  function Left(seen: Option<Window>, from: nat, limits: Limits, skew: nat): nat
    requires skew < 2 * limits.duration && (seen.Some? ==> seen.value.attempts <= limits.maximum)
  {
    var (first, until, gap) := (from - limits.duration + 1, from + limits.duration + skew, Gap(limits, skew));
    match seen
    case None => Share(limits.maximum, first, until, gap)
    case Some(Window(startedAt, attempts)) =>
      (if first <= startedAt < until then limits.maximum - attempts else 0)
      + Share(limits.maximum, if startedAt + gap < first then first else startedAt + gap, until, gap)
  }

  // A call that opens a window, at least a gap after the last one.
  lemma OpeningUsesLeft(now: nat, seen: Option<Window>, from: nat, limits: Limits, skew: nat)
    requires 0 < limits.maximum && skew < 2 * limits.duration
    requires seen.Some? ==>
      seen.value.attempts <= limits.maximum && seen.value.startedAt + Gap(limits, skew) <= now
    ensures (if InSpan(now, from, limits.duration) then 1 else 0) + Left(Some(Window(now, 1)), from, limits, skew)
         <= Left(seen, from, limits, skew)
  {
    var (first, until, gap) := (from - limits.duration + 1, from + limits.duration + skew, Gap(limits, skew));
    var next := if seen.None? || seen.value.startedAt + gap < first then first else seen.value.startedAt + gap;
    if now >= first {
      ShareShrinks(limits.maximum, next, now, until, gap);
    } else {
      ShareShrinks(limits.maximum, next, if now + gap < first then first else now + gap, until, gap);
    }
  }

  lemma CallUsesLeft(before: Windows, call: Call, client: Client, seen: Option<Window>, from: nat, limits: Limits, skew: nat)
    requires 0 < limits.maximum && Representable(limits) && skew < 2 * limits.duration
    requires Knows(before, client, seen, [call], limits, skew)
    ensures
      var after := SeenAfter(before, call, client, seen, limits);
      var used := if Admits(before, call, limits) && call.client == client && InSpan(call.now, from, limits.duration)
                  then 1 else 0;
      && (after.Some? ==> after.value.attempts <= limits.maximum)
      && used + Left(after, from, limits, skew) <= Left(seen, from, limits, skew)
  {
    assert [call][0] == call;
    if call.client == client && Current(before, call.now, client, limits.duration) == Window(call.now, 0) {
      OpeningUsesLeft(call.now, seen, from, limits, skew);
    }
  }

  lemma {:induction false} LeftBoundsCounting(
    windows: Windows, calls: seq<Call>, client: Client, seen: Option<Window>, from: nat, limits: Limits, skew: nat)
    requires 0 < limits.maximum && Representable(limits) && skew < 2 * limits.duration
    requires NearlyOrdered(calls, skew) && Knows(windows, client, seen, calls, limits, skew)
    ensures Counting(true, windows, calls, client, from, limits) <= Left(seen, from, limits, skew)
    decreases |calls|
  {
    if calls != [] {
      var before := Before(true, windows, calls[0], limits);
      PruneKnows(windows, client, seen, calls, limits, skew);
      CountKnows(before, client, seen, calls, limits, skew);
      CallUsesLeft(before, calls[0], client, seen, from, limits, skew);
      LeftBoundsCounting(Counted(before, calls[0], limits), calls[1..], client,
                         SeenAfter(before, calls[0], client, seen, limits), from, limits, skew);
    }
  }

  // The bound for readings out of order by less than two durations.
  function Bound(limits: Limits, skew: nat): nat
    requires skew < 2 * limits.duration
  {
    Share(limits.maximum, 0, 2 * limits.duration + skew - 1, Gap(limits, skew))
  }

  lemma DisorderedAdmissionsAreBounded(calls: seq<Call>, client: Client, from: nat, limits: Limits, skew: nat)
    requires Representable(limits) && skew < 2 * limits.duration && NearlyOrdered(calls, skew)
    ensures Counting(true, map[], calls, client, from, limits) <= Bound(limits, skew)
  {
    var none: Windows := map[];
    if limits.maximum == 0 {
      NothingAdmitted(true, none, calls, client, from, limits);
    } else {
      LeftBoundsCounting(none, calls, client, None, from, limits, skew);
      ShareShifts(limits.maximum, 0, 2 * limits.duration + skew - 1, Gap(limits, skew), from - limits.duration + 1);
    }
  }

  // ---------- from two durations on ----------

  // The windows after a run of calls.
  function After(pruning: bool, windows: Windows, calls: seq<Call>, limits: Limits): Windows
    decreases |calls|
  {
    if calls == [] then windows
    else After(pruning, Counted(Before(pruning, windows, calls[0], limits), calls[0], limits), calls[1..], limits)
  }

  lemma {:induction false} AfterAppend(
    pruning: bool, windows: Windows, first: seq<Call>, second: seq<Call>, limits: Limits)
    ensures After(pruning, windows, first + second, limits)
         == After(pruning, After(pruning, windows, first, limits), second, limits)
    decreases |first|
  {
    if first == [] {
      assert first + second == second;
    } else {
      assert (first + second)[0] == first[0] && (first + second)[1..] == first[1..] + second;
      AfterAppend(pruning, Counted(Before(pruning, windows, first[0], limits), first[0], limits),
                  first[1..], second, limits);
    }
  }

  lemma {:induction false} DecisionsAppend(
    pruning: bool, windows: Windows, first: seq<Call>, second: seq<Call>, limits: Limits)
    ensures Decisions(pruning, windows, first + second, limits)
         == Decisions(pruning, windows, first, limits)
            + Decisions(pruning, After(pruning, windows, first, limits), second, limits)
    decreases |first|
  {
    if first == [] {
      assert first + second == second;
    } else {
      assert (first + second)[0] == first[0] && (first + second)[1..] == first[1..] + second;
      DecisionsAppend(pruning, Counted(Before(pruning, windows, first[0], limits), first[0], limits),
                      first[1..], second, limits);
    }
  }

  lemma {:induction false} TallyAppend(
    first: seq<Call>, d1: seq<bool>, second: seq<Call>, d2: seq<bool>, client: Client, from: nat, duration: nat)
    requires |first| == |d1| && |second| == |d2|
    ensures Tally(first + second, d1 + d2, client, from, duration)
         == Tally(first, d1, client, from, duration) + Tally(second, d2, client, from, duration)
    decreases |first|
  {
    if first == [] {
      assert first + second == second && d1 + d2 == d2;
    } else {
      assert (first + second)[1..] == first[1..] + second && (d1 + d2)[1..] == d1[1..] + d2;
      TallyAppend(first[1..], d1[1..], second, d2, client, from, duration);
    }
  }

  lemma CountingAppend(
    pruning: bool, windows: Windows, first: seq<Call>, second: seq<Call>, client: Client, from: nat, limits: Limits)
    ensures Counting(pruning, windows, first + second, client, from, limits)
         == Counting(pruning, windows, first, client, from, limits)
            + Counting(pruning, After(pruning, windows, first, limits), second, client, from, limits)
  {
    var after := After(pruning, windows, first, limits);
    DecisionsAppend(pruning, windows, first, second, limits);
    TallyAppend(first, Decisions(pruning, windows, first, limits),
                second, Decisions(pruning, after, second, limits), client, from, limits.duration);
  }

  const CROWD := PRUNING_THRESHOLD + 1

  // The clients k, k + 1, ... n - 1 call, all at the same reading.
  function Crowd(now: nat, k: nat, n: nat): seq<Call>
    requires k <= n
    decreases n - k
  {
    if k == n then [] else [Call(now, Some(k))] + Crowd(now, k + 1, n)
  }

  function Members(n: nat): set<Client> {
    if n == 0 then {} else Members(n - 1) + {Some(n - 1)}
  }

  lemma {:induction false} MembersAre(n: nat)
    ensures |Members(n)| == n
    ensures forall c: Client :: c in Members(n) <==> c.Some? && c.value < n
  {
    if n > 0 {
      MembersAre(n - 1);
    }
  }

  // These members have windows that started at that time; `None` may have one too.
  ghost predicate Gathered(windows: Windows, n: nat, now: nat, own: Option<Window>) {
    && (forall c: Client :: c in windows <==> if c.Some? then c.value < n else own.Some?)
    && (forall c | c in windows && c.Some? :: windows[c].startedAt == now)
    && (own.Some? ==> windows[None] == own.value)
  }

  lemma GatheredSize(windows: Windows, n: nat, now: nat, own: Option<Window>)
    requires Gathered(windows, n, now, own)
    ensures |windows| == n + if own.Some? then 1 else 0
  {
    MembersAre(n);
    assert |windows| == |windows.Keys|;
    assert windows.Keys == Members(n) + if own.Some? then {None} else {};
  }

  // A window that has just been opened there is kept by pruning.
  lemma MembersAreKept(windows: Windows, n: nat, now: nat, later: nat, limits: Limits)
    requires Gathered(windows, n, now, None) && later <= now && 0 < limits.duration
    ensures Prune(windows, later, limits.duration) == windows
  {}

  // A call of the next member, or of one that is there.
  lemma MemberCalls(windows: Windows, n: nat, k: nat, now: nat, own: Option<Window>, limits: Limits)
    requires Gathered(windows, n, now, own) && k <= n
    ensures Gathered(Counted(windows, Call(now, Some(k)), limits), if k < n then n else n + 1, now, own)
  {}

  lemma {:induction false} CrowdGathers(
    pruning: bool, windows: Windows, k: nat, n: nat, now: nat, own: Option<Window>, from: nat, limits: Limits)
    requires k <= n && Gathered(windows, k, now, own)
    requires pruning ==> n + (if own.Some? then 1 else 0) <= CROWD
    ensures Gathered(After(pruning, windows, Crowd(now, k, n), limits), n, now, own)
    ensures Counting(pruning, windows, Crowd(now, k, n), None, from, limits) == 0
    decreases n - k
  {
    if k < n {
      NothingIsPruned(pruning, windows, k, now, own, limits);
      MemberCalls(windows, k, k, now, own, limits);
      CrowdGathers(pruning, Counted(windows, Call(now, Some(k)), limits), k + 1, n, now, own, from, limits);
      assert Crowd(now, k, n)[1..] == Crowd(now, k + 1, n);
    }
  }

  lemma NothingIsPruned(pruning: bool, windows: Windows, k: nat, now: nat, own: Option<Window>, limits: Limits)
    requires Gathered(windows, k, now, own) && (pruning ==> k + (if own.Some? then 1 else 0) < CROWD)
    ensures Before(pruning, windows, Call(now, Some(k)), limits) == windows
  {
    GatheredSize(windows, k, now, own);
  }

  // The client without an address calls at the reading zero; a member's call makes
  // the limiter forget that; and so on.
  function Again(n: nat, limits: Limits): seq<Call> {
    if n == 0 then []
    else [Call(0, None)] + ([Call(2 * limits.duration, Some(0))] + Again(n - 1, limits))
  }

  // A member's call makes the limiter forget the other client's window.
  lemma OtherForgets(windows: Windows, n: nat, limits: Limits)
    requires n >= CROWD && Gathered(windows, n, 2 * limits.duration, None)
    requires Representable(limits) && 0 < limits.maximum && 0 < limits.duration
    ensures
      var admitted := Counted(windows, Call(0, None), limits);
      Before(true, admitted, Call(2 * limits.duration, Some(0)), limits) == windows
  {
    OwnJoins(windows, n, 2 * limits.duration, limits);
    var admitted := windows[None := Window(0, 1)];
    OwnIsForgotten(admitted, n, Window(0, 1), limits);
    assert admitted - {None} == windows;
  }

  lemma OwnJoins(windows: Windows, n: nat, now: nat, limits: Limits)
    requires Gathered(windows, n, now, None) && Representable(limits) && 0 < limits.maximum
    ensures None !in windows && Admits(windows, Call(0, None), limits)
    ensures Counted(windows, Call(0, None), limits) == windows[None := Window(0, 1)]
    ensures Gathered(windows[None := Window(0, 1)], n, now, Some(Window(0, 1)))
  {}

  // Pruning two durations after the start of a window drops it.
  lemma OwnIsDropped(windows: Windows, without: Windows, n: nat, limits: Limits)
    requires 0 < limits.duration && |windows| > PRUNING_THRESHOLD
    requires None !in without && None in windows && windows[None].startedAt == 0
    requires windows == without[None := windows[None]]
    requires forall c | c in without :: without[c].startedAt == 2 * limits.duration
    ensures Prune(windows, 2 * limits.duration, limits.duration) == without
  {}

  lemma {:induction false} AgainIsAdmitted(windows: Windows, crowd: nat, n: nat, limits: Limits)
    requires crowd >= CROWD && Gathered(windows, crowd, 2 * limits.duration, None)
    requires Representable(limits) && 0 < limits.maximum && 0 < limits.duration
    ensures Counting(true, windows, Again(n, limits), None, 0, limits) == n
    decreases n
  {
    if n > 0 {
      var (own, other) := (Call(0, None), Call(2 * limits.duration, Some(0)));
      var rest := Again(n - 1, limits);
      MembersAreKept(windows, crowd, 2 * limits.duration, 0, limits);
      OwnJoins(windows, crowd, 2 * limits.duration, limits);
      OtherForgets(windows, crowd, limits);
      MemberCalls(windows, crowd, 0, 2 * limits.duration, None, limits);
      AgainIsAdmitted(Counted(windows, other, limits), crowd, n - 1, limits);
      TwoCalls(windows, own, other, rest, limits);
    }
  }

  lemma TwoCalls(windows: Windows, own: Call, other: Call, rest: seq<Call>, limits: Limits)
    requires own == Call(0, None) && other.client != None && 0 < limits.duration
    requires Before(true, windows, own, limits) == windows && Admits(windows, own, limits)
    requires Before(true, Counted(windows, own, limits), other, limits) == windows
    ensures Counting(true, windows, [own] + ([other] + rest), None, 0, limits)
         == 1 + Counting(true, Counted(windows, other, limits), rest, None, 0, limits)
  {
    var after := Counted(windows, own, limits);
    var next := Counted(windows, other, limits);
    assert ([own] + ([other] + rest))[1..] == [other] + rest;
    assert ([other] + rest)[1..] == rest;
    var later := Decisions(true, after, [other] + rest, limits);
    assert later == [Admits(windows, other, limits)] + Decisions(true, next, rest, limits);
    assert later[1..] == Decisions(true, next, rest, limits);
    var all := Decisions(true, windows, [own] + ([other] + rest), limits);
    assert all == [true] + later && all[1..] == later;
    var d := limits.duration;
    assert Tally([own] + ([other] + rest), all, None, 0, d) == 1 + Tally([other] + rest, later, None, 0, d);
    assert Tally([other] + rest, later, None, 0, d) == Tally(rest, later[1..], None, 0, d);
  }

  // A crowd, and then the two calls again and again.
  function Flood(n: nat, limits: Limits): seq<Call> {
    Crowd(2 * limits.duration, 0, CROWD) + Again(n, limits)
  }

  /** With readings out of order by two durations a client can be admitted to one span
      any number of times, because the limiter forgets its window over and over. */
  lemma UnorderedReadingsAreUnbounded(n: nat, limits: Limits)
    requires Representable(limits) && 0 < limits.maximum && 0 < limits.duration
    ensures NearlyOrdered(Flood(n, limits), 2 * limits.duration)
    ensures Counting(true, map[], Flood(n, limits), None, 0, limits) == n
  {
    var none: Windows := map[];
    var crowd := Crowd(2 * limits.duration, 0, CROWD);
    CrowdReadings(2 * limits.duration, 0, CROWD);
    AgainReadings(n, limits);
    CrowdGathers(true, none, 0, CROWD, 2 * limits.duration, None, 0, limits);
    AgainIsAdmitted(After(true, none, crowd, limits), CROWD, n, limits);
    CountingAppend(true, none, crowd, Again(n, limits), None, 0, limits);
  }

  lemma {:induction false} CrowdReadings(now: nat, k: nat, n: nat)
    requires k <= n
    ensures forall i | 0 <= i < |Crowd(now, k, n)| :: Crowd(now, k, n)[i].now == now
    decreases n - k
  {
    if k < n {
      CrowdReadings(now, k + 1, n);
    }
  }

  lemma {:induction false} AgainReadings(n: nat, limits: Limits)
    ensures forall i | 0 <= i < |Again(n, limits)| :: Again(n, limits)[i].now <= 2 * limits.duration
  {
    if n > 0 {
      AgainReadings(n - 1, limits);
    }
  }

  // Some number bounds the admissions to any span, over all runs with readings out of
  // order by no more than this.
  ghost predicate IsLimited(limits: Limits, skew: nat, bound: nat) {
    forall calls: seq<Call>, client: Client, from: nat | NearlyOrdered(calls, skew) ::
      Counting(true, map[], calls, client, from, limits) <= bound
  }

  /** The limiter limits if and only if readings are out of order by less than two
      durations. */
  lemma LimitsExactly(limits: Limits, skew: nat)
    requires Representable(limits) && 0 < limits.maximum && 0 < limits.duration
    ensures (exists bound :: IsLimited(limits, skew, bound)) <==> skew < 2 * limits.duration
  {
    if skew < 2 * limits.duration {
      forall calls: seq<Call>, client: Client, from: nat | NearlyOrdered(calls, skew)
        ensures Counting(true, map[], calls, client, from, limits) <= Bound(limits, skew)
      {
        DisorderedAdmissionsAreBounded(calls, client, from, limits, skew);
      }
      assert IsLimited(limits, skew, Bound(limits, skew));
    } else {
      forall bound: nat
        ensures !IsLimited(limits, skew, bound)
      {
        UnorderedReadingsAreUnbounded(bound + 1, limits);
        assert NearlyOrdered(Flood(bound + 1, limits), skew);
      }
    }
  }

  // ---------- when pruning shows ----------

  // A client uses up its window; a crowd makes the limiter forget that; and a call
  // with an earlier reading comes in.
  function Forgetting(limits: Limits): seq<Call>
    requires 0 < limits.duration
  {
    Repeat(limits.maximum, Call(0, None))
    + (Crowd(2 * limits.duration, 0, CROWD) + [Call(limits.duration - 1, None)])
  }

  lemma OneIsKept(pruning: bool, windows: Windows, call: Call, limits: Limits)
    requires windows.Keys <= {None}
    ensures Before(pruning, windows, call, limits) == windows
  {
    assert |windows| == |windows.Keys|;
    if None in windows {
      assert windows.Keys == {None};
    } else {
      assert windows.Keys == {};
    }
  }

  lemma {:induction false} UsedUp(pruning: bool, attempts: nat, n: nat, limits: Limits)
    requires Representable(limits) && 0 < limits.duration && attempts + n <= limits.maximum && 0 < n
    ensures
      var windows: Windows := if attempts == 0 then map[] else map[None := Window(0, attempts)];
      After(pruning, windows, Repeat(n, Call(0, None)), limits) == map[None := Window(0, attempts + n)]
    decreases n
  {
    var windows: Windows := if attempts == 0 then map[] else map[None := Window(0, attempts)];
    var next: Windows := map[None := Window(0, attempts + 1)];
    OneIsKept(pruning, windows, Call(0, None), limits);
    assert Counted(windows, Call(0, None), limits) == next;
    assert Repeat(n, Call(0, None))[1..] == Repeat(n - 1, Call(0, None));
    if n > 1 {
      UsedUp(pruning, attempts + 1, n - 1, limits);
    }
  }

  lemma OwnIsForgotten(full: Windows, n: nat, own: Window, limits: Limits)
    requires n >= PRUNING_THRESHOLD && Gathered(full, n, 2 * limits.duration, Some(own))
    requires own.startedAt == 0 && 0 < limits.duration
    ensures Prune(full, 2 * limits.duration, limits.duration) == full - {None}
  {
    GatheredSize(full, n, 2 * limits.duration, Some(own));
    WithoutOwn(full, n, 2 * limits.duration, own);
    OwnIsDropped(full, full - {None}, n, limits);
  }

  lemma WithoutOwn(full: Windows, n: nat, now: nat, own: Window)
    requires Gathered(full, n, now, Some(own))
    ensures var rest := full - {None}; Gathered(rest, n, now, None) && full == rest[None := own] && None !in rest
  {}

  // After the crowd the pruning limiter has only the crowd's windows.
  lemma PrunedByCrowd(limits: Limits)
    requires Representable(limits) && 0 < limits.maximum && 0 < limits.duration
    ensures
      var used: Windows := map[None := Window(0, limits.maximum)];
      Gathered(After(true, used, Crowd(2 * limits.duration, 0, CROWD), limits), CROWD, 2 * limits.duration, None)
  {
    var now := 2 * limits.duration;
    var own := Window(0, limits.maximum);
    var used: Windows := map[None := own];
    var most := Crowd(now, 0, PRUNING_THRESHOLD);
    var last := Call(now, Some(PRUNING_THRESHOLD));
    CrowdGathers(true, used, 0, PRUNING_THRESHOLD, now, Some(own), 0, limits);
    var full := After(true, used, most, limits);
    LastPrunes(full, PRUNING_THRESHOLD, own, limits);
    CrowdEndsWith(now, 0, PRUNING_THRESHOLD);
    AfterAppend(true, used, most, [last], limits);
  }

  // The last of the crowd makes the pruning limiter forget the other window.
  lemma LastPrunes(full: Windows, n: nat, own: Window, limits: Limits)
    requires n >= PRUNING_THRESHOLD && Gathered(full, n, 2 * limits.duration, Some(own))
    requires own.startedAt == 0 && 0 < limits.duration
    ensures Gathered(After(true, full, [Call(2 * limits.duration, Some(n))], limits), n + 1, 2 * limits.duration, None)
  {
    var last := Call(2 * limits.duration, Some(n));
    OwnIsForgotten(full, n, own, limits);
    WithoutOwn(full, n, 2 * limits.duration, own);
    MemberCalls(full - {None}, n, n, 2 * limits.duration, None, limits);
    AfterOne(full, full - {None}, last, limits);
  }

  lemma AfterOne(windows: Windows, before: Windows, call: Call, limits: Limits)
    requires Prune(windows, call.now, limits.duration) == before
    ensures After(true, windows, [call], limits) == Counted(before, call, limits)
  {
    assert [call][1..] == [];
  }

  lemma {:induction false} CrowdEndsWith(now: nat, k: nat, n: nat)
    requires k <= n
    ensures Crowd(now, k, n + 1) == Crowd(now, k, n) + [Call(now, Some(n))]
    decreases n - k
  {
    if k < n {
      CrowdEndsWith(now, k + 1, n);
    } else {
      assert Crowd(now, n + 1, n + 1) == [];
    }
  }

  /** One duration is as far as it goes: with readings out of order by one tick more,
      forgetting a window can change a decision. */
  lemma PruningShows(limits: Limits)
    requires Representable(limits) && 0 < limits.maximum && 0 < limits.duration
    ensures NearlyOrdered(Forgetting(limits), limits.duration + 1)
    ensures Decisions(true, map[], Forgetting(limits), limits) != Decisions(false, map[], Forgetting(limits), limits)
  {
    var own := Window(0, limits.maximum);
    var none: Windows := map[];
    var used: Windows := map[None := own];
    var uses := Repeat(limits.maximum, Call(0, None));
    var crowd := Crowd(2 * limits.duration, 0, CROWD);
    var last := Call(limits.duration - 1, None);
    ForgettingReadings(limits);
    UsedUp(true, 0, limits.maximum, limits);
    UsedUp(false, 0, limits.maximum, limits);
    LastDecision(true, none, uses, crowd, last, limits);
    LastDecision(false, none, uses, crowd, last, limits);
    LastIsForgotten(limits);
    LastIsRemembered(limits);
  }

  // The last decision of three stretches of calls.
  lemma LastDecision(pruning: bool, windows: Windows, first: seq<Call>, second: seq<Call>, last: Call, limits: Limits)
    ensures
      var calls := first + (second + [last]);
      var after := After(pruning, After(pruning, windows, first, limits), second, limits);
      && |calls| > 0
      && Decisions(pruning, windows, calls, limits)[|calls| - 1] == Decisions(pruning, after, [last], limits)[0]
  {
    DecisionsAppend(pruning, windows, first, second + [last], limits);
    DecisionsAppend(pruning, After(pruning, windows, first, limits), second, [last], limits);
  }

  lemma LastIsForgotten(limits: Limits)
    requires Representable(limits) && 0 < limits.maximum && 0 < limits.duration
    ensures
      var used: Windows := map[None := Window(0, limits.maximum)];
      var after := After(true, used, Crowd(2 * limits.duration, 0, CROWD), limits);
      Decisions(true, after, [Call(limits.duration - 1, None)], limits) == [true]
  {
    var used: Windows := map[None := Window(0, limits.maximum)];
    var after := After(true, used, Crowd(2 * limits.duration, 0, CROWD), limits);
    PrunedByCrowd(limits);
    MembersAreKept(after, CROWD, 2 * limits.duration, limits.duration - 1, limits);
    assert [Call(limits.duration - 1, None)][1..] == [];
  }

  lemma LastIsRemembered(limits: Limits)
    requires Representable(limits) && 0 < limits.maximum && 0 < limits.duration
    ensures
      var used: Windows := map[None := Window(0, limits.maximum)];
      var after := After(false, used, Crowd(2 * limits.duration, 0, CROWD), limits);
      Decisions(false, after, [Call(limits.duration - 1, None)], limits) == [false]
  {
    var own := Window(0, limits.maximum);
    CrowdGathers(false, map[None := own], 0, CROWD, 2 * limits.duration, Some(own), 0, limits);
    assert [Call(limits.duration - 1, None)][1..] == [];
  }

  lemma ForgettingReadings(limits: Limits)
    requires 0 < limits.duration
    ensures NearlyOrdered(Forgetting(limits), limits.duration + 1)
  {
    RepeatIsConstant(limits.maximum, Call(0, None));
    CrowdReadings(2 * limits.duration, 0, CROWD);
  }
}
