/**
 The memory.pressure_level notifier (healthcheck/cgroupnotify/notify_memory.go): an event machine
 that kills an offline job when pressure events have kept coming for long enough.

 One clock reading is taken per event; an event is its clock reading.
 */
module PressureNotifier {
  import opened Wrappers

  /** The window of events, first to last, that ended in calling the handler. */
  datatype Kill = Kill(first: nat, last: nat)

  /** The first event from i on that is at least one duration after event s. */
  function WindowEnd(times: seq<int>, duration: int, s: nat, i: nat): (e: nat)
    requires s <= i <= |times|
    ensures i <= e <= |times|
    ensures e < |times| ==> times[e] - times[s] >= duration
    ensures forall j :: i <= j < e ==> times[j] - times[s] < duration
    decreases |times| - i
  {
    if i == |times| || times[i] - times[s] >= duration then i else WindowEnd(times, duration, s, i + 1)
  }

  /**
   The kills from event s on, told window by window: the window opened by event s ends with the first
   event at least one duration later. That event opens a new window when it is more than two
   durations late; otherwise it closes this one, with a kill when the window holds enough events.
   */
  function Kills(times: seq<int>, duration: int, count: int, s: nat): seq<Kill>
    requires s <= |times|
    decreases |times| - s
  {
    if s == |times| then []
    else
      var e := WindowEnd(times, duration, s, s);
      if e == |times| then []
      else if e > s && times[e] - times[s] > 2 * duration then Kills(times, duration, count, e)
      else if e - s + 1 < count then Kills(times, duration, count, e + 1)
      else [Kill(s, e)] + Kills(times, duration, count, e + 1)
  }

  /** What closes the window of s, when no event before i did. */
  lemma WindowClosesAt(times: seq<int>, duration: int, count: int, s: nat, i: nat)
    requires s <= i < |times| && times[i] - times[s] >= duration
    requires Open(times, duration, s, i)
    ensures WindowEnd(times, duration, s, s) == i
    ensures Kills(times, duration, count, s) ==
            if i > s && times[i] - times[s] > 2 * duration then Kills(times, duration, count, i)
            else if i - s + 1 < count then Kills(times, duration, count, i + 1)
            else [Kill(s, i)] + Kills(times, duration, count, i + 1)
  {
  }

  function LastEvents(kills: seq<Kill>): seq<nat> {
    if kills == [] then [] else LastEvents(kills[..|kills| - 1]) + [kills[|kills| - 1].last]
  }

  lemma {:induction false} LastEventsCons(k: Kill, rest: seq<Kill>)
    ensures LastEvents([k] + rest) == [k.last] + LastEvents(rest)
  {
    if rest == [] {
      assert [k] + rest == [k] && [k][..0] == [];
    } else {
      var init := rest[..|rest| - 1];
      LastEventsCons(k, init);
      assert ([k] + rest)[..|rest|] == [k] + init;
    }
  }

  /** Event e is the first that comes at least one duration after event s. */
  ghost predicate EndsWindow(times: seq<int>, duration: int, s: int, e: int) {
    && 0 <= s <= e < |times| && times[e] - times[s] >= duration
    && forall j :: s <= j < e ==> times[j] - times[s] < duration
  }

  predicate IsLate(times: seq<int>, duration: int, s: int, e: int)
    requires 0 <= s <= e < |times|
  {
    e > s && times[e] - times[s] > 2 * duration
  }

  /** The window after that of s opens with t: with the event that came too late for it, or with the next one. */
  ghost predicate NextOpens(times: seq<int>, duration: int, s: int, t: int) {
    exists e :: EndsWindow(times, duration, s, e) && t == if IsLate(times, duration, s, e) then e else e + 1
  }

  /** The events that open the windows from s on, one after the other, up to one whose window nothing ends. */
  ghost predicate AreOpenings(times: seq<int>, duration: int, s: int, openings: seq<int>) {
    && openings != [] && openings[0] == s
    && (forall i :: 0 <= i < |openings| - 1 ==> NextOpens(times, duration, openings[i], openings[i + 1]))
    && StaysOpen(times, duration, openings[|openings| - 1])
  }

  ghost predicate StaysOpen(times: seq<int>, duration: int, s: int) {
    forall e :: !EndsWindow(times, duration, s, e)
  }

  /** Event e ends the window of s in time and the window holds enough events. */
  ghost predicate KillsAt(times: seq<int>, duration: int, count: int, s: int, e: int) {
    EndsWindow(times, duration, s, e) && !IsLate(times, duration, s, e) && e - s + 1 >= count
  }

  /** The kills are exactly the windows that end in time with enough events. */
  lemma {:induction false} KillsExactly(times: seq<int>, duration: int, count: int, s: nat) returns (openings: seq<int>)
    requires s <= |times|
    ensures AreOpenings(times, duration, s, openings)
    ensures forall k: Kill :: k in Kills(times, duration, count, s) <==>
                              k.first in openings && KillsAt(times, duration, count, k.first, k.last)
    decreases |times| - s
  {
    openings := [s];
    if s < |times| {
      var e := WindowEnd(times, duration, s, s);
      if e < |times| {
        assert EndsWindow(times, duration, s, e);
        WindowClosesAt(times, duration, count, s, e);
        var next := if IsLate(times, duration, s, e) then e else e + 1;
        var rest := KillsExactly(times, duration, count, next);
        openings := [s] + rest;
        OpensBefore(times, duration, s, next, rest);
        KillsOneMore(times, duration, count, s, e, next, rest);
      } else {
        NothingEnds(times, duration, s);
      }
    }
  }

  lemma NothingEnds(times: seq<int>, duration: int, s: nat)
    requires s < |times| && WindowEnd(times, duration, s, s) == |times|
    ensures StaysOpen(times, duration, s)
  {
  }

  lemma OpensBefore(times: seq<int>, duration: int, s: nat, next: nat, rest: seq<int>)
    requires NextOpens(times, duration, s, next) && AreOpenings(times, duration, next, rest)
    ensures AreOpenings(times, duration, s, [s] + rest)
  {
    var openings := [s] + rest;
    forall i | 0 <= i < |openings| - 1
      ensures NextOpens(times, duration, openings[i], openings[i + 1])
    {
      assert i > 0 ==> openings[i] == rest[i - 1];
    }
    assert openings[|openings| - 1] == rest[|rest| - 1];
  }

  lemma KillsOneMore(times: seq<int>, duration: int, count: int, s: nat, e: nat, next: nat, rest: seq<int>)
    requires EndsWindow(times, duration, s, e) && next == if IsLate(times, duration, s, e) then e else e + 1
    requires next <= |times|
    requires forall k: Kill :: k in Kills(times, duration, count, next) <==>
                               k.first in rest && KillsAt(times, duration, count, k.first, k.last)
    requires Kills(times, duration, count, s) ==
             if IsLate(times, duration, s, e) || e - s + 1 < count then Kills(times, duration, count, next)
             else [Kill(s, e)] + Kills(times, duration, count, next)
    ensures forall k: Kill :: k in Kills(times, duration, count, s) <==>
                              k.first in [s] + rest && KillsAt(times, duration, count, k.first, k.last)
  {
    forall k: Kill | k.first == s && KillsAt(times, duration, count, s, k.last)
      ensures k.last == e
    {
    }
    assert forall x :: x in [s] + rest <==> x == s || x in rest;
  }

  lemma {:induction false} LastEventsMean(kills: seq<Kill>, e: nat)
    ensures e in LastEvents(kills) <==> exists k :: k in kills && k.last == e
  {
    if kills != [] {
      var init, last := kills[..|kills| - 1], kills[|kills| - 1];
      LastEventsMean(init, e);
      assert forall k :: k in kills <==> k in init || k == last;
    }
  }

  /** An event kills exactly when it ends, in time, a window with enough events. */
  ghost predicate KillsWhenDue(times: seq<int>, duration: int, count: int, killedAt: seq<nat>) {
    exists openings :: AreOpenings(times, duration, 0, openings)
                       && forall e: nat :: e in killedAt <==>
                                           exists s :: s in openings && KillsAt(times, duration, count, s, e)
  }

  lemma LastEventsWhenDue(times: seq<int>, duration: int, count: int)
    ensures KillsWhenDue(times, duration, count, LastEvents(Kills(times, duration, count, 0)))
  {
    var kills := Kills(times, duration, count, 0);
    var openings := KillsExactly(times, duration, count, 0);
    forall e: nat
      ensures e in LastEvents(kills) <==> exists s :: s in openings && KillsAt(times, duration, count, s, e)
    {
      LastEventsMean(kills, e);
      if s :| s in openings && KillsAt(times, duration, count, s, e) {
        assert Kill(s, e) in kills;
      }
    }
  }

  /** The events the handler is called at, and that each of them is due. */
  method HandleEvents(times: seq<int>, duration: int, threshold: int) returns (killedAt: seq<nat>)
    ensures killedAt == LastEvents(Kills(times, duration, threshold, 0))
    ensures KillsWhenDue(times, duration, threshold, killedAt)
  {
    killedAt := EventLoop(times, duration, threshold);
    LastEventsWhenDue(times, duration, threshold);
  }

  /** Before event i: no window is open and one opens at s == i, or the one that event s opened still is. */
  ghost predicate Waiting(times: seq<int>, duration: int, i: nat, count: int, lastTick: Option<int>, s: nat) {
    && Open(times, duration, s, i)
    && (lastTick.None? ==> s == i)
    && (lastTick.Some? ==> s < i && lastTick.value == times[s] && count == i - s)
  }

  /** One event: a counter and the time of the first event of the open window. */
  method OnEvent(times: seq<int>, duration: int, threshold: int, i: nat, count: int, lastTick: Option<int>,
                 ghost s: nat)
      returns (count': int, lastTick': Option<int>, kill: bool, ghost first: nat, ghost s': nat)
    requires i < |times| && Waiting(times, duration, i, count, lastTick, s)
    ensures Waiting(times, duration, i + 1, count', lastTick', s')
    ensures var kills := Kills(times, duration, threshold, s');
            Kills(times, duration, threshold, s) == if kill then [Kill(first, i)] + kills else kills
  {
    count', lastTick', kill, first := count, lastTick, false, s;
    var now := times[i];
    if lastTick.None? || lastTick.value + 2 * duration < now {
      if lastTick.Some? {
        WindowClosesAt(times, duration, threshold, s, i);
      }
      lastTick' := Some(now);
      count' := 0;
      first := i;
    }
    count' := count' + 1;
    s' := first;
    if lastTick'.value + duration > now {
      return;
    }
    WindowClosesAt(times, duration, threshold, first, i);
    lastTick' := None;
    s' := i + 1;
    kill := count' >= threshold;
  }

  lemma Shift(done: seq<nat>, i: nat, due: seq<nat>)
    ensures done + ([i] + due) == (done + [i]) + due
  {
  }

  /** The event loop. */
  method EventLoop(times: seq<int>, duration: int, threshold: int) returns (killedAt: seq<nat>)
    ensures killedAt == LastEvents(Kills(times, duration, threshold, 0))
  {
    var count := 0;
    var lastTick: Option<int> := None;
    killedAt := [];
    ghost var s: nat, due: seq<nat> := 0, LastEvents(Kills(times, duration, threshold, 0));
    for i := 0 to |times|
      invariant Waiting(times, duration, i, count, lastTick, s)
      invariant due == LastEvents(Kills(times, duration, threshold, s))
      invariant killedAt + due == LastEvents(Kills(times, duration, threshold, 0))
    {
      var kill;
      ghost var first;
      count, lastTick, kill, first, s := OnEvent(times, duration, threshold, i, count, lastTick, s);
      due := LastEvents(Kills(times, duration, threshold, s));
      if kill {
        LastEventsCons(Kill(first, i), Kills(times, duration, threshold, s));
        Shift(killedAt, i, due);
        killedAt := killedAt + [i];
      }
    }
    OpenToTheEnd(times, duration, threshold, s);
    assert killedAt + [] == killedAt;
  }

  /** No event before i closes the window of s. */
  ghost predicate Open(times: seq<int>, duration: int, s: nat, i: nat) {
    s <= i <= |times| && forall j :: s <= j < i ==> times[j] - times[s] < duration
  }

  lemma OpenToTheEnd(times: seq<int>, duration: int, count: int, s: nat)
    requires Open(times, duration, s, |times|)
    ensures Kills(times, duration, count, s) == []
  {
  }

  predicate Justified(times: seq<int>, duration: int, count: int, k: Kill) {
    && k.first <= k.last < |times|
    && duration <= times[k.last] - times[k.first] <= 2 * duration
    && k.last - k.first + 1 >= count
  }

  ghost predicate Disjoint(kills: seq<Kill>) {
    forall i, j :: 0 <= i < j < |kills| ==> kills[i].last < kills[j].first
  }

  /** The kills from s on, by cases: the rest, from a later event on, and at most one kill in front of it. */
  lemma KillsCases(times: seq<int>, duration: int, count: int, s: nat) returns (next: nat, rest: seq<Kill>)
    requires s <= |times|
    ensures next <= |times| && (s == |times| ==> next == s) && (s < |times| ==> next > s)
    ensures rest == Kills(times, duration, count, next)
    ensures var kills := Kills(times, duration, count, s);
            || kills == rest
            || exists k :: kills == [k] + rest && k.first == s && k.last + 1 == next
                           && next - s >= count && (duration >= 0 ==> Justified(times, duration, count, k))
  {
    next, rest := |times|, [];
    if s < |times| {
      var e := WindowEnd(times, duration, s, s);
      if e < |times| {
        WindowClosesAt(times, duration, count, s, e);
        next := if e > s && times[e] - times[s] > 2 * duration then e else e + 1;
        rest := Kills(times, duration, count, next);
        if next == e + 1 && e - s + 1 >= count {
          assert Kills(times, duration, count, s) == [Kill(s, e)] + rest;
        }
      }
    }
  }

  /** Every kill ends a window that lasted between one and two durations and holds enough events. */
  lemma {:induction false} KillsAreJustified(times: seq<int>, duration: int, count: int, s: nat)
    requires s <= |times| && duration >= 0
    ensures forall k :: k in Kills(times, duration, count, s) ==> s <= k.first && Justified(times, duration, count, k)
    decreases |times| - s
  {
    var next, rest := KillsCases(times, duration, count, s);
    if next > s {
      KillsAreJustified(times, duration, count, next);
    }
  }

  /** Windows of different kills share no event. */
  lemma {:induction false} KillsAreDisjoint(times: seq<int>, duration: int, count: int, s: nat)
    requires s <= |times| && duration >= 0
    ensures Disjoint(Kills(times, duration, count, s))
    decreases |times| - s
  {
    var next, rest := KillsCases(times, duration, count, s);
    if next > s {
      KillsAreDisjoint(times, duration, count, next);
      KillsAreJustified(times, duration, count, next);
      assert forall j :: 0 <= j < |rest| ==> rest[j] in rest;
    }
  }

  lemma OneMore(n: nat, count: int)
    ensures (n + 1) * count == n * count + count
  {
  }

  /** So every kill uses up the configured number of events. */
  lemma {:induction false} KillsConsumeEvents(times: seq<int>, duration: int, count: int, s: nat)
    requires s <= |times|
    ensures |Kills(times, duration, count, s)| * count <= |times| - s
    decreases |times| - s
  {
    var next, rest := KillsCases(times, duration, count, s);
    if next > s {
      KillsConsumeEvents(times, duration, count, next);
      OneMore(|rest|, count);
    }
  }
}
