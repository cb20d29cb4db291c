/** What restarting, disabling and enabling a timer do to the runs that follow, and in what order timers are called. */
module TimerControl {
  import opened Common
  import opened Timer
  import opened TimerHistory
  import opened TimerCount

  // ----- One run -----------------------------------------------------------------------------------------

  /** A timer may be called again: for ever, or less often than its number of runs. */
  predicate RunsLeft(s: Slot)
  {
    s.maxRuns == 0 || s.numRuns < s.maxRuns
  }

  /** A run calls a timer that its callbacks leave alone once or not at all: exactly when it is enabled, has runs
      left, and its period has passed on the 32-bit clock. */
  lemma CalledIff(st: State, now: nat, acts: seq<seq<Op>>, f: nat, i: nat)
    requires Consistent(st) && |st.slots| == |acts| == MAX_TIMERS && HeldOnlyAt(st, f, i)
    requires CallsSpare(MarkedState(st, now), 0, acts, f, Counting)
    ensures var s := st.slots[i];
      Count(RunAll(st, now, acts).calls, f) ==
        if s.enabled && RunsLeft(s) && (now - s.prevMillis) % 0x1_0000_0000 >= s.delay % 0x1_0000_0000 then 1 else 0
  {
    hide MarkAll, CallFrom, CallsSpare, Consistent, NoneDueInFree;
    MarkKeeps(st, now);
    MarkHolds(st, f, i, now);
    CallFromFollows(MarkedState(st, now), 0, acts, f, i, Counting);
    NowDifference(now, st.slots[i].prevMillis);
  }

  lemma NowDifference(now: int, since: int)
    ensures Word(Word(now) - since) == (now - since) % 0x1_0000_0000
  {
    WordMultiples(now - since, -(now / WORD));
  }

  /** What a run leaves of a timer that it does not call. */
  lemma NotCalledStays(st: State, now: nat, acts: seq<seq<Op>>, f: nat, i: nat, care: Care)
    requires Consistent(st) && |st.slots| == |acts| == MAX_TIMERS && HeldOnlyAt(st, f, i)
    requires CallsSpare(MarkedState(st, now), 0, acts, f, care)
    requires Mark(st.slots[i], now).toBeCalled.DontRun?
    ensures var r := RunAll(st, now, acts);
      Count(r.calls, f) == 0 && HeldOnlyAt(r.st, f, i) && SameBut(Mark(st.slots[i], now), r.st.slots[i], care)
  {
    hide MarkAll, CallFrom, CallsSpare, Consistent, NoneDueInFree, Mark;
    MarkKeeps(st, now);
    MarkHolds(st, f, i, now);
    CallFromFollows(MarkedState(st, now), 0, acts, f, i, care);
  }

  // ----- Restarting --------------------------------------------------------------------------------------

  /** Nothing in the history touches the timer, and its runs come before a deadline. */
  ghost predicate Before(st: State, events: seq<Event>, f: nat, care: Care, from: nat, end: nat)
    requires |st.slots| == MAX_TIMERS && Possible(events)
    decreases |events|
  {
    events == [] ||
    (&& (match events[0]
         case Call(op) => !Touches(st, op, f, care)
         case Tick(now, acts) => from <= now < end && CallsSpare(MarkedState(st, now), 0, acts, f, care))
     && Before(After(st, events[0]).st, events[1..], f, care, from, end))
  }

  /** The timer in slot `i` has period `d` and was last started at `start`. */
  ghost predicate StartedAt(st: State, f: nat, i: nat, start: nat, d: nat)
  {
    && HeldOnlyAt(st, f, i) && i < MAX_TIMERS
    && st.slots[i].delay == d && st.slots[i].prevMillis == start % 0x1_0000_0000
  }

  lemma RestartStarts(st: State, f: nat, i: nat, now: nat, d: nat)
    requires |st.slots| == MAX_TIMERS && HeldOnlyAt(st, f, i) && st.slots[i].delay == d
    ensures var st' := Apply(st, RestartTimer(now, i));
      && StartedAt(st', f, i, now, d)
      && st'.numTimers == st.numTimers
      && st'.slots == st.slots[i := st.slots[i].(prevMillis := now % 0x1_0000_0000)]
  {
  }

  lemma NotYetDue(s: Slot, now: nat, start: nat)
    requires 0 < s.delay < 0x8000_0000 && s.prevMillis == Word(start) && start <= now < start + s.delay
    ensures Mark(s, now) == s.(toBeCalled := DontRun)
  {
    ClockDifference(now, start);
  }

  /** For a whole period after its start a timer is not called, whatever else happens, and stays as it is. */
  lemma {:induction false} QuietForPeriod(st: State, events: seq<Event>, f: nat, i: nat, start: nat, d: nat, care: Care)
    requires Consistent(st) && |st.slots| == MAX_TIMERS && Possible(events) && 0 < d < 0x8000_0000
    requires StartedAt(st, f, i, start, d) && care != Counting && Before(st, events, f, care, start, start + d)
    ensures var r := Exec(st, events);
      && Count(r.calls, f) == 0 && StartedAt(r.st, f, i, start, d) && Consistent(r.st)
      && r.st.slots[i].maxRuns == st.slots[i].maxRuns && r.st.slots[i].numRuns == st.slots[i].numRuns
      && (care == Everything ==> r.st.slots[i].enabled == st.slots[i].enabled)
    decreases |events|
  {
    hide Consistent, CallsSpare, Touches, Apply, CallFrom, MarkAll, MarkedState, Count, Mark;
    CountNothing(f);
    if events == [] {
    } else {
      var r := After(st, events[0]);
      AfterKeeps(st, events[0]);
      match events[0] {
        case Call(op) => SparedByOne(st, op, f, i, care);
        case Tick(now, acts) =>
          NotYetDue(st.slots[i], now, start);
          NotCalledStays(st, now, acts, f, i, care);
      }
      HasSlots(r.st);
      QuietForPeriod(r.st, events[1..], f, i, start, d, care);
      CountAppend(r.calls, Exec(r.st, events[1..]).calls, f);
    }
  }

  /** A restart starts the period anew: no run before now + d calls the timer, whenever it was due before, and the
      first run from now + d on, if it comes before now + 2d, calls it once if it is enabled and has runs left. */
  lemma RestartPostpones(st: State, f: nat, i: nat, now: nat, d: nat, events: seq<Event>, t: nat, acts: seq<seq<Op>>)
    requires Consistent(st) && |st.slots| == |acts| == MAX_TIMERS && Possible(events)
    requires HeldOnlyAt(st, f, i) && st.slots[i].delay == d && 0 < d < 0x8000_0000
    requires Before(Apply(st, RestartTimer(now, i)), events, f, Clock, now, now + d)
    requires now + d <= t < now + 2 * d
    requires var st' := Exec(Apply(st, RestartTimer(now, i)), events).st;
      CallsSpare(MarkedState(st', t), 0, acts, f, Clock)
    ensures var r := Exec(Apply(st, RestartTimer(now, i)), events);
      && Count(r.calls, f) == 0
      && HeldOnlyAt(r.st, f, i)
      && Count(RunAll(r.st, t, acts).calls, f) == if r.st.slots[i].enabled && RunsLeft(st.slots[i]) then 1 else 0
  {
    hide Consistent, CallsSpare, Apply, CallFrom, MarkAll, MarkedState, Count, Mark, Before;
    var st' := Apply(st, RestartTimer(now, i));
    ApplyKeeps(st, RestartTimer(now, i));
    RestartStarts(st, f, i, now, d);
    QuietForPeriod(st', events, f, i, now, d, Clock);
    var r := Exec(st', events);
    HasSlots(r.st);
    LessCare(MarkedState(r.st, t), 0, acts, f);
    CalledIff(r.st, t, acts, f, i);
    NowDifference(t, now);
    ClockDifference(t, now);
    SinceStart(t, now);
  }

  lemma SinceStart(t: nat, now: nat)
    requires now <= t < now + 0x1_0000_0000
    ensures (t - now % 0x1_0000_0000) % 0x1_0000_0000 == t - now
  {
    WordMultiples(t - now, now / WORD);
  }

  lemma LessCareOne(st: State, op: Op, f: nat)
    requires |st.slots| == MAX_TIMERS && !Touches(st, op, f, Clock)
    ensures !Touches(st, op, f, Counting)
  {
  }

  lemma {:induction false} LessCareAll(st: State, ops: seq<Op>, f: nat)
    requires |st.slots| == MAX_TIMERS && AllSpare(st, ops, f, Clock)
    ensures AllSpare(st, ops, f, Counting)
    decreases |ops|
  {
    hide Apply, Touches;
    if ops == [] {
    } else {
      LessCareOne(st, ops[0], f);
      LessCareAll(Apply(st, ops[0]), ops[1..], f);
    }
  }

  lemma {:induction false} LessCare(st: State, k: nat, acts: seq<seq<Op>>, f: nat)
    requires |st.slots| == |acts| == MAX_TIMERS && CallsSpare(st, k, acts, f, Clock)
    ensures CallsSpare(st, k, acts, f, Counting)
    decreases MAX_TIMERS - k
  {
    hide AfterCall, AllSpare;
    if k >= MAX_TIMERS {
    } else if st.slots[k].toBeCalled.DontRun? {
      LessCare(st, k + 1, acts, f);
    } else {
      LessCareAll(st, acts[k], f);
      LessCare(AfterCall(st, k, acts[k]), k + 1, acts, f);
    }
  }

  /** And the timer keeps the pace of a timer set at that time. */
  lemma RestartOnPace(st: State, f: nat, i: nat, now: nat, d: nat, n: int)
    requires Consistent(st) && |st.slots| == MAX_TIMERS && HeldOnlyAt(st, f, i) && st.slots[i].delay == d
    requires 0 < d < 0x8000_0000
    ensures var p := Plan(f, i, now, d, n); ValidPlan(p) && OnPace(Apply(st, RestartTimer(now, i)), p, now)
  {
    RestartStarts(st, f, i, now, d);
    assert (now - now) / d == 0;
  }

  // ----- Disabling and enabling --------------------------------------------------------------------------

  /** Nothing in the history touches the timer, not even to enable it. */
  ghost predicate LeftDisabled(st: State, events: seq<Event>, f: nat)
    requires |st.slots| == MAX_TIMERS && Possible(events)
    decreases |events|
  {
    events == [] ||
    (&& (match events[0]
         case Call(op) => !Touches(st, op, f, Everything)
         case Tick(now, acts) => CallsSpare(MarkedState(st, now), 0, acts, f, Everything))
     && LeftDisabled(After(st, events[0]).st, events[1..], f))
  }

  lemma {:induction false} DisabledIsSilent(st: State, events: seq<Event>, f: nat, i: nat)
    requires Consistent(st) && |st.slots| == MAX_TIMERS && Possible(events)
    requires HeldOnlyAt(st, f, i) && !st.slots[i].enabled && LeftDisabled(st, events, f)
    ensures var r := Exec(st, events);
      && Count(r.calls, f) == 0 && HeldOnlyAt(r.st, f, i) && !r.st.slots[i].enabled && Consistent(r.st)
      && r.st.slots[i].maxRuns == st.slots[i].maxRuns && r.st.slots[i].numRuns == st.slots[i].numRuns
    decreases |events|
  {
    hide Consistent, CallsSpare, Touches, Apply, CallFrom, MarkAll, MarkedState, Count;
    CountNothing(f);
    if events == [] {
    } else {
      var r := After(st, events[0]);
      AfterKeeps(st, events[0]);
      match events[0] {
        case Call(op) => SparedByOne(st, op, f, i, Everything);
        case Tick(now, acts) => NotCalledStays(st, now, acts, f, i, Everything);
      }
      HasSlots(r.st);
      DisabledIsSilent(r.st, events[1..], f, i);
      CountAppend(r.calls, Exec(r.st, events[1..]).calls, f);
    }
  }

  /** After `disable` no run calls the timer and no run of it is used up, until something enables it again. */
  lemma DisableSilences(st: State, f: nat, i: nat, events: seq<Event>)
    requires Consistent(st) && |st.slots| == MAX_TIMERS && Possible(events) && HeldOnlyAt(st, f, i)
    requires LeftDisabled(Apply(st, Disable(i)), events, f)
    ensures var r := Exec(Apply(st, Disable(i)), events);
      && Count(r.calls, f) == 0 && HeldOnlyAt(r.st, f, i) && r.st.slots[i].numRuns == st.slots[i].numRuns
  {
    hide Consistent, LeftDisabled, Exec;
    ApplyKeeps(st, Disable(i));
    DisabledIsSilent(Apply(st, Disable(i)), events, f, i);
  }

  /** After `enable` the next run that finds the timer due calls it, if it has runs left. */
  lemma EnableResumes(st: State, f: nat, i: nat, now: nat, acts: seq<seq<Op>>)
    requires Consistent(st) && |st.slots| == |acts| == MAX_TIMERS && HeldOnlyAt(st, f, i)
    requires CallsSpare(MarkedState(Apply(st, Enable(i)), now), 0, acts, f, Counting)
    ensures Count(RunAll(Apply(st, Enable(i)), now, acts).calls, f) ==
              if RunsLeft(st.slots[i]) && (now - st.slots[i].prevMillis) % 0x1_0000_0000 >= st.slots[i].delay % 0x1_0000_0000
              then 1 else 0
  {
    hide Consistent, CallsSpare, CallFrom, MarkAll, MarkedState, Count;
    ApplyKeeps(st, Enable(i));
    CalledIff(Apply(st, Enable(i)), now, acts, f, i);
  }

  /** `toggle` turns an enabled timer off and a disabled one on, and twice is not at all. */
  lemma ToggleTwice(st: State, i: nat)
    requires |st.slots| == MAX_TIMERS && i < MAX_TIMERS
    ensures Apply(st, Toggle(i)) == Apply(st, if st.slots[i].enabled then Disable(i) else Enable(i))
    ensures Apply(Apply(st, Toggle(i)), Toggle(i)) == st
  {
    var s := st.slots[i];
    assert s.(enabled := !s.enabled).(enabled := s.enabled) == s;
  }

  // ----- Order -------------------------------------------------------------------------------------------

  lemma {:induction false} CountFinds(calls: seq<Option<nat>>, f: nat) returns (k: nat)
    requires Count(calls, f) > 0
    ensures k < |calls| && calls[k] == Some(f)
  {
    if calls[0] == Some(f) {
      k := 0;
    } else {
      k := CountFinds(calls[1..], f);
      k := k + 1;
    }
  }

  /** Due timers are called in the order of their slots. */
  lemma {:induction false} CalledInOrder(st: State, k: nat, acts: seq<seq<Op>>, f: nat, i: nat, g: nat, j: nat)
    returns (a: nat, b: nat)
    requires Consistent(st) && NoneDueInFree(st) && |st.slots| == |acts| == MAX_TIMERS
    requires HeldOnlyAt(st, f, i) && HeldOnlyAt(st, g, j) && k <= i < j
    requires !st.slots[i].toBeCalled.DontRun? && !st.slots[j].toBeCalled.DontRun?
    requires CallsSpare(st, k, acts, f, Counting) && CallsSpare(st, k, acts, g, Counting)
    ensures var calls := CallFrom(st, k, acts).calls; a < b < |calls| && calls[a] == Some(f) && calls[b] == Some(g)
    decreases MAX_TIMERS - k
  {
    hide AfterCall, CallFrom, AllSpare, Consistent, NoneDueInFree;
    CallFromStep(st, k, acts);
    if st.slots[k].toBeCalled.DontRun? {
      a, b := CalledInOrder(st, k + 1, acts, f, i, g, j);
      assert [] + CallFrom(st, k + 1, acts).calls == CallFrom(st, k + 1, acts).calls;
    } else {
      var next := AfterCall(st, k, acts[k]);
      AfterCallKeeps(st, k, acts[k]);
      SparedByCall(st, k, acts[k], f, i, Counting);
      SparedByCall(st, k, acts[k], g, j, Counting);
      if k == i {
        CallFromFollows(next, k + 1, acts, g, j, Counting);
        var c := CountFinds(CallFrom(next, k + 1, acts).calls, g);
        a, b := 0, c + 1;
      } else {
        a, b := CalledInOrder(next, k + 1, acts, f, i, g, j);
        a, b := a + 1, b + 1;
      }
    }
  }

  // ----- Setting -----------------------------------------------------------------------------------------

  /** `setTimer` fails exactly when all slots are taken, and otherwise takes the lowest free one. */
  lemma SlotChosen(st: State)
    requires Consistent(st) && |st.slots| == MAX_TIMERS
    ensures st.numTimers <= 10
    ensures FreeSlot(st) == -1 <==> st.numTimers == 10
    ensures FreeSlot(st) == -1 <==> forall i :: 0 <= i < 10 ==> !Free(st.slots[i])
    ensures FreeSlot(st) >= 0 ==> Free(st.slots[FreeSlot(st)])
    ensures forall i :: 0 <= i < FreeSlot(st) ==> !Free(st.slots[i])
  {
    hide Occupied;
    OccupiedBound(st.slots);
    if i :| 0 <= i < MAX_TIMERS && Free(st.slots[i]) {
      AtMostAll(st.slots, i);
    } else {
      AllOccupied(st.slots);
    }
  }

  lemma {:induction false} AllOccupied(slots: seq<Slot>)
    requires forall i :: 0 <= i < |slots| ==> !Free(slots[i])
    ensures Occupied(slots) == |slots|
  {
    if slots == [] {
    } else {
      AllOccupied(slots[1..]);
    }
  }

  /** The state that the constructor makes starts every history: no timer, and nothing to call. */
  lemma StartIsConsistent(st: State)
    requires |st.slots| == MAX_TIMERS && st.numTimers == 0
    requires forall i :: 0 <= i < MAX_TIMERS ==> Free(st.slots[i]) && st.slots[i].numRuns == 0
    ensures Consistent(st) && forall f :: Gone(st, f)
  {
    NoneOccupied(st.slots);
  }

  lemma {:induction false} NoneOccupied(slots: seq<Slot>)
    requires forall i :: 0 <= i < |slots| ==> Free(slots[i])
    ensures Occupied(slots) == 0
  {
    if slots == [] {
    } else {
      NoneOccupied(slots[1..]);
    }
  }
}
