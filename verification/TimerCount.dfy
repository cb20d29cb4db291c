/** How often an n-run timer is called, whatever the times of the runs; and timers set in a last run. */
module TimerCount {
  import opened Common
  import opened Timer
  import opened TimerHistory

  // ----- Exactly n calls -----------------------------------------------------------------------------------

  /** Nothing in the history sets the callback again or deletes its timer. It may be enabled, disabled and
      restarted, and runs may come at any time. */
  ghost predicate Spared(st: State, events: seq<Event>, f: nat)
    requires |st.slots| == MAX_TIMERS && Possible(events)
    decreases |events|
  {
    events == [] ||
    (&& (match events[0]
         case Call(op) => !Touches(st, op, f, Counting)
         case Tick(now, acts) => CallsSpare(MarkedState(st, now), 0, acts, f, Counting))
     && Spared(After(st, events[0]).st, events[1..], f))
  }

  /** The timer in slot `i` has been called that often: it is held until the n-th call, which frees it. */
  ghost predicate Counted(st: State, f: nat, i: nat, n: nat, calls: nat)
  {
    && n >= 1 && calls <= n
    && if calls == n then Gone(st, f)
       else HeldOnlyAt(st, f, i) && st.slots[i].maxRuns == n && st.slots[i].numRuns == calls
  }

  /** A run at that time finds the timer in slot `i` enabled and due. */
  ghost predicate DueAt(st: State, f: nat, i: nat, now: nat)
  {
    HeldOnlyAt(st, f, i) && st.slots[i].enabled && Word(Word(now) - st.slots[i].prevMillis) >= Word(st.slots[i].delay)
  }

  /** In how many runs of a history that is so. */
  ghost function DueRuns(st: State, events: seq<Event>, f: nat, i: nat): nat
    requires |st.slots| == MAX_TIMERS && Possible(events)
    decreases |events|
  {
    if events == [] then 0 else
      (if events[0].Tick? && DueAt(st, f, i, events[0].now) then 1 else 0)
      + DueRuns(After(st, events[0]).st, events[1..], f, i)
  }

  lemma CallCounted(st: State, op: Op, f: nat, i: nat, n: nat, calls: nat)
    requires |st.slots| == MAX_TIMERS && Counted(st, f, i, n, calls) && !Touches(st, op, f, Counting)
    ensures Counted(Apply(st, op), f, i, n, calls)
  {
    hide Apply, Touches, Gone;
    SparedByOne(st, op, f, i, Counting);
  }

  lemma GoneNotHeld(st: State, f: nat, i: nat)
    requires Gone(st, f)
    ensures !HeldOnlyAt(st, f, i)
  {
  }

  lemma TickCounted(st: State, now: nat, acts: seq<seq<Op>>, f: nat, i: nat, n: nat, calls: nat)
    requires Consistent(st) && |st.slots| == |acts| == MAX_TIMERS && Counted(st, f, i, n, calls)
    requires CallsSpare(MarkedState(st, now), 0, acts, f, Counting)
    ensures var r := RunAll(st, now, acts);
      && Count(r.calls, f) == (if DueAt(st, f, i, now) then 1 else 0)
      && Counted(r.st, f, i, n, calls + Count(r.calls, f))
  {
    hide MarkAll, CallFrom, CallsSpare, Consistent, NoneDueInFree, Gone;
    MarkKeeps(st, now);
    MarkHolds(st, f, i, now);
    CallFromFollows(MarkedState(st, now), 0, acts, f, i, Counting);
    if calls == n {
      GoneNotHeld(st, f, i);
    }
  }

  /** Over every such history the timer is called once in each run that finds it enabled and due, until it
      has been called n times; it is freed with that call and never called again. */
  lemma {:induction false} CalledExactly(st: State, events: seq<Event>, f: nat, i: nat, n: nat, calls: nat)
    requires Consistent(st) && |st.slots| == MAX_TIMERS && Possible(events)
    requires Counted(st, f, i, n, calls) && Spared(st, events, f)
    ensures Count(Exec(st, events).calls, f) == DueRuns(st, events, f, i)
    ensures Counted(Exec(st, events).st, f, i, n, calls + Count(Exec(st, events).calls, f))
    decreases |events|
  {
    hide Counted, Consistent, CallsSpare, Touches, Apply, CallFrom, MarkAll, MarkedState, Count, DueAt;
    if events == [] {
      CountNothing(f);
    } else {
      var r := After(st, events[0]);
      AfterKeeps(st, events[0]);
      CountNothing(f);
      match events[0] {
        case Call(op) => CallCounted(st, op, f, i, n, calls);
        case Tick(now, acts) => TickCounted(st, now, acts, f, i, n, calls);
      }
      HasSlots(r.st);
      CalledExactly(r.st, events[1..], f, i, n, calls + Count(r.calls, f));
      CountAppend(r.calls, Exec(r.st, events[1..]).calls, f);
    }
  }

  /** An n-run timer that is set has been called 0 times. */
  lemma SetCounted(st: State, now: nat, d: int, f: nat, n: nat)
    requires Consistent(st) && Gone(st, f) && FreeSlot(st) >= 0 && n >= 1
    ensures Counted(Apply(st, SetTimer(now, d, Some(f), n)), f, FreeSlot(st), n, 0)
  {
  }

  // ----- A timer set in a last run -------------------------------------------------------------------------

  /** A timer that the callback of a last run has set and that is in slot `j` when it returns is lost if and
      only if `j` is the slot of the callback: the deletion after the last run takes whatever is there. For
      that the callback has to have freed its own slot. */
  lemma NewTimerLostIff(st: State, k: nat, ops: seq<Op>, g: nat, j: nat)
    requires Consistent(st) && |st.slots| == MAX_TIMERS && k < MAX_TIMERS && st.slots[k].toBeCalled.RunAndDelete?
    requires HeldOnlyAt(ApplyAll(st, ops), g, j)
    ensures Gone(AfterCall(st, k, ops), g) <==> j == k
    ensures j != k ==> HeldOnlyAt(AfterCall(st, k, ops), g, j)
                       && AfterCall(st, k, ops).slots[j] == ApplyAll(st, ops).slots[j]
    ensures Gone(st, g) && j == k ==> Frees(st, ops, k)
  {
    hide ApplyAll, Delete, Consistent, Frees;
    var called := ApplyAll(st, ops);
    ApplyAllKeeps(st, ops);
    HeldCounts(called, g, j);
    DeleteOther(called, k, g, j);
    NeedsFreeing(st, ops, k);
  }

  /** Some call of the callback leaves slot `k` free. */
  ghost predicate Frees(st: State, ops: seq<Op>, k: nat)
    requires |st.slots| == MAX_TIMERS && k < MAX_TIMERS
    decreases |ops|
  {
    Free(st.slots[k]) || (ops != [] && Frees(Apply(st, ops[0]), ops[1..], k))
  }

  /** For a new timer to be in the slot of the running callback, that callback has to free the slot. */
  lemma {:induction false} NeedsFreeing(st: State, ops: seq<Op>, k: nat)
    requires |st.slots| == MAX_TIMERS && k < MAX_TIMERS
    ensures ApplyAll(st, ops).slots[k].callback != st.slots[k].callback ==> Frees(st, ops, k)
    decreases |ops|
  {
    hide Apply;
    if ops == [] {
    } else {
      ChangesOnlyFree(st, ops[0], k);
      NeedsFreeing(Apply(st, ops[0]), ops[1..], k);
    }
  }

  lemma ChangesOnlyFree(st: State, op: Op, k: nat)
    requires |st.slots| == MAX_TIMERS && k < MAX_TIMERS
    ensures var s, s' := st.slots[k], Apply(st, op).slots[k]; s'.callback == s.callback || Free(s) || Free(s')
  {
  }

  lemma {:induction false} FirstFreeIs(slots: seq<Slot>, k: nat)
    requires k < |slots| && Free(slots[k]) && forall i :: 0 <= i < k ==> !Free(slots[i])
    ensures FirstFree(slots) == k
  {
    if k == 0 {
    } else {
      FirstFreeIs(slots[1..], k - 1);
    }
  }

  /** It does happen: with no free slot below, a callback that deletes its own timer and sets another gets the
      slot just freed. */
  lemma LastRunDeletesNewTimer(st: State, k: nat, now: nat, d: int, g: nat, n: int)
    requires Consistent(st) && k < MAX_TIMERS && !Free(st.slots[k]) && st.slots[k].toBeCalled.RunAndDelete?
    requires Gone(st, g) && forall i :: 0 <= i < k ==> !Free(st.slots[i])
    ensures var ops := [DeleteTimer(k), SetTimer(now, d, Some(g), n)];
            && ApplyAll(st, ops).slots[k].callback == Some(g)
            && Gone(AfterCall(st, k, ops), g)
  {
    var ops := [DeleteTimer(k), SetTimer(now, d, Some(g), n)];
    SomeOccupied(st.slots, k);
    DeleteKeeps(st, k);
    var freed := Delete(st, k);
    FirstFreeIs(freed.slots, k);
    AtMostAll(freed.slots, k);
    assert ops[1..] == [ops[1]] && ops[1..][1..] == [];
    assert ApplyAll(st, ops) == ApplyAll(freed, [ops[1]]) == Apply(freed, ops[1]);
    ApplyKeeps(freed, ops[1]);
    SomeOccupied(Apply(freed, ops[1]).slots, k);
  }

  lemma {:induction false} AtMostAll(slots: seq<Slot>, k: nat)
    requires k < |slots| && Free(slots[k])
    ensures Occupied(slots) < |slots|
  {
    if k > 0 {
      AtMostAll(slots[1..], k - 1);
    } else {
      OccupiedBound(slots[1..]);
    }
  }

  lemma {:induction false} OccupiedBound(slots: seq<Slot>)
    ensures Occupied(slots) <= |slots|
  {
    if slots == [] {
    } else {
      OccupiedBound(slots[1..]);
    }
  }
}
