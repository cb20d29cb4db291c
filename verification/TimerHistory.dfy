/** What `M5Timer` keeps over every history of calls and runs. */
module TimerHistory {
  import opened Common
  import opened Timer

  /** A history: calls into the scheduler, and runs with what their callbacks do. */
  datatype Event = Call(op: Op) | Tick(now: nat, acts: seq<seq<Op>>)

  predicate Possible(events: seq<Event>)
  {
    forall e :: e in events && e.Tick? ==> |e.acts| == MAX_TIMERS
  }

  function After(st: State, e: Event): (r: Ran)
    requires |st.slots| == MAX_TIMERS && (e.Tick? ==> |e.acts| == MAX_TIMERS)
    ensures |r.st.slots| == MAX_TIMERS
  {
    match e
    case Call(op) => Ran(Apply(st, op), [])
    case Tick(now, acts) => RunAll(st, now, acts)
  }

  /** The state after a history, and every callback called in it. */
  function Exec(st: State, events: seq<Event>): (r: Ran)
    requires |st.slots| == MAX_TIMERS && Possible(events)
    ensures |r.st.slots| == MAX_TIMERS
    decreases |events|
  {
    if events == [] then Ran(st, []) else
      var first := After(st, events[0]);
      var rest := Exec(first.st, events[1..]);
      Ran(rest.st, first.calls + rest.calls)
  }

  // ----- Counting slots --------------------------------------------------------------------------------

  function Occupied(slots: seq<Slot>): nat
  {
    if slots == [] then 0 else (if Free(slots[0]) then 0 else 1) + Occupied(slots[1..])
  }

  lemma {:induction false} OccupiedUpdate(slots: seq<Slot>, i: nat, s: Slot)
    requires i < |slots|
    ensures Occupied(slots[i := s])
         == Occupied(slots) - (if Free(slots[i]) then 0 else 1) + (if Free(s) then 0 else 1)
  {
    var updated := slots[i := s];
    if i == 0 {
      assert updated[1..] == slots[1..];
    } else {
      assert updated[1..] == slots[1..][i - 1 := s];
      OccupiedUpdate(slots[1..], i - 1, s);
    }
  }

  lemma {:induction false} OccupiedSame(a: seq<Slot>, b: seq<Slot>)
    requires |a| == |b| && forall i :: 0 <= i < |a| ==> a[i].callback == b[i].callback
    ensures Occupied(a) == Occupied(b)
  {
    if a == [] {
    } else {
      OccupiedSame(a[1..], b[1..]);
    }
  }

  lemma {:induction false} SomeOccupied(slots: seq<Slot>, i: nat)
    requires i < |slots| && !Free(slots[i])
    ensures Occupied(slots) > 0
  {
    if i == 0 {
    } else {
      SomeOccupied(slots[1..], i - 1);
    }
  }

  ghost predicate Consistent(st: State)
  {
    && |st.slots| == MAX_TIMERS
    && st.numTimers == Occupied(st.slots)
    && (forall i :: 0 <= i < MAX_TIMERS && Free(st.slots[i]) ==> st.slots[i].numRuns == 0)
  }

  /** During the second loop of a run, nothing is to be called in a free slot. */
  ghost predicate NoneDueInFree(st: State)
  {
    forall i :: 0 <= i < |st.slots| && Free(st.slots[i]) ==> st.slots[i].toBeCalled.DontRun?
  }

  // ----- Consistency -------------------------------------------------------------------------------------

  lemma DeleteKeeps(st: State, id: nat)
    requires Consistent(st)
    ensures Consistent(Delete(st, id))
    ensures NoneDueInFree(st) ==> NoneDueInFree(Delete(st, id))
    ensures id < MAX_TIMERS ==> Free(Delete(st, id).slots[id])
    ensures id < MAX_TIMERS && !Free(st.slots[id]) ==>
              var s := Delete(st, id).slots[id]; !s.enabled && s.delay == 0 && s.numRuns == 0 && s.toBeCalled.DontRun?
  {
    if id < MAX_TIMERS && !Free(st.slots[id]) {
      SomeOccupied(st.slots, id);
      OccupiedUpdate(st.slots, id, Delete(st, id).slots[id]);
    }
  }

  lemma ApplyKeeps(st: State, op: Op)
    requires Consistent(st)
    ensures Consistent(Apply(st, op))
    ensures NoneDueInFree(st) ==> NoneDueInFree(Apply(st, op))
  {
    match op
    case DeleteTimer(id) => DeleteKeeps(st, id);
    case SetTimer(now, d, f, n) =>
      var free := FreeSlot(st);
      if free >= 0 && f.Some? {
        OccupiedUpdate(st.slots, free, Apply(st, op).slots[free]);
      }
    case RestartTimer(now, id) =>
      if id < MAX_TIMERS { OccupiedUpdate(st.slots, id, Apply(st, op).slots[id]); }
    case Enable(id) =>
      if id < MAX_TIMERS { OccupiedUpdate(st.slots, id, Apply(st, op).slots[id]); }
    case Disable(id) =>
      if id < MAX_TIMERS { OccupiedUpdate(st.slots, id, Apply(st, op).slots[id]); }
    case Toggle(id) =>
      if id < MAX_TIMERS { OccupiedUpdate(st.slots, id, Apply(st, op).slots[id]); }
  }

  lemma {:induction false} ApplyAllKeeps(st: State, ops: seq<Op>)
    requires Consistent(st)
    ensures Consistent(ApplyAll(st, ops))
    ensures NoneDueInFree(st) ==> NoneDueInFree(ApplyAll(st, ops))
    decreases |ops|
  {
    hide Apply, Consistent, NoneDueInFree;
    HasSlots(st);
    if ops == [] {
    } else {
      ApplyKeeps(st, ops[0]);
      ApplyAllKeeps(Apply(st, ops[0]), ops[1..]);
    }
  }

  lemma HasSlots(st: State)
    requires Consistent(st)
    ensures |st.slots| == MAX_TIMERS
  {
  }

  lemma AfterCallKeeps(st: State, k: nat, ops: seq<Op>)
    requires Consistent(st) && NoneDueInFree(st) && k < MAX_TIMERS
    ensures Consistent(AfterCall(st, k, ops)) && NoneDueInFree(AfterCall(st, k, ops))
  {
    hide ApplyAll, Delete;
    ApplyAllKeeps(st, ops);
    DeleteKeeps(ApplyAll(st, ops), k);
  }

  lemma {:induction false} CallFromKeeps(st: State, k: nat, acts: seq<seq<Op>>)
    requires Consistent(st) && NoneDueInFree(st) && |acts| == MAX_TIMERS && k <= MAX_TIMERS
    ensures Consistent(CallFrom(st, k, acts).st)
    ensures forall c :: c in CallFrom(st, k, acts).calls ==> c.Some?
    decreases MAX_TIMERS - k
  {
    hide AfterCall, CallFrom;
    CallFromStep(st, k, acts);
    if k == MAX_TIMERS {
    } else {
      if st.slots[k].toBeCalled.DontRun? {
        CallFromKeeps(st, k + 1, acts);
      } else {
        AfterCallKeeps(st, k, acts[k]);
        CallFromKeeps(AfterCall(st, k, acts[k]), k + 1, acts);
      }
    }
  }

  lemma MarkKeeps(st: State, now: nat)
    requires Consistent(st)
    ensures var m := State(MarkAll(st.slots, now), st.numTimers); Consistent(m) && NoneDueInFree(m)
  {
    OccupiedSame(st.slots, MarkAll(st.slots, now));
  }

  /** One event keeps the count right and calls no empty slot. */
  lemma AfterKeeps(st: State, e: Event)
    requires Consistent(st) && (e.Tick? ==> |e.acts| == MAX_TIMERS)
    ensures Consistent(After(st, e).st)
    ensures forall c :: c in After(st, e).calls ==> c.Some?
  {
    hide Apply, CallFrom, MarkAll, Consistent, NoneDueInFree;
    HasSlots(st);
    match e
    case Call(op) => ApplyKeeps(st, op);
    case Tick(now, acts) =>
      MarkKeeps(st, now);
      CallFromKeeps(State(MarkAll(st.slots, now), st.numTimers), 0, acts);
  }

  /** Over every history `numTimers` is the number of occupied slots, free slots have no runs, and no
      empty slot is ever called. */
  lemma {:induction false} HistoryKeeps(st: State, events: seq<Event>)
    requires Consistent(st) && Possible(events)
    ensures Consistent(Exec(st, events).st)
    ensures forall c :: c in Exec(st, events).calls ==> c.Some?
    decreases |events|
  {
    hide After, Consistent;
    HasSlots(st);
    if events == [] {
    } else {
      AfterKeeps(st, events[0]);
      HistoryKeeps(After(st, events[0]).st, events[1..]);
    }
  }

  // ----- Following one timer -------------------------------------------------------------------------------

  /** Slot `i` and no other holds the callback. */
  ghost predicate HeldOnlyAt(st: State, f: nat, i: nat)
  {
    && i < |st.slots| && st.slots[i].callback == Some(f)
    && forall j :: 0 <= j < |st.slots| && st.slots[j].callback == Some(f) ==> j == i
  }

  ghost predicate Gone(st: State, f: nat)
  {
    forall j :: 0 <= j < |st.slots| ==> st.slots[j].callback != Some(f)
  }

  /** What has to stay as it is while a timer is followed: all of its slot, all but whether it is enabled, or
      all but that and the clock field. */
  datatype Care = Everything | Clock | Counting

  /** The call sets the callback again, deletes its timer, or changes what has to stay. */
  predicate Touches(st: State, op: Op, f: nat, care: Care)
    requires |st.slots| == MAX_TIMERS
  {
    match op
    case SetTimer(_, _, g, _) => g == Some(f)
    case DeleteTimer(id) => id < MAX_TIMERS && st.slots[id].callback == Some(f)
    case RestartTimer(_, id) => !care.Counting? && id < MAX_TIMERS && st.slots[id].callback == Some(f)
    case Disable(id) => care.Everything? && id < MAX_TIMERS && st.slots[id].callback == Some(f)
    case Toggle(id) => care.Everything? && id < MAX_TIMERS && st.slots[id].callback == Some(f)
    case Enable(id) => care.Everything? && id < MAX_TIMERS && st.slots[id].callback == Some(f)
  }

  predicate AllSpare(st: State, ops: seq<Op>, f: nat, care: Care)
    requires |st.slots| == MAX_TIMERS
    decreases |ops|
  {
    ops == [] || (!Touches(st, ops[0], f, care) && AllSpare(Apply(st, ops[0]), ops[1..], f, care))
  }

  /** No callback called from slot `k` on touches the timer. */
  predicate CallsSpare(st: State, k: nat, acts: seq<seq<Op>>, f: nat, care: Care)
    requires |st.slots| == |acts| == MAX_TIMERS
    decreases MAX_TIMERS - k
  {
    k >= MAX_TIMERS ||
    if st.slots[k].toBeCalled.DontRun? then CallsSpare(st, k + 1, acts, f, care)
    else AllSpare(st, acts[k], f, care) && CallsSpare(AfterCall(st, k, acts[k]), k + 1, acts, f, care)
  }

  /** The slot as it was, in what has to stay. */
  predicate SameBut(s: Slot, s': Slot, care: Care)
  {
    && s' == s.(enabled := s'.enabled, prevMillis := s'.prevMillis)
    && (!care.Counting? ==> s'.prevMillis == s.prevMillis)
    && (care.Everything? ==> s'.enabled == s.enabled)
  }

  function Count(calls: seq<Option<nat>>, f: nat): nat
  {
    if calls == [] then 0 else (if calls[0] == Some(f) then 1 else 0) + Count(calls[1..], f)
  }

  lemma {:induction false} CountAppend(a: seq<Option<nat>>, b: seq<Option<nat>>, f: nat)
    ensures Count(a + b, f) == Count(a, f) + Count(b, f)
  {
    if a == [] {
      assert a + b == b;
    } else {
      assert (a + b)[1..] == a[1..] + b;
      CountAppend(a[1..], b, f);
    }
  }

  lemma SparedByOne(st: State, op: Op, f: nat, i: nat, care: Care)
    requires |st.slots| == MAX_TIMERS && !Touches(st, op, f, care)
    ensures HeldOnlyAt(st, f, i) ==>
              HeldOnlyAt(Apply(st, op), f, i) && SameBut(st.slots[i], Apply(st, op).slots[i], care)
    ensures Gone(st, f) ==> Gone(Apply(st, op), f)
  {
  }

  lemma {:induction false} SparedByAll(st: State, ops: seq<Op>, f: nat, i: nat, care: Care)
    requires |st.slots| == MAX_TIMERS && AllSpare(st, ops, f, care)
    ensures HeldOnlyAt(st, f, i) ==>
              HeldOnlyAt(ApplyAll(st, ops), f, i) && SameBut(st.slots[i], ApplyAll(st, ops).slots[i], care)
    ensures Gone(st, f) ==> Gone(ApplyAll(st, ops), f)
    decreases |ops|
  {
    hide Apply, Touches;
    if ops == [] {
    } else {
      SparedByOne(st, ops[0], f, i, care);
      SparedByAll(Apply(st, ops[0]), ops[1..], f, i, care);
    }
  }

  lemma DeleteOther(st: State, k: nat, f: nat, i: nat)
    requires |st.slots| == MAX_TIMERS && k < MAX_TIMERS
    ensures Gone(st, f) ==> Gone(Delete(st, k), f)
    ensures HeldOnlyAt(st, f, i) && k != i ==> HeldOnlyAt(Delete(st, k), f, i) && Delete(st, k).slots[i] == st.slots[i]
    ensures HeldOnlyAt(st, f, k) && st.numTimers > 0 ==> Gone(Delete(st, k), f)
  {
  }

  lemma HeldCounts(st: State, f: nat, k: nat)
    requires Consistent(st)
    ensures HeldOnlyAt(st, f, k) ==> st.numTimers > 0
  {
    if HeldOnlyAt(st, f, k) {
      SomeOccupied(st.slots, k);
    }
  }

  /** How a call in slot `k` leaves a timer that it does not touch: only its own last run frees it. */
  lemma SparedByCall(st: State, k: nat, ops: seq<Op>, f: nat, i: nat, care: Care)
    requires Consistent(st) && |st.slots| == MAX_TIMERS && k < MAX_TIMERS && AllSpare(st, ops, f, care)
    ensures Gone(st, f) ==> Gone(AfterCall(st, k, ops), f)
    ensures HeldOnlyAt(st, f, i) && (k != i || !st.slots[k].toBeCalled.RunAndDelete?) ==>
              HeldOnlyAt(AfterCall(st, k, ops), f, i) && SameBut(st.slots[i], AfterCall(st, k, ops).slots[i], care)
    ensures HeldOnlyAt(st, f, k) && st.slots[k].toBeCalled.RunAndDelete? ==> Gone(AfterCall(st, k, ops), f)
  {
    hide ApplyAll, Delete, AllSpare, Gone, Consistent;
    var called := ApplyAll(st, ops);
    SparedByAll(st, ops, f, i, care);
    SparedByAll(st, ops, f, k, care);
    ApplyAllKeeps(st, ops);
    DeleteOther(called, k, f, i);
    DeleteOther(called, k, f, k);
    HeldCounts(called, f, k);
  }

  /** What the second loop of a run, from slot `k`, does to a timer that no callback touches: it is
      called once if it is due, and freed if that was its last run. */
  lemma {:induction false} CallFromFollows(st: State, k: nat, acts: seq<seq<Op>>, f: nat, i: nat, care: Care)
    requires Consistent(st) && NoneDueInFree(st) && |st.slots| == |acts| == MAX_TIMERS && k <= MAX_TIMERS
    requires CallsSpare(st, k, acts, f, care)
    ensures Gone(st, f) ==> Gone(CallFrom(st, k, acts).st, f) && Count(CallFrom(st, k, acts).calls, f) == 0
    ensures HeldOnlyAt(st, f, i) ==>
              var due, r := k <= i && !st.slots[i].toBeCalled.DontRun?, CallFrom(st, k, acts);
              && Count(r.calls, f) == (if due then 1 else 0)
              && if due && st.slots[i].toBeCalled.RunAndDelete? then Gone(r.st, f)
                 else HeldOnlyAt(r.st, f, i) && SameBut(st.slots[i], r.st.slots[i], care)
    decreases MAX_TIMERS - k
  {
    hide AfterCall, CallFrom, AllSpare, Consistent, NoneDueInFree;
    CallFromStep(st, k, acts);
    if k == MAX_TIMERS {
    } else {
      if st.slots[k].toBeCalled.DontRun? {
        CallFromFollows(st, k + 1, acts, f, i, care);
        CountAppend([], CallFrom(st, k + 1, acts).calls, f);
      } else {
        var next, cb := AfterCall(st, k, acts[k]), st.slots[k].callback;
        AfterCallKeeps(st, k, acts[k]);
        SparedByCall(st, k, acts[k], f, i, care);
        CallFromFollows(next, k + 1, acts, f, i, care);
        CountCons(cb, CallFrom(next, k + 1, acts).calls, f);
      }
    }
  }

  lemma CountCons(cb: Option<nat>, calls: seq<Option<nat>>, f: nat)
    ensures Count([cb] + calls, f) == (if cb == Some(f) then 1 else 0) + Count(calls, f)
  {
    assert ([cb] + calls)[1..] == calls;
  }

  // ----- Periods -------------------------------------------------------------------------------------------

  /** A timer: its callback, slot, start, period and number of runs. */
  datatype Plan = Plan(f: nat, slot: nat, start: nat, d: nat, n: int)

  predicate ValidPlan(p: Plan)
  {
    p.slot < MAX_TIMERS && 0 < p.d < 0x8000_0000
  }

  /** Whole periods from the start to `t`. */
  function Periods(p: Plan, t: nat): nat
    requires p.d > 0 && t >= p.start
  {
    (t - p.start) / p.d
  }

  /** The true time at which the period after the last consumed one began. */
  function Consumed(p: Plan, t: nat): nat
    requires p.d > 0 && t >= p.start
  {
    p.start + p.d * Periods(p, t)
  }

  lemma ConsumedWithin(p: Plan, t: nat)
    requires p.d > 0 && t >= p.start
    ensures Consumed(p, t) <= t < Consumed(p, t) + p.d
  {
  }

  lemma DivUnique(x: nat, d: nat, k: nat)
    requires d > 0 && d * k <= x < d * k + d
    ensures x / d == k
  {
    var q := x / d;
    assert x == d * q + x % d;
    if q < k {
      MulLe(q + 1, k, d);
    } else {
      MulLe(k, q, d);
      if q > k {
        MulLe(k + 1, q, d);
      }
    }
  }

  lemma MulLe(a: nat, b: nat, d: nat)
    requires a <= b
    ensures d * a <= d * b
  {
  }

  /** At most one period passes between runs that are at most a period apart. */
  lemma NextPeriod(p: Plan, t: nat, now: nat)
    requires p.d > 0 && p.start <= t <= now <= t + p.d
    ensures Periods(p, now) == Periods(p, t) + (if now - Consumed(p, t) >= p.d then 1 else 0)
    ensures Consumed(p, now) == Consumed(p, t) + (if now - Consumed(p, t) >= p.d then p.d else 0)
    ensures 0 <= now - Consumed(p, t) < 2 * p.d
  {
    ConsumedWithin(p, t);
    var k := Periods(p, t);
    var k' := if now - Consumed(p, t) >= p.d then k + 1 else k;
    assert p.d * (k + 1) == p.d * k + p.d;
    DivUnique(now - p.start, p.d, k');
  }

  lemma ClockDifference(now: nat, base: nat)
    requires base <= now < base + WORD
    ensures Word(Word(now) - Word(base)) == now - base
  {
    WordDifference(now, base);
  }

  lemma ClockAdvance(base: nat, d: nat)
    ensures Word(Word(base) + d) == Word(base + d)
  {
  }

  /** The slot's clock fields are those of the plan, up to date with time `t`. */
  predicate Paced(s: Slot, p: Plan, t: nat)
    requires p.d > 0 && t >= p.start
  {
    s.callback == Some(p.f) && s.delay == p.d && s.prevMillis == Word(Consumed(p, t))
  }

  /** The first loop of a run consumes a period exactly when one has passed in true time, however the
      32-bit clock has wrapped. */
  lemma MarkPaced(s: Slot, p: Plan, t: nat, now: nat)
    requires ValidPlan(p) && p.start <= t <= now <= t + p.d && Paced(s, p, t)
    ensures Paced(Mark(s, now), p, now)
    ensures Word(Word(now) - s.prevMillis) < Word(s.delay) <==> Periods(p, now) == Periods(p, t)
  {
    hide Periods, Consumed;
    NextPeriod(p, t, now);
    ClockDifference(now, Consumed(p, t));
    ClockAdvance(Consumed(p, t), p.d);
  }

  /** All fields of an enabled timer that has run whenever it was due. */
  predicate OnTime(s: Slot, p: Plan, t: nat)
    requires p.d > 0 && t >= p.start
  {
    Paced(s, p, t) && s.enabled && s.maxRuns == p.n && s.numRuns == (if p.n >= 1 then Periods(p, t) else 0)
  }

  predicate Over(p: Plan, t: nat)
    requires p.d > 0 && t >= p.start
  {
    p.n >= 1 && Periods(p, t) >= p.n
  }

  /** How often the timer has been called by `t`. */
  function Runs(p: Plan, t: nat): nat
    requires p.d > 0 && t >= p.start
  {
    if p.n < 0 then 0 else if Over(p, t) then p.n else Periods(p, t)
  }

  lemma MarkOnTime(s: Slot, p: Plan, t: nat, now: nat)
    requires ValidPlan(p) && p.start <= t <= now <= t + p.d && OnTime(s, p, t) && !Over(p, t)
    ensures OnTime(Mark(s, now), p, now)
    ensures Runs(p, now) == Runs(p, t) + (if Mark(s, now).toBeCalled.DontRun? then 0 else 1)
    ensures Mark(s, now).toBeCalled.RunAndDelete? <==> Over(p, now)
  {
    hide Periods, Consumed, Paced;
    MarkPaced(s, p, t, now);
    NextPeriod(p, t, now);
    assert Paced(s, p, t) ==> !Free(s) by { PacedHeld(s, p, t); }
  }

  lemma PacedHeld(s: Slot, p: Plan, t: nat)
    requires p.d > 0 && t >= p.start && Paced(s, p, t)
    ensures !Free(s)
  {
  }

  /** The timer, and the number of calls made for it, are as the elapsed time says. */
  ghost predicate OnTrack(st: State, p: Plan, t: nat, calls: nat)
    requires ValidPlan(p) && t >= p.start
  {
    && |st.slots| == MAX_TIMERS
    && calls == Runs(p, t)
    && if Over(p, t) then Gone(st, p.f) else HeldOnlyAt(st, p.f, p.slot) && OnTime(st.slots[p.slot], p, t)
  }

  function MarkedState(st: State, now: nat): (m: State)
    ensures |m.slots| == |st.slots|
  {
    State(MarkAll(st.slots, now), st.numTimers)
  }

  lemma MarkHolds(st: State, f: nat, i: nat, now: nat)
    ensures Gone(st, f) ==> Gone(MarkedState(st, now), f)
    ensures HeldOnlyAt(st, f, i) ==> HeldOnlyAt(MarkedState(st, now), f, i) && MarkedState(st, now).slots[i] == Mark(st.slots[i], now)
  {
  }

  lemma OverStays(p: Plan, t: nat, now: nat)
    requires ValidPlan(p) && p.start <= t <= now <= t + p.d && Over(p, t)
    ensures Over(p, now)
  {
    hide Periods;
    NextPeriod(p, t, now);
  }

  /** A run at most a period after the last keeps the timer on track. */
  lemma TickOnTrack(st: State, p: Plan, t: nat, calls: nat, now: nat, acts: seq<seq<Op>>)
    requires ValidPlan(p) && p.start <= t <= now <= t + p.d && Consistent(st) && |acts| == MAX_TIMERS
    requires OnTrack(st, p, t, calls)
    requires CallsSpare(MarkedState(st, now), 0, acts, p.f, Everything)
    ensures OnTrack(RunAll(st, now, acts).st, p, now, calls + Count(RunAll(st, now, acts).calls, p.f))
  {
    hide Mark, MarkAll, CallFrom, CallsSpare, Consistent, NoneDueInFree, OnTime, Over, Runs, Gone;
    var m := MarkedState(st, now);
    MarkKeeps(st, now);
    MarkHolds(st, p.f, p.slot, now);
    CallFromFollows(m, 0, acts, p.f, p.slot, Everything);
    if Over(p, t) {
      OverStays(p, t, now);
      RunsWhenOver(p, t, now);
    } else {
      MarkOnTime(st.slots[p.slot], p, t, now);
    }
  }

  lemma RunsWhenOver(p: Plan, t: nat, now: nat)
    requires p.d > 0 && t >= p.start && now >= p.start && Over(p, t) && Over(p, now)
    ensures Runs(p, t) == Runs(p, now)
  {
  }

  /** A call that does not touch the timer keeps it on track. */
  lemma CallOnTrack(st: State, p: Plan, t: nat, calls: nat, op: Op)
    requires ValidPlan(p) && t >= p.start && OnTrack(st, p, t, calls) && !Touches(st, op, p.f, Everything)
    ensures OnTrack(Apply(st, op), p, t, calls)
  {
    hide Apply, Touches, Gone;
    SparedByOne(st, op, p.f, p.slot, Everything);
  }

  /** Setting a timer starts it on track. */
  lemma SetOnTrack(st: State, start: nat, d: nat, f: nat, n: int)
    requires Consistent(st) && Gone(st, f) && 0 < d < 0x8000_0000 && FreeSlot(st) >= 0
    ensures var p := Plan(f, FreeSlot(st), start, d, n);
            ValidPlan(p) && OnTrack(Apply(st, SetTimer(start, d, Some(f), n)), p, start, 0)
  {
    assert (start - start) / d == 0;
  }

  /** Runs come at most a period apart, and nothing in the history touches the timer. */
  ghost predicate LeftAlone(st: State, events: seq<Event>, p: Plan, t: nat, care: Care)
    requires |st.slots| == MAX_TIMERS && Possible(events)
    decreases |events|
  {
    events == [] ||
    (&& (match events[0]
         case Call(op) => !Touches(st, op, p.f, care)
         case Tick(now, acts) => t <= now <= t + p.d && CallsSpare(MarkedState(st, now), 0, acts, p.f, care))
     && LeftAlone(After(st, events[0]).st, events[1..], p, LastTick(events[..1], t), care))
  }

  function LastTick(events: seq<Event>, t: nat): nat
  {
    if events == [] then t else
      LastTick(events[1..], if events[0].Tick? then events[0].now else t)
  }

  /** After every run of such a history the timer has been called exactly min(n, (now - start) / d)
      times in true time - exactly (now - start) / d if it runs for ever - and is freed exactly when
      that reaches n. */
  lemma {:induction false} CalledOnTime(st: State, events: seq<Event>, p: Plan, t: nat, calls: nat)
    requires ValidPlan(p) && t >= p.start && Consistent(st) && |st.slots| == MAX_TIMERS && Possible(events)
    requires OnTrack(st, p, t, calls) && LeftAlone(st, events, p, t, Everything)
    ensures LastTick(events, t) >= p.start
    ensures OnTrack(Exec(st, events).st, p, LastTick(events, t), calls + Count(Exec(st, events).calls, p.f))
    decreases |events|
  {
    hide OnTrack, Consistent, CallsSpare, Touches, Apply, CallFrom, MarkAll, MarkedState, Count;
    CountNothing(p.f);
    if events == [] {
    } else {
      var r, t' := After(st, events[0]), LastTick(events[..1], t);
      AfterKeeps(st, events[0]);
      OneTick(events, t);
      match events[0] {
        case Call(op) => CallOnTrack(st, p, t, calls, op);
        case Tick(now, acts) => TickOnTrack(st, p, t, calls, now, acts);
      }
      HasSlots(r.st);
      CalledOnTime(r.st, events[1..], p, t', calls + Count(r.calls, p.f));
      CountAppend(r.calls, Exec(r.st, events[1..]).calls, p.f);
    }
  }

  lemma CountNothing(f: nat)
    ensures Count([], f) == 0
  {
  }

  lemma OneTick(events: seq<Event>, t: nat)
    requires events != []
    ensures LastTick(events[..1], t) == if events[0].Tick? then events[0].now else t
    ensures LastTick(events, t) == LastTick(events[1..], LastTick(events[..1], t))
  {
    assert events[..1][1..] == [];
  }

  // ----- Pace, whether enabled or not ----------------------------------------------------------------------

  /** While the timer is held, its clock fields are up to date. */
  ghost predicate OnPace(st: State, p: Plan, t: nat)
    requires p.d > 0 && t >= p.start
  {
    && |st.slots| == MAX_TIMERS && p.slot < MAX_TIMERS
    && (Gone(st, p.f) || (HeldOnlyAt(st, p.f, p.slot) && Paced(st.slots[p.slot], p, t)))
  }

  lemma TickOnPace(st: State, p: Plan, t: nat, now: nat, acts: seq<seq<Op>>)
    requires ValidPlan(p) && p.start <= t <= now <= t + p.d && Consistent(st) && |acts| == MAX_TIMERS
    requires OnPace(st, p, t) && CallsSpare(MarkedState(st, now), 0, acts, p.f, Clock)
    ensures OnPace(RunAll(st, now, acts).st, p, now)
  {
    hide Mark, MarkAll, CallFrom, CallsSpare, Consistent, NoneDueInFree, Gone, Consumed, HeldOnlyAt;
    var m, r := MarkedState(st, now), RunAll(st, now, acts).st;
    MarkKeeps(st, now);
    MarkHolds(st, p.f, p.slot, now);
    CallFromFollows(m, 0, acts, p.f, p.slot, Clock);
    if !Gone(st, p.f) {
      MarkPaced(st.slots[p.slot], p, t, now);
    }
  }

  lemma CallOnPace(st: State, p: Plan, t: nat, op: Op)
    requires ValidPlan(p) && t >= p.start && OnPace(st, p, t) && !Touches(st, op, p.f, Clock)
    ensures OnPace(Apply(st, op), p, t)
  {
    hide Apply, Touches, Gone, Consumed;
    SparedByOne(st, op, p.f, p.slot, Clock);
  }

  /** If runs come at most a period apart, a timer that is not deleted or restarted - enabled or not -
      has consumed exactly the whole periods since its start, without drift. */
  lemma {:induction false} ConsumedOnTime(st: State, events: seq<Event>, p: Plan, t: nat)
    requires ValidPlan(p) && t >= p.start && Consistent(st) && |st.slots| == MAX_TIMERS && Possible(events)
    requires OnPace(st, p, t) && LeftAlone(st, events, p, t, Clock)
    ensures LastTick(events, t) >= p.start && OnPace(Exec(st, events).st, p, LastTick(events, t))
    decreases |events|
  {
    hide OnPace, Consistent, CallsSpare, Touches, Apply, CallFrom, MarkAll, MarkedState;
    if events == [] {
    } else {
      var r, t' := After(st, events[0]), LastTick(events[..1], t);
      AfterKeeps(st, events[0]);
      OneTick(events, t);
      match events[0] {
        case Call(op) => CallOnPace(st, p, t, op);
        case Tick(now, acts) => TickOnPace(st, p, t, now, acts);
      }
      HasSlots(r.st);
      ConsumedOnTime(r.st, events[1..], p, t');
    }
  }

  /** A run consumes at most one period, so it leaves a timer less than a period behind exactly when it
      came less than two periods after the last one consumed. */
  lemma CatchesUpIff(s: Slot, base: nat, now: nat)
    requires s.callback.Some? && 0 < s.delay < WORD && s.prevMillis == Word(base) && base <= now < base + WORD
    ensures var base' := if now - base >= s.delay then base + s.delay else base;
            Mark(s, now).prevMillis == Word(base') && (now - base' < s.delay <==> now - base < 2 * s.delay)
  {
    ClockDifference(now, base);
    ClockAdvance(base, s.delay);
  }
}
