/** The cooperative scheduler `M5Timer`: its slots, its calls, and the class that holds them. */
module Timer {
  import opened Common

  const MAX_TIMERS: nat := 10
  const RUN_FOREVER: int := 0

  datatype Deferred = DontRun | RunOnly | RunAndDelete

  /** One index of the slot arrays. A callback is a name; what it does is part of the run. */
  datatype Slot = Slot(callback: Option<nat>, prevMillis: int, delay: int, maxRuns: int, numRuns: int,
                       enabled: bool, toBeCalled: Deferred)

  datatype State = State(slots: seq<Slot>, numTimers: int)

  /** The public calls that change the scheduler. `now` is the true time of the call; `millis()` shows it modulo 2^32. */
  datatype Op =
    | SetTimer(now: nat, delay: int, callback: Option<nat>, runs: int)
    | DeleteTimer(id: nat)
    | RestartTimer(now: nat, id: nat)
    | Enable(id: nat)
    | Disable(id: nat)
    | Toggle(id: nat)

  predicate Free(s: Slot)
  {
    s.callback.None?
  }

  function FirstFree(slots: seq<Slot>): int
    ensures -1 <= FirstFree(slots) < |slots|
    ensures FirstFree(slots) >= 0 ==> Free(slots[FirstFree(slots)])
    ensures forall i :: 0 <= i < FirstFree(slots) ==> !Free(slots[i])
    ensures FirstFree(slots) == -1 ==> forall i :: 0 <= i < |slots| ==> !Free(slots[i])
  {
    if slots == [] then -1
    else if Free(slots[0]) then 0
    else
      var r := FirstFree(slots[1..]);
      assert forall i :: 1 <= i < |slots| ==> slots[i] == slots[1..][i - 1];
      if r < 0 then -1 else r + 1
  }

  function FreeSlot(st: State): int
    requires |st.slots| == MAX_TIMERS
    ensures -1 <= FreeSlot(st) < MAX_TIMERS
  {
    if st.numTimers >= MAX_TIMERS then -1 else FirstFree(st.slots)
  }

  function Delete(st: State, id: nat): State
    requires |st.slots| == MAX_TIMERS
  {
    if id >= MAX_TIMERS || st.numTimers == 0 || Free(st.slots[id]) then st
    else
      var s := st.slots[id].(callback := None, enabled := false, toBeCalled := DontRun, delay := 0, numRuns := 0);
      State(st.slots[id := s], st.numTimers - 1)
  }

  function Apply(st: State, op: Op): (r: State)
    requires |st.slots| == MAX_TIMERS
    ensures |r.slots| == MAX_TIMERS
  {
    match op
    case SetTimer(now, d, f, n) =>
      var free := FreeSlot(st);
      if free < 0 || f.None? then st else
        var s := st.slots[free].(delay := d, callback := f, maxRuns := n, enabled := true, prevMillis := Word(now));
        State(st.slots[free := s], st.numTimers + 1)
    case DeleteTimer(id) => Delete(st, id)
    case RestartTimer(now, id) => if id >= MAX_TIMERS then st else Change(st, id, st.slots[id].(prevMillis := Word(now)))
    case Enable(id) => if id >= MAX_TIMERS then st else Change(st, id, st.slots[id].(enabled := true))
    case Disable(id) => if id >= MAX_TIMERS then st else Change(st, id, st.slots[id].(enabled := false))
    case Toggle(id) => if id >= MAX_TIMERS then st else Change(st, id, st.slots[id].(enabled := !st.slots[id].enabled))
  }

  function Change(st: State, id: nat, s: Slot): State
    requires id < |st.slots|
  {
    State(st.slots[id := s], st.numTimers)
  }

  function ApplyAll(st: State, ops: seq<Op>): (r: State)
    requires |st.slots| == MAX_TIMERS
    ensures |r.slots| == MAX_TIMERS
    decreases |ops|
  {
    if ops == [] then st else ApplyAll(Apply(st, ops[0]), ops[1..])
  }

  // ----- run() ---------------------------------------------------------------------------------------

  /** The first loop of `run`, for one slot. */
  function Mark(s: Slot, now: nat): Slot
  {
    var t := s.(toBeCalled := DontRun);
    if Free(s) || Word(Word(now) - s.prevMillis) < Word(s.delay) then t
    else
      var u := t.(prevMillis := Word(s.prevMillis + s.delay));
      if !s.enabled then u
      else if s.maxRuns == RUN_FOREVER then u.(toBeCalled := RunOnly)
      else if s.numRuns < s.maxRuns then
        u.(numRuns := s.numRuns + 1, toBeCalled := if s.numRuns + 1 >= s.maxRuns then RunAndDelete else RunOnly)
      else u
  }

  function MarkAll(slots: seq<Slot>, now: nat): (r: seq<Slot>)
    ensures |r| == |slots| && forall i :: 0 <= i < |r| ==> r[i] == Mark(slots[i], now)
  {
    seq(|slots|, i requires 0 <= i < |slots| => Mark(slots[i], now))
  }

  /** The result of a run, and the callbacks it called, in order. */
  datatype Ran = Ran(st: State, calls: seq<Option<nat>>)

  /** The state after the callback in slot `k` was called, and its timer deleted if that was its last run. */
  function AfterCall(st: State, k: nat, ops: seq<Op>): (r: State)
    requires |st.slots| == MAX_TIMERS && k < MAX_TIMERS
    ensures |r.slots| == MAX_TIMERS
  {
    var called := ApplyAll(st, ops);
    if st.slots[k].toBeCalled.RunAndDelete? then Delete(called, k) else called
  }

  /** The second loop of `run`, from slot `k`; `acts[i]` is what the callback called in slot `i` does. */
  function CallFrom(st: State, k: nat, acts: seq<seq<Op>>): (r: Ran)
    requires |st.slots| == |acts| == MAX_TIMERS
    ensures |r.st.slots| == MAX_TIMERS
    decreases MAX_TIMERS - k
  {
    if k >= MAX_TIMERS then Ran(st, [])
    else if st.slots[k].toBeCalled.DontRun? then CallFrom(st, k + 1, acts)
    else
      var rest := CallFrom(AfterCall(st, k, acts[k]), k + 1, acts);
      Ran(rest.st, [st.slots[k].callback] + rest.calls)
  }

  function RunAll(st: State, now: nat, acts: seq<seq<Op>>): (r: Ran)
    requires |st.slots| == |acts| == MAX_TIMERS
    ensures |r.st.slots| == MAX_TIMERS
  {
    CallFrom(State(MarkAll(st.slots, now), st.numTimers), 0, acts)
  }

  // ----- The class -----------------------------------------------------------------------------------

  class M5Timer {
    const slots: array<Slot>
    var numTimers: int

    ghost predicate Valid()
      reads this
    {
      slots.Length == MAX_TIMERS
    }

    function Value(): State
      reads this, slots
    {
      State(slots[..], numTimers)
    }

    constructor (now: nat)
      ensures Valid() && fresh(slots)
      ensures numTimers == 0
      ensures forall i :: 0 <= i < MAX_TIMERS ==> Free(slots[i]) && slots[i].numRuns == 0 && !slots[i].enabled
    {
      slots := new Slot[MAX_TIMERS](_ => Slot(None, Word(now), 0, 0, 0, false, DontRun));
      numTimers := 0;
    }

    method FindFirstFreeSlot() returns (r: int)
      requires Valid()
      ensures r == FreeSlot(Value())
    {
      if numTimers >= MAX_TIMERS {
        return -1;
      }
      assert slots[0..] == slots[..];
      for i := 0 to MAX_TIMERS
        invariant FirstFree(slots[..]) == if FirstFree(slots[i..]) < 0 then -1 else FirstFree(slots[i..]) + i
      {
        assert slots[i..][1..] == slots[i + 1..];
        if slots[i].callback.None? {
          return i;
        }
      }
      return -1;
    }

    method SetTimer(now: nat, d: int, f: Option<nat>, n: int) returns (id: int)
      requires Valid()
      modifies this, slots
      ensures Valid() && Value() == Apply(old(Value()), Op.SetTimer(now, d, f, n))
      ensures id == if f.None? then -1 else FreeSlot(old(Value()))
    {
      var freeTimer := FindFirstFreeSlot();
      if freeTimer < 0 {
        return -1;
      }
      if f.None? {
        return -1;
      }
      var s := slots[freeTimer];
      slots[freeTimer] := s.(delay := d, callback := f, maxRuns := n, enabled := true, prevMillis := Word(now));
      numTimers := numTimers + 1;
      return freeTimer;
    }

    method DeleteTimer(id: nat)
      requires Valid()
      modifies this, slots
      ensures Valid() && Value() == Delete(old(Value()), id)
    {
      if id >= MAX_TIMERS {
        return;
      }
      if numTimers == 0 {
        return;
      }
      if slots[id].callback.Some? {
        var s := slots[id];
        slots[id] := s.(callback := None, enabled := false, toBeCalled := DontRun, delay := 0, numRuns := 0);
        numTimers := numTimers - 1;
      }
    }

    method RestartTimer(now: nat, id: nat)
      requires Valid()
      modifies slots
      ensures Value() == Apply(old(Value()), Op.RestartTimer(now, id))
    {
      if id >= MAX_TIMERS {
        return;
      }
      var s := slots[id];
      slots[id] := s.(prevMillis := Word(now));
    }

    method SetEnabled(id: nat, on: bool)
      requires Valid()
      modifies slots
      ensures Value() == Apply(old(Value()), if on then Op.Enable(id) else Op.Disable(id))
    {
      if id >= MAX_TIMERS {
        return;
      }
      var s := slots[id];
      slots[id] := s.(enabled := on);
    }

    method Toggle(id: nat)
      requires Valid()
      modifies slots
      ensures Value() == Apply(old(Value()), Op.Toggle(id))
    {
      if id >= MAX_TIMERS {
        return;
      }
      var s := slots[id];
      slots[id] := s.(enabled := !s.enabled);
    }

    /** What a callback does: calls back into the scheduler. */
    method Callback(ops: seq<Op>)
      requires Valid()
      modifies this, slots
      ensures Valid() && Value() == ApplyAll(old(Value()), ops)
      decreases |ops|
    {
      if ops == [] {
        return;
      }
      match ops[0] {
        case SetTimer(now, d, f, n) =>
          var _ := SetTimer(now, d, f, n);
        case DeleteTimer(id) => DeleteTimer(id);
        case RestartTimer(now, id) => RestartTimer(now, id);
        case Enable(id) => SetEnabled(id, true);
        case Disable(id) => SetEnabled(id, false);
        case Toggle(id) => Toggle(id);
      }
      assert Value() == Apply(old(Value()), ops[0]);
      Callback(ops[1..]);
    }

    /** The first loop of `run`. */
    method MarkDue(now: nat)
      requires Valid()
      modifies slots
      ensures slots[..] == MarkAll(old(slots[..]), now)
    {
      hide Mark;
      ghost var start := slots[..];
      for i := 0 to MAX_TIMERS
        invariant forall j :: 0 <= j < i ==> slots[j] == Mark(start[j], now)
        invariant forall j :: i <= j < MAX_TIMERS ==> slots[j] == start[j]
      {
        MarkOne(i, now);
      }
    }

    /** The body of the first loop of `run`. */
    method MarkOne(i: nat, now: nat)
      requires Valid() && i < MAX_TIMERS
      modifies slots
      ensures slots[..] == old(slots[..])[i := Mark(old(slots[i]), now)]
    {
      var s := slots[i].(toBeCalled := DontRun);
      if s.callback.Some? {
        if Word(Word(now) - s.prevMillis) >= Word(s.delay) {
          s := s.(prevMillis := Word(s.prevMillis + s.delay));
          if s.enabled {
            if s.maxRuns == RUN_FOREVER {
              s := s.(toBeCalled := RunOnly);
            } else if s.numRuns < s.maxRuns {
              s := s.(toBeCalled := RunOnly, numRuns := s.numRuns + 1);
              if s.numRuns >= s.maxRuns {
                s := s.(toBeCalled := RunAndDelete);
              }
            }
          }
        }
      }
      slots[i] := s;
    }

    /** The body of the second loop of `run`. */
    method CallOne(k: nat, acts: seq<seq<Op>>) returns (calls: seq<Option<nat>>)
      requires Valid() && |acts| == MAX_TIMERS && k < MAX_TIMERS
      modifies this, slots
      ensures Valid()
      ensures var was := old(slots[k]);
              if was.toBeCalled.DontRun? then calls == [] && Value() == old(Value())
              else calls == [was.callback] && Value() == AfterCall(old(Value()), k, acts[k])
    {
      hide Delete, ApplyAll;
      calls := [];
      var due := slots[k].toBeCalled;
      if due != DontRun {
        calls := [slots[k].callback];
        Callback(acts[k]);
        if due == RunAndDelete {
          DeleteTimer(k);
        }
      }
    }

    method Run(now: nat, acts: seq<seq<Op>>) returns (calls: seq<Option<nat>>)
      requires Valid() && |acts| == MAX_TIMERS
      modifies this, slots
      ensures Valid() && Ran(Value(), calls) == RunAll(old(Value()), now, acts)
    {
      hide MarkAll, AfterCall, CallFrom, ApplyAll, Delete;
      MarkDue(now);
      calls := [];
      ghost var all := CallFrom(Value(), 0, acts);
      for k := 0 to MAX_TIMERS
        invariant Valid()
        invariant all.st == CallFrom(Value(), k, acts).st
        invariant all.calls == calls + CallFrom(Value(), k, acts).calls
      {
        CallFromStep(Value(), k, acts);
        var more := CallOne(k, acts);
        Reassociate(calls, more, CallFrom(Value(), k + 1, acts).calls);
        calls := calls + more;
      }
      CallFromStep(Value(), MAX_TIMERS, acts);
    }
  }

  lemma CallFromStep(st: State, k: nat, acts: seq<seq<Op>>)
    requires |st.slots| == |acts| == MAX_TIMERS && k <= MAX_TIMERS
    ensures k == MAX_TIMERS ==> CallFrom(st, k, acts) == Ran(st, [])
    ensures k < MAX_TIMERS ==>
              var was := st.slots[k];
              var more := if was.toBeCalled.DontRun? then [] else [was.callback];
              var rest := CallFrom(if was.toBeCalled.DontRun? then st else AfterCall(st, k, acts[k]), k + 1, acts);
              CallFrom(st, k, acts) == Ran(rest.st, more + rest.calls)
  {
    hide AfterCall;
    if k < MAX_TIMERS && st.slots[k].toBeCalled.DontRun? {
      assert [] + CallFrom(st, k + 1, acts).calls == CallFrom(st, k + 1, acts).calls;
    }
  }
}
