/** The debounced buttons of Button.cpp and the button B dispatch of menu.cpp, one poll after another. */
module Button {
  import opened Common

  /** The time in milliseconds since the start, which the clock shows modulo 2^32, and whether the pin reads high. */
  datatype Poll = Poll(at: nat, pin: bool)

  datatype Event = LongPush | ShortPress

  const LONG_PUSH: int := 1000

  /** The fields that `read` keeps, without the fixed `_dbTime` and `_invert`. */
  datatype State = State(pressed: bool, lastPressed: bool, changed: bool, time: int, lastTime: int, lastChange: int)

  /** A button's settings: `_dbTime` and `_invert`. */
  datatype Setup = Setup(dbTime: int, invert: bool)

  function Level(b: Setup, p: Poll): bool
  {
    p.pin != b.invert
  }

  /** Whether `read` looks at the pin. */
  predicate Listens(b: Setup, s: State, p: Poll)
  {
    Word(Word(p.at) - s.lastChange) >= b.dbTime
  }

  function AfterRead(b: Setup, s: State, p: Poll): State
  {
    var changed := Listens(b, s, p) && Level(b, p) != s.pressed;
    State(if changed then Level(b, p) else s.pressed,
          if Listens(b, s, p) then s.pressed else s.lastPressed,
          changed, Word(p.at), s.time,
          if changed then Word(p.at) else s.lastChange)
  }

  predicate PressedFor(s: State, ms: int)
  {
    s.pressed && Word(s.time - s.lastChange) >= ms
  }

  predicate WasReleased(s: State)
  {
    !s.pressed && s.changed
  }

  // ----- The objects -----------------------------------------------------------------------------------

  class Button {
    const setup: Setup
    var pressed: bool
    var lastPressed: bool
    var changed: bool
    var time: int
    var lastTime: int
    var lastChange: int

    function Fields(): State
      reads this
    {
      State(pressed, lastPressed, changed, time, lastTime, lastChange)
    }

    constructor (setup: Setup, p: Poll)
      ensures this.setup == setup
      ensures var v, t := Level(setup, p), Word(p.at); Fields() == State(v, v, false, t, t, t)
    {
      this.setup := setup;
      var v := p.pin;
      if setup.invert {
        v := !v;
      }
      pressed := v;
      time := Word(p.at);
      lastPressed := v;
      changed := false;
      lastTime := Word(p.at);
      lastChange := Word(p.at);
    }

    method Read(p: Poll) returns (r: bool)
      modifies this
      ensures Fields() == AfterRead(setup, old(Fields()), p)
      ensures r == pressed
    {
      var ms := Word(p.at);
      var pinVal := p.pin;
      if setup.invert {
        pinVal := !pinVal;
      }
      if Word(ms - lastChange) < setup.dbTime {
        lastTime := time;
        time := ms;
        changed := false;
        return pressed;
      }
      lastTime := time;
      lastPressed := pressed;
      pressed := pinVal;
      time := ms;
      if pressed != lastPressed {
        lastChange := ms;
        changed := true;
      } else {
        changed := false;
      }
      return pressed;
    }
  }

  class Menu {
    const btnB: Button
    var longPush: bool

    constructor (btnB: Button)
      ensures this.btnB == btnB && !longPush
    {
      this.btnB := btnB;
      longPush := false;
    }

    /** The part of `updateMenu` that looks at button B. */
    method Update() returns (event: Option<Event>)
      modifies this
      ensures event == Dispatched(btnB.Fields(), old(longPush))
      ensures longPush == FlagAfter(btnB.Fields(), old(longPush))
    {
      event := None;
      if PressedFor(btnB.Fields(), LONG_PUSH) {
        if !longPush {
          event := Some(LongPush);
          longPush := true;
        }
      } else if WasReleased(btnB.Fields()) {
        if !longPush {
          event := Some(ShortPress);
        } else {
          longPush := false;
        }
      }
    }

    /** The poll loop of main.cpp: read the button, then update the menu. */
    method Loop(polls: seq<Poll>) returns (events: seq<Event>)
      requires this as object != btnB
      modifies this, btnB
      ensures btnB.Fields() == AfterReads(btnB.setup, old(btnB.Fields()), polls)
      ensures longPush == FlagAfterAll(btnB.setup, old(btnB.Fields()), old(longPush), polls)
      ensures events == Events(btnB.setup, old(btnB.Fields()), old(longPush), polls)
    {
      hide AfterRead, Dispatched, FlagAfter;
      ghost var b, s, flag := btnB.setup, btnB.Fields(), longPush;
      events := [];
      var i := 0;
      while i < |polls|
        invariant 0 <= i <= |polls|
        invariant AfterReads(b, s, polls) == AfterReads(b, btnB.Fields(), polls[i..])
        invariant FlagAfterAll(b, s, flag, polls) == FlagAfterAll(b, btnB.Fields(), longPush, polls[i..])
        invariant Events(b, s, flag, polls) == events + Events(b, btnB.Fields(), longPush, polls[i..])
      {
        assert polls[i..][0] == polls[i] && polls[i..][1..] == polls[i + 1..];
        var r := btnB.Read(polls[i]);
        var event := Update();
        events := events + Listed(event);
        i := i + 1;
      }
    }
  }

  // ----- Runs ------------------------------------------------------------------------------------------

  function Listed<T>(o: Option<T>): seq<T>
  {
    if o.None? then [] else [o.value]
  }

  function Dispatched(s: State, longPush: bool): Option<Event>
  {
    if longPush then None
    else if PressedFor(s, LONG_PUSH) then Some(LongPush)
    else if WasReleased(s) then Some(ShortPress)
    else None
  }

  function FlagAfter(s: State, longPush: bool): bool
  {
    PressedFor(s, LONG_PUSH) || (longPush && !WasReleased(s))
  }

  function AfterReads(b: Setup, s: State, polls: seq<Poll>): State
    decreases |polls|
  {
    if polls == [] then s else AfterReads(b, AfterRead(b, s, polls[0]), polls[1..])
  }

  function FlagAfterAll(b: Setup, s: State, longPush: bool, polls: seq<Poll>): bool
    decreases |polls|
  {
    if polls == [] then longPush
    else
      var s' := AfterRead(b, s, polls[0]);
      FlagAfterAll(b, s', FlagAfter(s', longPush), polls[1..])
  }

  /** What button B dispatches, poll after poll. */
  function Events(b: Setup, s: State, longPush: bool, polls: seq<Poll>): seq<Event>
    decreases |polls|
  {
    if polls == [] then []
    else
      var s' := AfterRead(b, s, polls[0]);
      Listed(Dispatched(s', longPush)) + Events(b, s', FlagAfter(s', longPush), polls[1..])
  }

  /** Time does not go backwards. */
  predicate Ordered(polls: seq<Poll>, since: nat)
  {
    forall i, j :: 0 <= i <= j < |polls| ==> since <= polls[i].at <= polls[j].at
  }

  // ----- Debouncing ------------------------------------------------------------------------------------

  /** The state after the first `k` polls. */
  function At(b: Setup, s: State, polls: seq<Poll>, k: nat): State
    requires k <= |polls|
  {
    AfterReads(b, s, polls[..k])
  }

  lemma AtNext(b: Setup, s: State, polls: seq<Poll>, k: nat)
    requires k < |polls|
    ensures At(b, s, polls, k + 1) == At(b, AfterRead(b, s, polls[0]), polls[1..], k)
  {
    assert polls[..k + 1][1..] == polls[1..][..k];
  }

  lemma {:induction false} AtStep(b: Setup, s: State, polls: seq<Poll>, k: nat)
    requires k < |polls|
    ensures At(b, s, polls, k + 1) == AfterRead(b, At(b, s, polls, k), polls[k])
    decreases k
  {
    hide AfterRead;
    AtNext(b, s, polls, k);
    if k > 0 {
      AtNext(b, s, polls, k - 1);
      AtStep(b, AfterRead(b, s, polls[0]), polls[1..], k - 1);
    } else {
      assert polls[..0] == [];
      assert polls[1..][..0] == [];
    }
  }

  lemma ElapsedAtLeast(at: nat, since: nat, d: int)
    requires since <= at && Word(Word(at) - Word(since)) >= d
    ensures at - since >= d
  {
    WordDifference(at, since);
  }

  /** With the last change at `since`, no further change comes less than `dbTime` later, however often the
      clock wraps in between. */
  lemma {:induction false} ChangesComeLater(b: Setup, s: State, polls: seq<Poll>, since: nat, j: nat)
    requires Ordered(polls, since) && s.lastChange == Word(since) && b.dbTime >= 0
    requires j < |polls| && At(b, s, polls, j + 1).changed
    ensures polls[j].at - since >= b.dbTime
    decreases j
  {
    var s' := AfterRead(b, s, polls[0]);
    AtNext(b, s, polls, j);
    if s'.changed {
      ElapsedAtLeast(polls[0].at, since, b.dbTime);
    }
    if j > 0 {
      ChangesComeLater(b, s', polls[1..], if s'.changed then polls[0].at else since, j - 1);
    } else {
      assert polls[1..][..0] == [];
    }
  }

  /** Any two state changes of a run are at least `dbTime` apart in true time. */
  lemma Debounced(b: Setup, s: State, polls: seq<Poll>, i: nat, j: nat)
    requires Ordered(polls, 0) && b.dbTime >= 0
    requires i < j < |polls| && At(b, s, polls, i + 1).changed && At(b, s, polls, j + 1).changed
    ensures polls[j].at - polls[i].at >= b.dbTime
  {
    hide AfterRead, AfterReads, Listens;
    var s', rest := At(b, s, polls, i + 1), polls[i + 1..];
    assert s'.lastChange == Word(polls[i].at) by {
      AtStep(b, s, polls, i);
      ChangeStamped(b, At(b, s, polls, i), polls[i]);
    }
    assert Ordered(rest, polls[i].at);
    assert polls[..j + 1] == polls[..i + 1] + rest[..j - i];
    ReadsAppend(b, s, polls[..i + 1], rest[..j - i]);
    ChangesComeLater(b, s', rest, polls[i].at, j - i - 1);
  }

  lemma ChangeStamped(b: Setup, s: State, p: Poll)
    ensures var s' := AfterRead(b, s, p);
      && (s'.changed <==> Listens(b, s, p) && Level(b, p) != s.pressed)
      && (s'.changed <==> s'.pressed != s.pressed)
      && s'.lastChange == if s'.changed then Word(p.at) else s.lastChange
  {
  }

  lemma {:induction false} ReadsAppend(b: Setup, s: State, x: seq<Poll>, y: seq<Poll>)
    ensures AfterReads(b, s, x + y) == AfterReads(b, AfterReads(b, s, x), y)
    decreases |x|
  {
    hide AfterRead;
    if x == [] {
      assert x + y == y;
    } else {
      assert (x + y)[1..] == x[1..] + y;
      ReadsAppend(b, AfterRead(b, s, x[0]), x[1..], y);
    }
  }

  /** A pin that keeps one level is followed as soon as one poll comes late enough, and for good. */
  lemma {:induction false} Settles(b: Setup, s: State, polls: seq<Poll>, since: nat, level: bool, j: nat)
    requires s.lastChange == Word(since) && j < |polls|
    requires forall k :: 0 <= k < |polls| ==> Level(b, polls[k]) == level
    requires Word(polls[j].at - since) >= b.dbTime
    ensures AfterReads(b, s, polls).pressed == level
    decreases |polls|
  {
    if s.pressed == level {
      StaysPut(b, s, polls, level);
    } else {
      WordDifference(polls[0].at, since);
      var s' := AfterRead(b, s, polls[0]);
      if s'.pressed == level {
        StaysPut(b, s', polls[1..], level);
      } else {
        Settles(b, s', polls[1..], since, level, j - 1);
      }
    }
  }

  lemma {:induction false} StaysPut(b: Setup, s: State, polls: seq<Poll>, level: bool)
    requires s.pressed == level
    requires forall k :: 0 <= k < |polls| ==> Level(b, polls[k]) == level
    ensures AfterReads(b, s, polls).pressed == level
    decreases |polls|
  {
    if polls == [] {
    } else {
      StaysPut(b, AfterRead(b, s, polls[0]), polls[1..], level);
    }
  }

  /** The true time of the last change accepted in a run, if the one before the run was at `since`. */
  function LastChangeAt(b: Setup, s: State, polls: seq<Poll>, since: nat): nat
    decreases |polls|
  {
    if polls == [] then since
    else
      var s' := AfterRead(b, s, polls[0]);
      LastChangeAt(b, s', polls[1..], if s'.changed then polls[0].at else since)
  }

  lemma {:induction false} LastChangeKept(b: Setup, s: State, polls: seq<Poll>, since: nat)
    requires s.lastChange == Word(since)
    ensures AfterReads(b, s, polls).lastChange == Word(LastChangeAt(b, s, polls, since))
    decreases |polls|
  {
    hide Listens, Word;
    if polls == [] {
    } else {
      var s' := AfterRead(b, s, polls[0]);
      LastChangeKept(b, s', polls[1..], if s'.changed then polls[0].at else since);
    }
  }

  /** Over any run, whatever the clock shows: poll `j` changes the state if and only if the pin differs from it
      and the true time since the last change of the run, modulo 2^32, is at least the debounce time. */
  lemma ChangesWhen(b: Setup, s: State, polls: seq<Poll>, since: nat, j: nat)
    requires s.lastChange == Word(since) && j < |polls|
    ensures At(b, s, polls, j + 1).pressed != At(b, s, polls, j).pressed <==>
              && Level(b, polls[j]) != At(b, s, polls, j).pressed
              && Word(polls[j].at - LastChangeAt(b, s, polls[..j], since)) >= b.dbTime
  {
    hide Word, AfterReads;
    AtStep(b, s, polls, j);
    LastChangeKept(b, s, polls[..j], since);
    WordDifference(polls[j].at, LastChangeAt(b, s, polls[..j], since));
  }

  // ----- Edges -----------------------------------------------------------------------------------------

  /** The accepted changes, `true` for a press and `false` for a release. */
  function Edges(b: Setup, s: State, polls: seq<Poll>): seq<bool>
    decreases |polls|
  {
    if polls == [] then []
    else
      var s' := AfterRead(b, s, polls[0]);
      (if s'.changed then [s'.pressed] else []) + Edges(b, s', polls[1..])
  }

  function Count(edges: seq<bool>, which: bool): nat
  {
    if edges == [] then 0 else (if edges[0] == which then 1 else 0) + Count(edges[1..], which)
  }

  /** Presses and releases alternate, and the last one is the state the button ends in. */
  lemma {:induction false} EdgesAlternate(b: Setup, s: State, polls: seq<Poll>)
    ensures var es := Edges(b, s, polls);
      && (es != [] ==> es[0] == !s.pressed)
      && (forall k :: 0 < k < |es| ==> es[k] == !es[k - 1])
      && AfterReads(b, s, polls).pressed == if es == [] then s.pressed else es[|es| - 1]
    decreases |polls|
  {
    hide Listens;
    if polls == [] {
    } else {
      EdgesAlternate(b, AfterRead(b, s, polls[0]), polls[1..]);
    }
  }

  // ----- One event for each press ----------------------------------------------------------------------

  /** The index of the first poll that sees a release, or the number of polls. */
  function FirstRelease(b: Setup, s: State, polls: seq<Poll>): (r: nat)
    ensures r <= |polls|
    decreases |polls|
  {
    if polls == [] then 0
    else
      var s' := AfterRead(b, s, polls[0]);
      if WasReleased(s') then 0 else 1 + FirstRelease(b, s', polls[1..])
  }

  /** Whether some poll finds the button held for a long push. */
  ghost predicate HeldLong(b: Setup, s: State, polls: seq<Poll>)
  {
    exists k :: 0 < k <= |polls| && PressedFor(At(b, s, polls, k), LONG_PUSH)
  }

  /** The presses of a run, one event each: long if the button was seen held long before its release. A press
      that is not over counts only if it was held long already. */
  ghost function PerPress(b: Setup, s: State, polls: seq<Poll>): seq<Event>
    decreases |polls|
  {
    var r := FirstRelease(b, s, polls);
    if r == |polls| then
      if HeldLong(b, s, polls) then [LongPush] else []
    else
      [if HeldLong(b, s, polls[..r]) then LongPush else ShortPress]
      + PerPress(b, At(b, s, polls, r + 1), polls[r + 1..])
  }

  lemma HeldLongNext(b: Setup, s: State, polls: seq<Poll>)
    requires polls != []
    ensures HeldLong(b, s, polls) <==>
      (PressedFor(AfterRead(b, s, polls[0]), LONG_PUSH) || HeldLong(b, AfterRead(b, s, polls[0]), polls[1..]))
  {
    hide AfterRead, AfterReads, PressedFor;
    var s' := AfterRead(b, s, polls[0]);
    forall k | 0 < k <= |polls| ensures At(b, s, polls, k) == At(b, s', polls[1..], k - 1) {
      AtNext(b, s, polls, k - 1);
    }
    assert At(b, s', polls[1..], 0) == s' by { NoReads(b, s', polls[1..]); }
    if PressedFor(s', LONG_PUSH) {
      assert PressedFor(At(b, s, polls, 1), LONG_PUSH);
    }
    if HeldLong(b, s', polls[1..]) {
      var k :| 0 < k <= |polls[1..]| && PressedFor(At(b, s', polls[1..], k), LONG_PUSH);
      assert PressedFor(At(b, s, polls, k + 1), LONG_PUSH);
    }
  }

  lemma NoReads(b: Setup, s: State, polls: seq<Poll>)
    ensures At(b, s, polls, 0) == s
  {
  }

  /** Up to the first release at most one long push is dispatched, by whether the button was held. */
  lemma {:induction false} UntilRelease(b: Setup, s: State, flag: bool, polls: seq<Poll>)
    requires FirstRelease(b, s, polls) == |polls|
    ensures Events(b, s, flag, polls) == if !flag && HeldLong(b, s, polls) then [LongPush] else []
    ensures FlagAfterAll(b, s, flag, polls) == (flag || HeldLong(b, s, polls))
    decreases |polls|
  {
    hide AfterRead, PressedFor, WasReleased, HeldLong, At;
    if polls == [] {
      assert !HeldLong(b, s, []) by { NotHeldYet(b, s); }
    } else {
      var s' := AfterRead(b, s, polls[0]);
      HeldLongNext(b, s, polls);
      UntilRelease(b, s', FlagAfter(s', flag), polls[1..]);
    }
  }

  lemma NotHeldYet(b: Setup, s: State)
    ensures !HeldLong(b, s, [])
  {
  }

  lemma {:induction false} EventsAppend(b: Setup, s: State, flag: bool, x: seq<Poll>, y: seq<Poll>)
    ensures Events(b, s, flag, x + y)
         == Events(b, s, flag, x) + Events(b, AfterReads(b, s, x), FlagAfterAll(b, s, flag, x), y)
    decreases |x|
  {
    hide AfterRead, Dispatched, FlagAfter, Listed;
    if x == [] {
      assert x + y == y;
    } else {
      assert (x + y)[1..] == x[1..] + y;
      var s' := AfterRead(b, s, x[0]);
      EventsAppend(b, s', FlagAfter(s', flag), x[1..], y);
    }
  }

  lemma {:induction false} FirstReleaseSplits(b: Setup, s: State, polls: seq<Poll>)
    ensures var r := FirstRelease(b, s, polls);
      && FirstRelease(b, s, polls[..r]) == r
      && (r < |polls| ==> WasReleased(AfterRead(b, AfterReads(b, s, polls[..r]), polls[r])))
    decreases |polls|
  {
    hide AfterRead, WasReleased;
    if polls == [] {
    } else {
      var s' := AfterRead(b, s, polls[0]);
      if !WasReleased(s') {
        var r := FirstRelease(b, s', polls[1..]);
        FirstReleaseSplits(b, s', polls[1..]);
        assert polls[..r + 1][1..] == polls[1..][..r];
      }
    }
  }

  /** Exactly one event for each press, long or short by how long it was held. */
  lemma {:induction false} OneEventPerPress(b: Setup, s: State, polls: seq<Poll>)
    ensures Events(b, s, false, polls) == PerPress(b, s, polls)
    decreases |polls|
  {
    hide AfterRead, AfterReads, PressedFor, HeldLong, FirstRelease, Events, FlagAfterAll, WasReleased;
    var r := FirstRelease(b, s, polls);
    FirstReleaseSplits(b, s, polls);
    UntilRelease(b, s, false, polls[..r]);
    assert polls[..|polls|] == polls;
    if r == |polls| {
    } else {
      var rest := polls[r + 1..];
      assert polls == polls[..r] + [polls[r]] + rest;
      EventsAppend(b, s, false, polls[..r] + [polls[r]], rest);
      EventsAppend(b, s, false, polls[..r], [polls[r]]);
      FlagAppend(b, s, false, polls[..r], [polls[r]]);
      AtStep(b, s, polls, r);
      assert polls[..r + 1] == polls[..r] + [polls[r]];
      AtRelease(b, At(b, s, polls, r), FlagAfterAll(b, s, false, polls[..r]), polls[r]);
      OneEventPerPress(b, At(b, s, polls, r + 1), rest);
    }
  }

  lemma AtRelease(b: Setup, s: State, flag: bool, p: Poll)
    requires WasReleased(AfterRead(b, s, p))
    ensures Events(b, s, flag, [p]) == if flag then [] else [ShortPress]
    ensures !FlagAfterAll(b, s, flag, [p])
  {
    hide AfterRead;
    assert [p][1..] == [];
  }

  lemma {:induction false} FlagAppend(b: Setup, s: State, flag: bool, x: seq<Poll>, y: seq<Poll>)
    ensures FlagAfterAll(b, s, flag, x + y)
         == FlagAfterAll(b, AfterReads(b, s, x), FlagAfterAll(b, s, flag, x), y)
    decreases |x|
  {
    hide AfterRead, FlagAfter;
    if x == [] {
      assert x + y == y;
    } else {
      assert (x + y)[1..] == x[1..] + y;
      var s' := AfterRead(b, s, x[0]);
      FlagAppend(b, s', FlagAfter(s', flag), x[1..], y);
    }
  }

  /** Over any run the events are the releases seen, and one more if a long push is still held. */
  lemma {:induction false} EventsAreReleases(b: Setup, s: State, flag: bool, polls: seq<Poll>)
    requires flag ==> s.pressed
    ensures |Events(b, s, flag, polls)| + (if flag then 1 else 0)
         == Count(Edges(b, s, polls), false) + (if FlagAfterAll(b, s, flag, polls) then 1 else 0)
    ensures FlagAfterAll(b, s, flag, polls) ==> AfterReads(b, s, polls).pressed
    decreases |polls|
  {
    hide Listens, Word;
    if polls == [] {
    } else {
      var s' := AfterRead(b, s, polls[0]);
      var es, rest := Edges(b, s, polls), Edges(b, s', polls[1..]);
      assert s'.changed ==> es[0] == s'.pressed && es[1..] == rest;
      assert !s'.changed ==> es == rest;
      EventsAreReleases(b, s', FlagAfter(s', flag), polls[1..]);
    }
  }

  /** While nothing changes, how long a button counts as held is the true time since the change, modulo 2^32. */
  lemma {:induction false} HoldMeasured(b: Setup, s: State, polls: seq<Poll>, since: nat)
    requires polls != [] && s.lastChange == Word(since) && Edges(b, s, polls) == []
    ensures PressedFor(AfterReads(b, s, polls), LONG_PUSH) <==>
      (s.pressed && Word(polls[|polls| - 1].at - since) >= LONG_PUSH)
    decreases |polls|
  {
    hide Word, Listens;
    var s' := AfterRead(b, s, polls[0]);
    if |polls| == 1 {
      assert polls[1..] == [];
      WordDifference(polls[0].at, since);
    } else {
      HoldMeasured(b, s', polls[1..], since);
    }
  }

  // ----- On the pin and in milliseconds --------------------------------------------------------------------

  /** With `invert`, as the buttons of the M5Stack are wired, a low pin is a press; without it a high one is. */
  lemma PressedIs(b: Setup, s: State, p: Poll)
    requires s.lastChange == Word(p.at - b.dbTime) && 0 <= b.dbTime < 0x1_0000_0000 <= p.at
    ensures b.invert ==> AfterRead(b, s, p).pressed == !p.pin
    ensures !b.invert ==> AfterRead(b, s, p).pressed == p.pin
  {
    WordDifference(p.at, p.at - b.dbTime);
  }

  /** A press of button B, inverted and with 5 ms of debouncing: polled pressed at `t`, it is a long push when next
      polled 1000 ms later or more, within the clock's range, and a short one when released before. */
  lemma OnePress(s: State, t: nat, held: nat, up: nat, since: nat)
    requires !s.pressed && s.lastChange == Word(since) && t - 0x1_0000_0000 < since <= t - 5
    requires t <= held <= up && up - t < 0x1_0000_0000 && up - t >= 5
    ensures var b := Setup(5, true);
      Events(b, s, false, [Poll(t, false), Poll(held, false), Poll(up, true)]) ==
        if held - t >= 1000 then [LongPush] else [ShortPress]
  {
    hide Word;
    var b := Setup(5, true);
    var p, q, r := Poll(t, false), Poll(held, false), Poll(up, true);
    WordDifference(t, since);
    WordDifference(t, t);
    WordDifference(held, t);
    WordDifference(up, t);
    WordSmall(t - since);
    WordSmall(0);
    WordSmall(held - t);
    WordSmall(up - t);
    assert [p, q, r][1..] == [q, r] && [q, r][1..] == [r] && [r][1..] == [];
    var s1 := AfterRead(b, s, p);
    var s2 := AfterRead(b, s1, q);
    var s3 := AfterRead(b, s2, r);
    assert s1.pressed && s1.lastChange == Word(t) && !PressedFor(s1, 1000);
    assert s2.pressed && s2.lastChange == Word(t) && !WasReleased(s2);
    assert !s3.pressed && WasReleased(s3);
    assert Events(b, s2, FlagAfter(s2, false), [r]) == Listed(Dispatched(s3, FlagAfter(s2, false))) + [];
  }

  lemma WordSmall(n: nat)
    requires n < 0x1_0000_0000
    ensures Word(n) == n
  {
  }

  /** The time fields hold the last two polls, and the state before a change is the opposite of the one after. */
  lemma LastTwoPolls(b: Setup, s: State, polls: seq<Poll>, p: Poll, q: Poll)
    ensures var r := AfterReads(b, s, polls + [p, q]);
      && r.time == Word(q.at) && r.lastTime == Word(p.at) && (r.changed ==> r.lastPressed == !r.pressed)
  {
    hide AfterReads;
    ReadsAppend(b, s, polls, [p, q]);
    TwoReads(b, AfterReads(b, s, polls), p, q);
  }

  lemma TwoReads(b: Setup, s: State, p: Poll, q: Poll)
    ensures AfterReads(b, s, [p, q]) == AfterRead(b, AfterRead(b, s, p), q)
  {
    hide AfterRead;
    var s1 := AfterRead(b, s, p);
    assert [p, q][1..] == [q] && [q][1..] == [];
    assert AfterReads(b, s, [p, q]) == AfterReads(b, s1, [q]) == AfterReads(b, AfterRead(b, s1, q), []);
  }
}
