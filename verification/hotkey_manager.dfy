// The key simulator and the hotkey listener of artalekey/core/hotkey_manager.py.
//
// The simulator is a thread that holds Space and taps Left and Right until it
// is stopped; its keyboard effects are modelled as a trace of actions and the
// keyboard state they leave. The thread is modelled by its position
// (`Phase`): external calls (`start`, `stop`, `set_interval`) interleave with
// the thread only where the thread does not hold the simulator's lock. The
// loop body holds the lock for a whole cycle, sleeps included, so a `stop`
// takes effect between cycles. Time is an integer number of milliseconds.

module HotkeyManager {
  import opened Wrappers

  // ---------------------------------------------------------------------
  // Keyboard actions

  /** The keys the simulator drives. */
  datatype SimKey = Space | Left | Right

  /** One effect of the simulator on the keyboard or the clock. */
  datatype KeyAction = Press(key: SimKey) | Release(key: SimKey) | Sleep(ms: int)

  /** The keys held down after one action. */
  function Step1(held: set<SimKey>, a: KeyAction): (r: set<SimKey>)
    ensures a.Press? ==> r == held + {a.key}
    ensures a.Release? ==> r == held - {a.key}
    ensures a.Sleep? ==> r == held
  {
    match a
    case Press(k) => held + {k}
    case Release(k) => held - {k}
    case Sleep(_) => held
  }

  /** The keys held down after a trace of actions. */
  function Perform(held: set<SimKey>, acts: seq<KeyAction>): set<SimKey>
    decreases |acts|
  {
    if |acts| == 0 then held else Perform(Step1(held, acts[0]), acts[1..])
  }

  lemma {:induction false} PerformConcat(held: set<SimKey>, a: seq<KeyAction>, b: seq<KeyAction>)
    ensures Perform(held, a + b) == Perform(Perform(held, a), b)
    decreases |a|
  {
    if |a| == 0 {
      assert a + b == b;
    } else {
      assert (a + b)[1..] == a[1..] + b;
      PerformConcat(Step1(held, a[0]), a[1..], b);
    }
  }

  /** No key is pressed while it is already held: nothing is pressed twice. */
  predicate PressesFresh(held: set<SimKey>, acts: seq<KeyAction>)
    decreases |acts|
  {
    |acts| == 0 ||
    ((acts[0].Press? ==> acts[0].key !in held) && PressesFresh(Step1(held, acts[0]), acts[1..]))
  }

  lemma {:induction false} PressesFreshConcat(held: set<SimKey>, a: seq<KeyAction>, b: seq<KeyAction>)
    requires PressesFresh(held, a) && PressesFresh(Perform(held, a), b)
    ensures PressesFresh(held, a + b)
    decreases |a|
  {
    if |a| == 0 {
      assert a + b == b;
    } else {
      assert (a + b)[1..] == a[1..] + b;
      PressesFreshConcat(Step1(held, a[0]), a[1..], b);
    }
  }

  /** The trace presses nothing. */
  predicate NoPress(acts: seq<KeyAction>) {
    forall i :: 0 <= i < |acts| ==> !acts[i].Press?
  }

  /** `stop`'s releases: Space, Left, Right. */
  const ReleaseAll: seq<KeyAction> := [Release(Space), Release(Left), Release(Right)]

  lemma ReleaseAllClears(held: set<SimKey>)
    ensures Perform(held, ReleaseAll) == {}
  {
    assert Perform(held, ReleaseAll) == held - {Space} - {Left} - {Right};
    forall k | k in held ensures k == Space || k == Left || k == Right {
    }
  }

  /** One pass of the loop body with interval `iv`: tap Left, tap Right,
      sleep once more. */
  function Cycle(iv: int): (r: seq<KeyAction>)
    ensures |r| == 7
  {
    [Press(Left), Sleep(iv), Release(Left), Press(Right), Sleep(iv), Release(Right), Sleep(iv)]
  }

  /** Within a cycle Space stays held, Left and Right are each pressed
      while up and released again: the cycle ends where it began. */
  lemma CycleKeepsSpaceHeld(iv: int)
    ensures forall k :: 0 <= k <= 7 ==> Space in Perform({Space}, Cycle(iv)[..k])
    ensures Perform({Space}, Cycle(iv)) == {Space}
    ensures PressesFresh({Space}, Cycle(iv))
  {
    var c := Cycle(iv);
    forall k | 0 <= k <= 7 ensures Space in Perform({Space}, c[..k]) {
      PerformPrefix(iv, k);
    }
    PerformPrefix(iv, 7);
    assert c[..7] == c;
    CyclePressesFresh(iv);
  }

  /** The keys held after the first `k` actions of a cycle. */
  function CycleState(k: int): set<SimKey>
    requires 0 <= k <= 7
  {
    [{Space}, {Space, Left}, {Space, Left}, {Space}, {Space, Right}, {Space, Right}, {Space}, {Space}][k]
  }

  lemma {:induction false} PerformPrefix(iv: int, k: int)
    requires 0 <= k <= 7
    ensures Perform({Space}, Cycle(iv)[..k]) == CycleState(k)
    decreases k
  {
    var c := Cycle(iv);
    if k == 0 {
      assert c[..0] == [];
    } else {
      PerformPrefix(iv, k - 1);
      assert c[..k] == c[..k - 1] + [c[k - 1]];
      PerformConcat({Space}, c[..k - 1], [c[k - 1]]);
      assert Perform(CycleState(k - 1), [c[k - 1]]) == Step1(CycleState(k - 1), c[k - 1]);
    }
  }

  lemma {:induction false} CyclePressesFreshFrom(iv: int, k: int)
    requires 0 <= k <= 7
    ensures PressesFresh(CycleState(k), Cycle(iv)[k..])
    decreases 7 - k
  {
    var c := Cycle(iv);
    if k < 7 {
      CyclePressesFreshFrom(iv, k + 1);
      assert c[k..][1..] == c[k + 1..];
      assert Step1(CycleState(k), c[k]) == CycleState(k + 1);
    }
  }

  lemma CyclePressesFresh(iv: int)
    ensures PressesFresh({Space}, Cycle(iv))
  {
    CyclePressesFreshFrom(iv, 0);
    assert Cycle(iv)[0..] == Cycle(iv);
  }

  /** The keys touched in a cycle, in order: Left down, Left up, Right
      down, Right up; and the cycle sleeps three intervals. */
  lemma CycleOrder(iv: int)
    ensures Keys(Cycle(iv)) == [Press(Left), Release(Left), Press(Right), Release(Right)]
    ensures SleepTotal(Cycle(iv)) == 3 * iv
  {
    var c := Cycle(iv);
    assert c[6..][1..] == [];
    assert c[5..][1..] == c[6..];
    assert c[4..][1..] == c[5..];
    assert c[3..][1..] == c[4..];
    assert c[2..][1..] == c[3..];
    assert c[1..][1..] == c[2..];
    assert Keys(c[6..]) == [] && SleepTotal(c[6..]) == iv;
    assert Keys(c[5..]) == [Release(Right)] && SleepTotal(c[5..]) == iv;
    assert Keys(c[4..]) == [Release(Right)] && SleepTotal(c[4..]) == 2 * iv;
    assert Keys(c[3..]) == [Press(Right), Release(Right)] && SleepTotal(c[3..]) == 2 * iv;
    assert Keys(c[2..]) == [Release(Left), Press(Right), Release(Right)] && SleepTotal(c[2..]) == 2 * iv;
    assert Keys(c[1..]) == [Release(Left), Press(Right), Release(Right)] && SleepTotal(c[1..]) == 3 * iv;
  }

  /** The key actions of a trace, sleeps dropped. */
  function Keys(acts: seq<KeyAction>): (r: seq<KeyAction>)
    ensures |r| <= |acts|
    ensures forall i :: 0 <= i < |r| ==> !r[i].Sleep?
  {
    if |acts| == 0 then []
    else if acts[0].Sleep? then Keys(acts[1..])
    else [acts[0]] + Keys(acts[1..])
  }

  /** The time a trace spends asleep. */
  function SleepTotal(acts: seq<KeyAction>): int {
    if |acts| == 0 then 0
    else (if acts[0].Sleep? then acts[0].ms else 0) + SleepTotal(acts[1..])
  }

  // ---------------------------------------------------------------------
  // The simulator

  /** Where the simulator thread is: not started (or finished), started by
      `QThread.start` but not yet in `run`'s prologue, or in the loop. */
  datatype Phase = Idle | Launched | Looping

  /** The simulator's fields and the keyboard state its actions leave. */
  datatype Simulator = Simulator(running: bool, intervalMs: int, phase: Phase, held: set<SimKey>)

  /** A fresh simulator: not running, 40 ms interval. */
  const InitialSimulator := Simulator(false, 40, Idle, {})

  /** The simulator invariant: Space is held exactly while it runs, and it
      runs only inside the loop. */
  predicate SimInv(s: Simulator) {
    s.held == (if s.running then {Space} else {}) && (s.running ==> s.phase == Looping)
  }

  /** `set_interval`: stored as given, with no bound. */
  function SetInterval(s: Simulator, ms: int): (r: Simulator)
    ensures r.intervalMs == ms
    ensures r.(intervalMs := s.intervalMs) == s
  {
    s.(intervalMs := ms)
  }

  /** `QThread.start`: launches the thread unless it is already alive. */
  function Start(s: Simulator): (r: Simulator)
    ensures s.phase == Idle ==> r.phase == Launched
    ensures s.phase != Idle ==> r == s
    ensures r.running == s.running && r.held == s.held && r.intervalMs == s.intervalMs
  {
    if s.phase == Idle then s.(phase := Launched) else s
  }

  /** `stop` as written: when running, clear the flag and release all three
      keys; otherwise nothing. A thread that is launched but has not yet
      set the flag is not affected. */
  function StopAsWritten(s: Simulator): (r: (Simulator, seq<KeyAction>))
    ensures s.running ==> r.1 == ReleaseAll && !r.0.running
    ensures !s.running ==> r == (s, [])
    ensures r.0.held == Perform(s.held, r.1)
    ensures r.0.phase == s.phase && r.0.intervalMs == s.intervalMs
  {
    if s.running then
      ReleaseAllClears(s.held);
      (s.(running := false, held := {}), ReleaseAll)
    else (s, [])
  }

  /** `stop` as evidently intended: as written, and a thread launched but
      not yet in its loop is cancelled before it presses anything. */
  function Stop(s: Simulator): (r: (Simulator, seq<KeyAction>))
    ensures s.running ==> r.1 == ReleaseAll
    ensures !r.0.running && r.0.phase != Launched && r.0.held == Perform(s.held, r.1)
    ensures !s.running ==> r.1 == []
    ensures SimInv(s) ==> SimInv(r.0) && r.0.held == {}
  {
    var (t, acts) := StopAsWritten(s);
    (if t.phase == Launched then t.(phase := Idle) else t, acts)
  }

  /** Which `stop` a run uses: the source's, or the corrected one. */
  datatype StopRule = AsWritten | Intended

  /** `stop` under a rule. Either rule releases every key of a running
      simulator, keeps the invariant and leaves it not running; only the
      intended one also cancels a launched thread. */
  function DoStop(s: Simulator, rule: StopRule): (r: (Simulator, seq<KeyAction>))
    ensures r.0.held == Perform(s.held, r.1)
    ensures s.running ==> r.1 == ReleaseAll
    ensures !s.running ==> r.1 == []
    ensures !r.0.running
    ensures SimInv(s) ==> SimInv(r.0) && r.0.held == {}
    ensures rule == Intended || s.phase != Launched ==> r.0.phase != Launched
    ensures rule == AsWritten && s.phase == Launched && !s.running ==> r.0 == s
  {
    match rule
    case AsWritten => StopAsWritten(s)
    case Intended => Stop(s)
  }

  /** Where an iteration of the loop is cut short by an exception: the
      first sleep raises for a negative interval, and `fault` is the
      position at which the keyboard controller raised, if it did. */
  function AbortAt(iv: int, fault: Option<nat>): (r: Option<nat>)
    ensures r.Some? ==> r.value < 7
    ensures iv < 0 ==> r.Some? && r.value <= 1
    ensures r.None? <==> iv >= 0 && (fault.None? || fault.value >= 7)
  {
    var f := if fault.Some? && fault.value < 7 then fault else None;
    if iv < 0 then Some(if f.Some? && f.value < 1 then f.value else 1)
    else f
  }

  /** One uninterrupted step of the simulator thread: `run`'s prologue, or
      one pass of its loop, each with the `finally: stop()` that follows
      when the thread leaves `run`. In the prologue the only controller
      call is the press of Space, so a fault at position 0 there is that
      press raising: the flag is already set, and `stop` releases all. */
  function ThreadStep(s: Simulator, fault: Option<nat>): (r: (Simulator, seq<KeyAction>))
    ensures r.0.intervalMs == s.intervalMs
    ensures r.0.held == Perform(s.held, r.1)
    ensures s.phase == Idle ==> r == (s, [])
    ensures s.phase == Launched && !s.running && fault != Some(0) ==>
              r.1 == [Press(Space)] && r.0.running && r.0.phase == Looping
    ensures s.phase == Launched && !s.running && fault == Some(0) ==>
              r.1 == ReleaseAll && !r.0.running && r.0.phase == Idle && r.0.held == {}
    ensures s.phase == Launched && s.running ==>
              r.1 == ReleaseAll && !r.0.running && r.0.phase == Idle
    ensures s.phase == Looping && s.running && AbortAt(s.intervalMs, fault).None? ==>
              r.1 == Cycle(s.intervalMs) && r.0.running && r.0.phase == Looping
    ensures s.phase == Looping && s.running && AbortAt(s.intervalMs, fault).Some? ==>
              r.1 == Cycle(s.intervalMs)[..AbortAt(s.intervalMs, fault).value] + ReleaseAll
              && !r.0.running && r.0.phase == Idle
    ensures s.phase == Looping && !s.running ==> r == (s.(phase := Idle), [])
  {
    match s.phase
    case Idle => (s, [])
    case Launched =>
      if s.running then
        // Early return; the `finally` clause still runs `stop`.
        var (t, acts) := StopAsWritten(s);
        (t.(phase := Idle), acts)
      else if fault == Some(0) then
        // The press raised after the flag was set; `finally` stops.
        ReleaseAllClears(s.held);
        (s.(running := false, phase := Idle, held := {}), ReleaseAll)
      else
        assert Perform(s.held, [Press(Space)]) == s.held + {Space};
        (s.(running := true, phase := Looping, held := s.held + {Space}), [Press(Space)])
    case Looping =>
      if !s.running then (s.(phase := Idle), [])
      else
        var c := Cycle(s.intervalMs);
        match AbortAt(s.intervalMs, fault)
        case None =>
          var held := Perform(s.held, c);
          (s.(held := held), c)
        case Some(k) =>
          var acts := c[..k] + ReleaseAll;
          PerformConcat(s.held, c[..k], ReleaseAll);
          ReleaseAllClears(Perform(s.held, c[..k]));
          (s.(running := false, phase := Idle, held := {}), acts)
  }

  /** Every thread step from a state satisfying the invariant keeps it, and
      presses only keys that are up. */
  lemma ThreadStepKeepsInv(s: Simulator, fault: Option<nat>)
    requires SimInv(s)
    ensures SimInv(ThreadStep(s, fault).0)
    ensures PressesFresh(s.held, ThreadStep(s, fault).1)
  {
    if s.phase == Looping && s.running {
      CycleKeepsSpaceHeld(s.intervalMs);
      var c := Cycle(s.intervalMs);
      match AbortAt(s.intervalMs, fault)
      case None =>
      case Some(k) =>
        PrefixPressesFresh({Space}, c, k);
        PressesFreshConcat(s.held, c[..k], ReleaseAll);
    }
  }

  lemma {:induction false} PrefixPressesFresh(held: set<SimKey>, acts: seq<KeyAction>, k: int)
    requires PressesFresh(held, acts) && 0 <= k <= |acts|
    ensures PressesFresh(held, acts[..k])
    decreases k
  {
    if k > 0 {
      assert acts[..k][1..] == acts[1..][..k - 1];
      PrefixPressesFresh(Step1(held, acts[0]), acts[1..], k - 1);
    }
  }

  /** The calls that reach the simulator and the thread's own steps. */
  datatype SimCall = CallStart | CallStop | CallSetInterval(ms: int) | ThreadRuns(fault: Option<nat>)

  /** One call, with `stop` under the given rule. */
  function SimApply(s: Simulator, c: SimCall, rule: StopRule): (r: (Simulator, seq<KeyAction>))
    ensures r.0.held == Perform(s.held, r.1)
  {
    match c
    case CallStart => (Start(s), [])
    case CallStop => DoStop(s, rule)
    case CallSetInterval(ms) => (SetInterval(s, ms), [])
    case ThreadRuns(fault) => ThreadStep(s, fault)
  }

  lemma SimApplyKeepsInv(s: Simulator, c: SimCall, rule: StopRule)
    requires SimInv(s)
    ensures SimInv(SimApply(s, c, rule).0)
    ensures PressesFresh(s.held, SimApply(s, c, rule).1)
  {
    if c.ThreadRuns? {
      ThreadStepKeepsInv(s, c.fault);
    }
  }

  /** A sequence of calls, with the actions they produce. */
  function SimRun(s: Simulator, calls: seq<SimCall>, rule: StopRule): (r: (Simulator, seq<KeyAction>))
    ensures r.0.held == Perform(s.held, r.1)
    decreases |calls|
  {
    if |calls| == 0 then (s, [])
    else
      var (s1, a1) := SimApply(s, calls[0], rule);
      var (s2, a2) := SimRun(s1, calls[1..], rule);
      PerformConcat(s.held, a1, a2);
      (s2, a1 + a2)
  }

  /** Over any interleaving of calls and thread steps, faults included,
      the invariant holds and no key is pressed twice: Space is never
      pressed again while held. This holds for the source's `stop` and for
      the corrected one alike. */
  lemma {:induction false} SimRunKeepsInv(s: Simulator, calls: seq<SimCall>, rule: StopRule)
    requires SimInv(s)
    ensures SimInv(SimRun(s, calls, rule).0)
    ensures PressesFresh(s.held, SimRun(s, calls, rule).1)
    decreases |calls|
  {
    if |calls| > 0 {
      var (s1, a1) := SimApply(s, calls[0], rule);
      SimApplyKeepsInv(s, calls[0], rule);
      SimRunKeepsInv(s1, calls[1..], rule);
      PressesFreshConcat(s.held, a1, SimRun(s1, calls[1..], rule).1);
    }
  }

  /** Once `stop` has been called, with no `start` after it, the simulator
      presses nothing and every key is up, whatever the thread does. With
      the source's `stop` this needs the thread not to be launched at the
      moment of the call; the corrected `stop` needs nothing. */
  lemma {:induction false} QuietAfterStop(s: Simulator, calls: seq<SimCall>, rule: StopRule)
    requires SimInv(s)
    requires rule == Intended || s.phase != Launched
    requires forall i :: 0 <= i < |calls| ==> calls[i] != CallStart
    ensures NoPress(SimRun(DoStop(s, rule).0, calls, rule).1)
    ensures !SimRun(DoStop(s, rule).0, calls, rule).0.running
    ensures SimRun(DoStop(s, rule).0, calls, rule).0.held == {}
  {
    QuietRun(DoStop(s, rule).0, calls, rule);
  }

  /** Stopped and not about to start. */
  predicate Stopped(s: Simulator) {
    !s.running && s.phase != Launched && s.held == {}
  }

  lemma {:induction false} QuietRun(s: Simulator, calls: seq<SimCall>, rule: StopRule)
    requires Stopped(s)
    requires forall i :: 0 <= i < |calls| ==> calls[i] != CallStart
    ensures Stopped(SimRun(s, calls, rule).0) && NoPress(SimRun(s, calls, rule).1)
    decreases |calls|
  {
    if |calls| > 0 {
      var (s1, a1) := SimApply(s, calls[0], rule);
      assert a1 == [] && Stopped(s1);
      QuietRun(s1, calls[1..], rule);
      assert SimRun(s, calls, rule).1 == a1 + SimRun(s1, calls[1..], rule).1;
    }
  }

  /** A `stop` that arrives after `QThread.start` but before `run` has set
      the flag is lost with `stop` as written: the thread then presses Space
      and runs. The intended `stop` cancels it. */
  lemma LostStopAsWritten()
    ensures var stopped := StopAsWritten(Start(InitialSimulator));
            var ran := ThreadStep(stopped.0, None);
            stopped.1 == [] && ran.1 == [Press(Space)] && ran.0.running && ran.0.held == {Space}
    ensures var ran := ThreadStep(Stop(Start(InitialSimulator)).0, None);
            ran.1 == [] && !ran.0.running && ran.0.held == {}
  {
  }

  // ---------------------------------------------------------------------
  // The listener

  /** What pynput reports: a key with a character (or none), the Up arrow,
      or another special key. */
  datatype Key = KeyCode(ch: Option<char>) | UpArrow | OtherSpecial

  /** The trigger key is a lower-case `w`. */
  const TriggerChar := 'w'

  /** The two keys the listener watches. */
  predicate Monitored(k: Key) {
    k == KeyCode(Some(TriggerChar)) || k == UpArrow
  }

  /** The listener's fields; `keyPressTime` 0 means unset. */
  datatype Listener = Listener(wPressed: bool, upPressed: bool, keyPressTime: int, holdTimeMs: int)

  /** A fresh listener: nothing pressed, 500 ms hold time. */
  const InitialListener := Listener(false, false, 0, 500)

  /** Whether the listener marks a monitored key pressed. */
  function IsPressed(l: Listener, k: Key): bool
    requires Monitored(k)
  {
    if k == UpArrow then l.upPressed else l.wPressed
  }

  /** `set_hold_time`: stored as given, with no bound. */
  function SetHoldTime(l: Listener, ms: int): (r: Listener)
    ensures r.holdTimeMs == ms
    ensures r.(holdTimeMs := l.holdTimeMs) == l
  {
    l.(holdTimeMs := ms)
  }

  /** `on_press`: a monitored key that is up is marked down, and the press
      time is recorded if none is; everything else is ignored. */
  function OnPress(l: Listener, k: Key, now: int): (r: Listener)
    ensures !Monitored(k) ==> r == l
    ensures Monitored(k) && IsPressed(l, k) ==> r == l
    ensures Monitored(k) ==> IsPressed(r, k)
    ensures Monitored(k) && !IsPressed(l, k) ==>
              r.keyPressTime == (if l.keyPressTime == 0 then now else l.keyPressTime)
    ensures r.holdTimeMs == l.holdTimeMs
    ensures k != UpArrow ==> r.upPressed == l.upPressed
    ensures k != KeyCode(Some(TriggerChar)) ==> r.wPressed == l.wPressed
  {
    var time := if l.keyPressTime == 0 then now else l.keyPressTime;
    match k
    case KeyCode(ch) =>
      if ch == Some(TriggerChar) && !l.wPressed then l.(wPressed := true, keyPressTime := time)
      else l
    case UpArrow =>
      if !l.upPressed then l.(upPressed := true, keyPressTime := time) else l
    case OtherSpecial => l
  }

  /** `on_release`: a monitored key is marked up, the press time cleared
      and a stop of the simulator requested (the second component). */
  function OnRelease(l: Listener, k: Key): (r: (Listener, bool))
    ensures !Monitored(k) ==> r == (l, false)
    ensures Monitored(k) ==> r.1 && !IsPressed(r.0, k) && r.0.keyPressTime == 0
    ensures r.0.holdTimeMs == l.holdTimeMs
    ensures k != UpArrow ==> r.0.upPressed == l.upPressed
    ensures k != KeyCode(Some(TriggerChar)) ==> r.0.wPressed == l.wPressed
  {
    match k
    case KeyCode(ch) =>
      if ch == Some(TriggerChar) then (l.(wPressed := false, keyPressTime := 0), true)
      else (l, false)
    case UpArrow => (l.(upPressed := false, keyPressTime := 0), true)
    case OtherSpecial => (l, false)
  }

  /** The check of one polling pass: should the simulator be started? */
  predicate PollStarts(l: Listener, simRunning: bool, globalChecked: bool, now: int) {
    l.wPressed && l.upPressed && !simRunning && now - l.keyPressTime >= l.holdTimeMs && globalChecked
  }

  /** The hold is timed from the first of the two keys pressed: with `w`
      down at `t` and Up at any later time, the simulator is due at
      `t + hold`, not `hold` after Up. */
  lemma HoldTimedFromFirstPress(t: int, later: int, hold: int)
    requires t != 0 && t <= later && hold >= 0
    ensures var l := OnPress(OnPress(InitialListener.(holdTimeMs := hold), KeyCode(Some('w')), t), UpArrow, later);
            l.keyPressTime == t && PollStarts(l, false, true, t + hold)
            && !PollStarts(l, false, true, t + hold - 1)
  {
  }

  /** A second press of a key already down changes nothing, so a key held
      with auto-repeat does not restart the hold. */
  lemma RepeatPressKeepsTime(l: Listener, k: Key, now: int, later: int)
    requires Monitored(k)
    ensures OnPress(OnPress(l, k, now), k, later) == OnPress(l, k, now)
  {
  }

  /** The press time is the time of the first monitored press since the
      last monitored release (or 0 if there has been none). */
  lemma PressTimeIsFirstPress(l: Listener, presses: seq<(Key, int)>)
    requires l.keyPressTime != 0
    ensures PressAll(l, presses).keyPressTime == l.keyPressTime
  {
    PressAllKeepsTime(l, presses);
  }

  function PressAll(l: Listener, presses: seq<(Key, int)>): Listener
    decreases |presses|
  {
    if |presses| == 0 then l else PressAll(OnPress(l, presses[0].0, presses[0].1), presses[1..])
  }

  lemma {:induction false} PressAllKeepsTime(l: Listener, presses: seq<(Key, int)>)
    requires l.keyPressTime != 0
    ensures PressAll(l, presses).keyPressTime == l.keyPressTime
    decreases |presses|
  {
    if |presses| > 0 {
      PressAllKeepsTime(OnPress(l, presses[0].0, presses[0].1), presses[1..]);
    }
  }

  // ---------------------------------------------------------------------
  // Listener and simulator together

  /** What happens to the pair: a key goes down or up, the listener polls,
      or the simulator thread runs a step. */
  datatype Event =
    | KeyDown(key: Key, now: int)
    | KeyUp(key: Key)
    | PollTick(now: int, globalChecked: bool)
    | SimulatorRuns(fault: Option<nat>)
    | IntervalSet(ms: int)

  datatype System = System(listener: Listener, sim: Simulator)

  /** One event: a release of a monitored key calls `stop` (under the given
      rule; `AsWritten` is the program), a successful poll calls `start`. */
  function SysStep(sys: System, e: Event, rule: StopRule): (r: (System, seq<KeyAction>))
    ensures r.0.sim.held == Perform(sys.sim.held, r.1)
    ensures e.KeyDown? ==> r.1 == [] && r.0.sim == sys.sim
    ensures e.KeyUp? && !Monitored(e.key) ==> r == (sys, [])
    ensures e.KeyUp? && Monitored(e.key) ==>
              !r.0.sim.running && NoPress(r.1) && !IsPressed(r.0.listener, e.key)
    ensures e.KeyUp? && Monitored(e.key) && SimInv(sys.sim) ==> r.0.sim.held == {}
    ensures e.KeyUp? && rule == AsWritten && sys.sim.phase == Launched && !sys.sim.running ==>
              r.0.sim == sys.sim
    ensures e.KeyUp? && Monitored(e.key) && (rule == Intended || sys.sim.phase != Launched) ==>
              r.0.sim.phase != Launched
    ensures e.PollTick? ==>
              r.1 == [] && r.0.listener == sys.listener && r.0.sim.running == sys.sim.running
              && (r.0.sim.phase != sys.sim.phase <==> sys.sim.phase == Idle && PollStarts(sys.listener, sys.sim.running, e.globalChecked, e.now))
  {
    match e
    case KeyDown(k, now) => (sys.(listener := OnPress(sys.listener, k, now)), [])
    case KeyUp(k) =>
      var (l, stop) := OnRelease(sys.listener, k);
      if stop then
        var (s, acts) := DoStop(sys.sim, rule);
        (System(l, s), acts)
      else (sys.(listener := l), [])
    case PollTick(now, global) =>
      if PollStarts(sys.listener, sys.sim.running, global, now)
      then (sys.(sim := Start(sys.sim)), [])
      else (sys, [])
    case SimulatorRuns(fault) =>
      var (s, acts) := ThreadStep(sys.sim, fault);
      (sys.(sim := s), acts)
    case IntervalSet(ms) => (sys.(sim := SetInterval(sys.sim, ms)), [])
  }

  /** A polling pass launches an idle simulator exactly when both keys are
      down, the simulator is not running, the hold time has elapsed since
      the recorded press and the global switch is checked; it changes
      nothing else and touches no key. */
  lemma PollTickStarts(sys: System, now: int, globalChecked: bool)
    requires sys.sim.phase == Idle
    ensures var r := SysStep(sys, PollTick(now, globalChecked), AsWritten);
            var l := sys.listener;
            && (r.0.sim.phase == Launched <==>
                  l.wPressed && l.upPressed && !sys.sim.running
                  && now - l.keyPressTime >= l.holdTimeMs && globalChecked)
            && r.0.listener == l && r.1 == []
            && r.0.sim.running == sys.sim.running && r.0.sim.held == sys.sim.held
  {
  }

  function SysRun(sys: System, events: seq<Event>, rule: StopRule): (r: (System, seq<KeyAction>))
    decreases |events|
  {
    if |events| == 0 then (sys, [])
    else
      var (s1, a1) := SysStep(sys, events[0], rule);
      var (s2, a2) := SysRun(s1, events[1..], rule);
      (s2, a1 + a2)
  }

  /** The key `k` is down in the listener and no simulator is about to act. */
  predicate QuietWhileUp(sys: System, k: Key)
    requires Monitored(k)
  {
    !IsPressed(sys.listener, k) && Stopped(sys.sim)
  }

  /** Releasing a monitored key stops the simulator, and it stays stopped,
      pressing nothing, until that key is pressed again. With the source's
      `stop` this holds only when the release does not fall between the
      poll's `start` and the thread's prologue; with the corrected `stop`
      it always holds. */
  lemma {:induction false} ReleaseStopsUntilRepress(sys: System, k: Key, events: seq<Event>, rule: StopRule)
    requires Monitored(k) && SimInv(sys.sim)
    requires rule == Intended || sys.sim.phase != Launched
    requires forall i :: 0 <= i < |events| ==> !(events[i].KeyDown? && events[i].key == k)
    ensures NoPress(SysRun(SysStep(sys, KeyUp(k), rule).0, events, rule).1)
    ensures Stopped(SysRun(SysStep(sys, KeyUp(k), rule).0, events, rule).0.sim)
  {
    var after := SysStep(sys, KeyUp(k), rule).0;
    assert QuietWhileUp(after, k);
    QuietSysRun(after, k, events, rule);
  }

  lemma {:induction false} QuietSysRun(sys: System, k: Key, events: seq<Event>, rule: StopRule)
    requires Monitored(k) && QuietWhileUp(sys, k)
    requires forall i :: 0 <= i < |events| ==> !(events[i].KeyDown? && events[i].key == k)
    ensures QuietWhileUp(SysRun(sys, events, rule).0, k) && NoPress(SysRun(sys, events, rule).1)
    decreases |events|
  {
    if |events| > 0 {
      var (s1, a1) := SysStep(sys, events[0], rule);
      assert a1 == [] && QuietWhileUp(s1, k);
      QuietSysRun(s1, k, events[1..], rule);
      assert SysRun(sys, events, rule).1 == a1 + SysRun(s1, events[1..], rule).1;
    }
  }

  /** The lost stop is reachable from the listener: with both keys held
      past the hold time, a poll launches the simulator, and `w` is released
      before the thread reaches `run`. The source's `stop` does nothing, so
      the thread then presses Space and runs with neither key down. The
      corrected `stop` cancels it. */
  lemma ReleaseDuringLaunchIsLost()
    ensures var sys := System(Listener(true, true, 1, 500), InitialSimulator);
            var events := [PollTick(600, true), KeyUp(KeyCode(Some(TriggerChar))), SimulatorRuns(None)];
            var asWritten := SysRun(sys, events, AsWritten);
            var intended := SysRun(sys, events, Intended);
            && asWritten.1 == [Press(Space)] && asWritten.0.sim.running
            && asWritten.0.sim.held == {Space} && !asWritten.0.listener.wPressed
            && intended.1 == [] && Stopped(intended.0.sim)
  {
    var sys := System(Listener(true, true, 1, 500), InitialSimulator);
    var w := KeyCode(Some(TriggerChar));
    var polled := sys.(sim := Start(InitialSimulator));
    assert SysStep(sys, PollTick(600, true), AsWritten) == (polled, []);
    assert SysStep(sys, PollTick(600, true), Intended) == (polled, []);
    var released := System(Listener(false, true, 0, 500), polled.sim);
    assert SysStep(polled, KeyUp(w), AsWritten) == (released, []);
    var ran := SysStep(released, SimulatorRuns(None), AsWritten);
    assert ran.1 == [Press(Space)] && ran.0.sim.running && ran.0.sim.held == {Space};
    var events := [PollTick(600, true), KeyUp(w), SimulatorRuns(None)];
    assert events[1..] == [KeyUp(w), SimulatorRuns(None)] && events[2..] == [SimulatorRuns(None)];
    assert SysRun(released, events[2..], AsWritten) == (ran.0, ran.1 + []);
    var cancelled := released.(sim := InitialSimulator);
    assert SysStep(polled, KeyUp(w), Intended) == (cancelled, []);
    assert SysStep(cancelled, SimulatorRuns(None), Intended) == (cancelled, []);
    assert SysRun(cancelled, events[2..], Intended) == (cancelled, [] + []);
  }
}
