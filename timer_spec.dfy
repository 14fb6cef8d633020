/** The timer's state machine on values: the state the timer object holds,
    what each of its handlers makes of it, and what a sequence of button
    clicks and elapsed seconds does. The object in module Pomodoro is proved
    to follow these functions; the properties are proved about them here. */
module TimerSpec {
  import opened Modes
  import Clock

  /** The timer's fields `currentMode`, `timeLeft` and `isRunning`. */
  datatype TimerState = TimerState(mode: Mode, timeLeft: int, running: bool)

  /** The state after one run of the interval callback, and whether it raised the alarm. */
  datatype TickOutcome = TickOutcome(next: TimerState, alarm: bool)

  /** What the surrounding page can do to the timer: a click on the
      start/pause button, on the reset button or on a mode button, or one
      second of the host's clock. */
  datatype Event = StartPauseClick | ResetClick | ModeClick(mode: Mode) | SecondElapsed

  /** The final state after a run of events, and how many alarms were raised on the way. */
  datatype Trace = Trace(final: TimerState, alarms: nat)

  /** The state of a newly constructed timer. */
  function Initial(): TimerState {
    TimerState(Focus, Duration(Focus), false)
  }

  /** `startTimer`: nothing happens when the timer is already running. */
  function Start(s: TimerState): TimerState {
    if s.running then s else s.(running := true)
  }

  /** `pauseTimer`. */
  function Pause(s: TimerState): TimerState {
    s.(running := false)
  }

  /** `toggleTimer`, the start/pause button. */
  function Toggle(s: TimerState): TimerState {
    if s.running then Pause(s) else Start(s)
  }

  /** `resetTimer`: pause, then refill the current mode's time. */
  function Reset(s: TimerState): TimerState {
    Pause(s).(timeLeft := Duration(s.mode))
  }

  /** `switchMode(m)`: pause, then select `m` with its full time. */
  function SwitchMode(s: TimerState, m: Mode): TimerState {
    Pause(s).(mode := m, timeLeft := Duration(m))
  }

  /** The body of the interval callback: one second off, and when the time
      is up (zero or below) pause and raise the alarm. */
  function Tick(s: TimerState): TickOutcome
    requires s.running
  {
    var t := s.(timeLeft := s.timeLeft - 1);
    if t.timeLeft <= 0 then TickOutcome(Pause(t), true) else TickOutcome(t, false)
  }

  /** The progress percentage drawn on the ring, against the CURRENT mode's duration. */
  function Progress(s: TimerState): real {
    Clock.Percent(s.timeLeft, Duration(s.mode))
  }

  /** One event. A second elapses with no callback when no interval is
      active, which is exactly when the timer is not running. */
  function Step(s: TimerState, e: Event): TickOutcome {
    match e
    case StartPauseClick => TickOutcome(Toggle(s), false)
    case ResetClick => TickOutcome(Reset(s), false)
    case ModeClick(m) => TickOutcome(SwitchMode(s, m), false)
    case SecondElapsed => if s.running then Tick(s) else TickOutcome(s, false)
  }

  function Run(s: TimerState, es: seq<Event>): Trace
    decreases |es|
  {
    if es == [] then Trace(s, 0)
    else
      var o := Step(s, es[0]);
      var r := Run(o.next, es[1..]);
      Trace(r.final, r.alarms + if o.alarm then 1 else 0)
  }

  /** `n` seconds of the host's clock with no click. */
  function Elapsed(n: nat): (es: seq<Event>)
    ensures |es| == n && forall i :: 0 <= i < n ==> es[i] == SecondElapsed
  {
    seq(n, _ => SecondElapsed)
  }

  /** The one invariant the timer keeps: never more time left than its mode's duration. */
  predicate Bounded(s: TimerState) {
    s.timeLeft <= Duration(s.mode)
  }

  // ----- The handlers one by one -----

  /** A new timer is in focus mode with 25:00 to go, stopped, its ring full. */
  lemma InitialState()
    ensures Initial() == TimerState(Focus, 1500, false)
    ensures Clock.Display(Initial().timeLeft) == "25:00" && Progress(Initial()) == 100.0
  {
  }

  /** The start/pause button flips `running` and nothing else, and two clicks undo each other. */
  lemma ToggleFlips(s: TimerState)
    ensures Toggle(s).running == !s.running
    ensures Toggle(s).timeLeft == s.timeLeft && Toggle(s).mode == s.mode
    ensures Toggle(Toggle(s)) == s
  {
  }

  /** Starting a running timer changes nothing; otherwise it only sets
      `running`, and in particular keeps the time left. */
  lemma StartOnlyRuns(s: TimerState)
    ensures s.running ==> Start(s) == s
    ensures Start(s) == s.(running := true)
    ensures Start(Start(s)) == Start(s)
  {
  }

  /** Pausing only clears `running`; pausing twice is pausing once. */
  lemma PauseOnlyStops(s: TimerState)
    ensures Pause(s) == s.(running := false)
    ensures Pause(Pause(s)) == Pause(s)
  {
  }

  /** From any state, reset leaves the mode, stops the timer and refills its time. */
  lemma ResetRefills(s: TimerState)
    ensures var r := Reset(s); r.mode == s.mode && r.timeLeft == Duration(s.mode) && !r.running
    ensures Progress(Reset(s)) == 100.0
    ensures Reset(Reset(s)) == Reset(s)
  {
  }

  /** From any state, a mode click stops the timer and selects that mode with
      its full time; clicking the current mode is a reset, not a no-op. */
  lemma SwitchModeRefills(s: TimerState, m: Mode)
    ensures var r := SwitchMode(s, m); r.mode == m && r.timeLeft == Duration(m) && !r.running
    ensures Progress(SwitchMode(s, m)) == 100.0
    ensures SwitchMode(s, s.mode) == Reset(s)
  {
  }

  /** A tick takes exactly one second off; it raises the alarm exactly when
      the time left reaches zero or below, and then the timer stops. */
  lemma TickCountsDown(s: TimerState)
    requires s.running
    ensures var o := Tick(s);
      && o.next.timeLeft == s.timeLeft - 1 && o.next.mode == s.mode
      && (o.alarm <==> s.timeLeft <= 1)
      && o.next.running == !o.alarm
  {
  }

  /** A tick lowers the ring by exactly one second's share of the mode's duration. */
  lemma TickLowersProgress(s: TimerState)
    requires s.running
    ensures Progress(Tick(s).next) < Progress(s)
    ensures Progress(Tick(s).next) == Progress(s) - 100.0 / Duration(s.mode) as real
  {
  }

  // ----- Runs of events -----

  /** Every event keeps the invariant. */
  lemma StepKeepsBounded(s: TimerState, e: Event)
    requires Bounded(s)
    ensures Bounded(Step(s, e).next)
  {
  }

  /** Any run of events from a state within the invariant, a new timer among
      them, stays within it. The time left is bounded above only: see
      `RestartAfterExpiry`. */
  lemma {:induction false} RunKeepsBounded(s: TimerState, es: seq<Event>)
    requires Bounded(s)
    ensures Bounded(Run(s, es).final)
    decreases |es|
  {
    if es != [] {
      StepKeepsBounded(s, es[0]);
      RunKeepsBounded(Step(s, es[0]).next, es[1..]);
    }
  }

  /** Running two runs of events one after the other is running them joined. */
  lemma {:induction false} RunAppend(s: TimerState, a: seq<Event>, b: seq<Event>)
    ensures var ra := Run(s, a); var rb := Run(ra.final, b);
      Run(s, a + b) == Trace(rb.final, ra.alarms + rb.alarms)
    decreases |a|
  {
    if a == [] {
      assert a + b == b;
    } else {
      assert (a + b)[0] == a[0];
      assert (a + b)[1..] == a[1..] + b;
      RunAppend(Step(s, a[0]).next, a[1..], b);
    }
  }

  /** A running timer with time left counts down one second per second and
      nothing else; it stops at exactly zero after as many seconds as it had
      left, raising the alarm once, and later seconds do nothing. */
  lemma {:induction false} Countdown(s: TimerState, n: nat)
    requires s.running && s.timeLeft > 0
    ensures Run(s, Elapsed(n)) ==
      if n < s.timeLeft then Trace(s.(timeLeft := s.timeLeft - n), 0)
      else Trace(s.(timeLeft := 0, running := false), 1)
    decreases n
  {
    if n > 0 {
      assert Elapsed(n)[1..] == Elapsed(n - 1);
      var o := Tick(s);
      if s.timeLeft == 1 {
        IdleSeconds(o.next, n - 1);
      } else {
        Countdown(o.next, n - 1);
      }
    }
  }

  /** Seconds pass without effect on a stopped timer. */
  lemma {:induction false} IdleSeconds(s: TimerState, n: nat)
    requires !s.running
    ensures Run(s, Elapsed(n)) == Trace(s, 0)
    decreases n
  {
    if n > 0 {
      assert Elapsed(n)[1..] == Elapsed(n - 1);
      IdleSeconds(s, n - 1);
    }
  }

  /** Nothing clamps the time left: a timer that has run out, started again
      without a reset, goes to -1 on the next second and raises the alarm a
      second time. A full focus session followed by one more click and one
      more second shows this. */
  lemma RestartAfterExpiry()
    ensures var es := [StartPauseClick] + Elapsed(1500) + [StartPauseClick, SecondElapsed];
      Run(Initial(), es) == Trace(TimerState(Focus, -1, false), 2)
  {
    var s1 := Start(Initial());
    Countdown(s1, 1500);
    var expired := TimerState(Focus, 0, false);
    RunAppend(Initial(), [StartPauseClick], Elapsed(1500));
    RunAppend(Initial(), [StartPauseClick] + Elapsed(1500), [StartPauseClick, SecondElapsed]);
    assert Run(expired, [StartPauseClick, SecondElapsed]) == Trace(TimerState(Focus, -1, false), 1);
  }
}
