/** The timer object. Its handlers update its fields in place; each
    one is proved to do what the matching function of TimerSpec says. */
module Pomodoro {
  import opened Modes
  import Clock
  import opened TimerSpec

  class PomodoroTimer {
    var currentMode: Mode
    var timeLeft: int
    var isRunning: bool
    /** How many host intervals are scheduled to run the callback, the
        intervals `setInterval` started and `clearInterval` has not cancelled;
        `timerId` names the latest one. */
    var intervals: nat

    /** The guard in `startTimer` keeps exactly one interval while the
        countdown runs and none otherwise, so the host runs the callback once
        a second. */
    predicate Valid()
      reads this
    {
      intervals == if isRunning then 1 else 0
    }

    /** The fields as a value of TimerSpec. */
    function State(): TimerState
      reads this
    {
      TimerState(currentMode, timeLeft, isRunning)
    }

    /** A new timer: focus mode, its full 25 minutes, stopped. */
    constructor ()
      ensures State() == Initial()
      ensures currentMode == Focus && timeLeft == 1500 && !isRunning
      ensures Valid() && intervals == 0
    {
      currentMode := Focus;
      timeLeft := Duration(Focus);
      isRunning := false;
      intervals := 0;
    }

    /** The start/pause button. */
    method ToggleTimer()
      requires Valid()
      modifies this
      ensures Valid()
      ensures State() == Toggle(old(State()))
      ensures isRunning == !old(isRunning)
      ensures timeLeft == old(timeLeft) && currentMode == old(currentMode)
    {
      if isRunning {
        PauseTimer();
      } else {
        StartTimer();
      }
    }

    /** Starts the countdown and schedules an interval; a no-op when it
        already runs, so a second interval is never started. The time left is
        not refilled. */
    method StartTimer()
      requires Valid()
      modifies this
      ensures Valid() && intervals == 1
      ensures State() == Start(old(State()))
      ensures isRunning
      ensures timeLeft == old(timeLeft) && currentMode == old(currentMode)
    {
      if isRunning {
        return;
      }
      isRunning := true;
      intervals := intervals + 1;
    }

    /** Stops the countdown and cancels the interval `timerId` names, if it
        is still scheduled. */
    method PauseTimer()
      requires Valid()
      modifies this
      ensures Valid() && intervals == 0
      ensures State() == Pause(old(State()))
      ensures !isRunning
      ensures timeLeft == old(timeLeft) && currentMode == old(currentMode)
    {
      isRunning := false;
      if intervals > 0 {
        intervals := intervals - 1;
      }
    }

    /** Stops the countdown and refills the current mode's time, from any state. */
    method ResetTimer()
      requires Valid()
      modifies this
      ensures Valid()
      ensures State() == Reset(old(State()))
      ensures !isRunning && currentMode == old(currentMode) && timeLeft == Duration(currentMode)
    {
      PauseTimer();
      timeLeft := Duration(currentMode);
    }

    /** Stops the countdown and selects `mode` with its full time, even when
        `mode` is already the current one. */
    method SwitchMode(mode: Mode)
      requires Valid()
      modifies this
      ensures Valid()
      ensures State() == TimerSpec.SwitchMode(old(State()), mode)
      ensures !isRunning && currentMode == mode && timeLeft == Duration(mode)
    {
      PauseTimer();
      currentMode := mode;
      timeLeft := Duration(mode);
    }

    /** The interval callback, which the host runs once a second while the
        countdown runs. Returns whether it raised the alarm. */
    method Tick() returns (alarm: bool)
      requires isRunning && Valid()
      modifies this
      ensures Valid()
      ensures State() == TimerSpec.Tick(old(State())).next && alarm == TimerSpec.Tick(old(State())).alarm
      ensures timeLeft == old(timeLeft) - 1 && currentMode == old(currentMode)
      ensures alarm <==> timeLeft <= 0
      ensures isRunning == !alarm
    {
      timeLeft := timeLeft - 1;
      alarm := false;
      if timeLeft <= 0 {
        PauseTimer();
        alarm := true;
      }
    }
  }

  /** The host's interval: runs the callback once a second for as long as the
      timer runs, and reports how many seconds passed and how many alarms were
      raised. A timer started with time left stops at exactly zero; one started
      at zero or below gets one more second off. Either way the alarm sounds
      once. */
  method RunInterval(timer: PomodoroTimer) returns (ticks: nat, alarms: nat)
    requires timer.isRunning && timer.Valid()
    modifies timer
    ensures timer.Valid()
    ensures ticks == if old(timer.timeLeft) > 0 then old(timer.timeLeft) else 1
    ensures timer.timeLeft == if old(timer.timeLeft) > 0 then 0 else old(timer.timeLeft) - 1
    ensures !timer.isRunning && timer.currentMode == old(timer.currentMode) && alarms == 1
  {
    ticks, alarms := 0, 0;
    var first := true;
    while timer.isRunning
      invariant timer.Valid()
      invariant timer.currentMode == old(timer.currentMode)
      invariant timer.timeLeft == old(timer.timeLeft) - ticks
      invariant first <==> ticks == 0
      invariant timer.isRunning ==> alarms == 0 && (first || timer.timeLeft > 0)
      invariant !timer.isRunning ==> !first && alarms == 1
      invariant !timer.isRunning && old(timer.timeLeft) > 0 ==> timer.timeLeft == 0
      invariant !timer.isRunning && old(timer.timeLeft) <= 0 ==> ticks == 1
      decreases timer.isRunning, timer.timeLeft + (if first then 1 else 0)
    {
      var alarm := timer.Tick();
      ticks := ticks + 1;
      first := false;
      if alarm {
        alarms := alarms + 1;
      }
    }
  }

  /** A new timer shows 25:00 with a full ring, in focus mode, stopped. */
  method FreshTimer() returns (face: string, percent: real, mode: Mode, running: bool)
    ensures face == "25:00" && percent == 100.0 && mode == Focus && !running
  {
    var timer := new PomodoroTimer();
    Clock.DisplayFullSessions();
    face, percent := Clock.Display(timer.timeLeft), Progress(timer.State());
    mode, running := timer.currentMode, timer.isRunning;
  }

  /** Start, then one second: 24:59 and still running. */
  method OneSecondIn() returns (left: int, face: string, running: bool)
    ensures left == 1499 && face == "24:59" && running
  {
    var timer := new PomodoroTimer();
    timer.StartTimer();
    var _ := timer.Tick();
    Clock.DisplayOneSecondIn();
    left, face, running := timer.timeLeft, Clock.Display(timer.timeLeft), timer.isRunning;
  }

  /** Start twice: still one interval, so one second takes one second off,
      not two. */
  method DoubleStart() returns (active: nat, left: int)
    ensures active == 1 && left == 1499
  {
    var timer := new PomodoroTimer();
    timer.StartTimer();
    timer.StartTimer();
    active := timer.intervals;
    var _ := timer.Tick();
    left := timer.timeLeft;
  }

  /** One second into a focus session, a click on the short-break button:
      05:00, stopped, full ring. */
  method SwitchWhileRunning() returns (left: int, face: string, running: bool, percent: real)
    ensures left == 300 && face == "05:00" && !running && percent == 100.0
  {
    var timer := new PomodoroTimer();
    timer.StartTimer();
    var _ := timer.Tick();
    timer.SwitchMode(Short);
    left, running := timer.timeLeft, timer.isRunning;
    assert left == 300;
    face := Clock.Display(left);
    assert face == "05:00" by { Clock.DisplayFullSessions(); }
    percent := Progress(timer.State());
    assert percent == 100.0 by { assert timer.State() == TimerState(Short, 300, false); }
  }

  /** A full short break: 300 seconds, then stopped at zero with one alarm. */
  method ShortBreakCompletes() returns (ticks: nat, alarms: nat, left: int, running: bool)
    ensures ticks == 300 && alarms == 1 && left == 0 && !running
  {
    var timer := new PomodoroTimer();
    timer.SwitchMode(Short);
    timer.StartTimer();
    ticks, alarms := RunInterval(timer);
    left, running := timer.timeLeft, timer.isRunning;
  }

  /** A reset during a running session stops it and refills focus time. */
  method ResetWhileRunning() returns (left: int, running: bool)
    ensures left == 1500 && !running
  {
    var timer := new PomodoroTimer();
    timer.StartTimer();
    var _ := timer.Tick();
    timer.ResetTimer();
    left, running := timer.timeLeft, timer.isRunning;
  }

  /** After a short break has run out, starting again without a reset: the
      next second shows -1:-1 and the alarm sounds again. */
  method RestartWithoutReset() returns (left: int, face: string, alarm: bool)
    ensures left == -1 && face == "-1:-1" && alarm
  {
    var timer := new PomodoroTimer();
    timer.SwitchMode(Short);
    timer.StartTimer();
    var _, _ := RunInterval(timer);
    timer.ToggleTimer();
    alarm := timer.Tick();
    Clock.DisplayExpired();
    left, face := timer.timeLeft, Clock.Display(timer.timeLeft);
  }
}
