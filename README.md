# Pomodoro timer — a Dafny model

This project models the `PomodoroTimer` class of a browser Pomodoro timer
(`script.js`). The timer cycles through three kinds of session: focus
(25 minutes), short break (5 minutes) and long break (15 minutes). It holds
the current mode, the seconds left and whether the countdown runs. A
start/pause button, a reset button and one button per mode drive it. While
it runs, an interval callback takes one second off every second. When the
time is up, the callback stops the countdown and raises an alarm. On every
change the page redraws the "MM:SS" text and a progress ring whose fill is
the percentage of the session left.

Layout:

- `modes.dfy` (module `Modes`): the three modes and their durations.
- `clock.dfy` (module `Clock`): the two values derived on every redraw.
  - The "MM:SS" text is built as JavaScript builds it. `Math.floor` gives
    the minutes, the truncating `%` gives the seconds, then `String` and
    `padStart(2, '0')`.
  - A reader, `ParseDisplay`, turns a face back into seconds, for the
    round-trip proof.
  - The percentage is an exact real.
- `timer_spec.dfy` (module `TimerSpec`): the timer's state as a value.
  - There is one function per handler.
  - `Step` and `Run` give the effect of a sequence of page events (clicks
    and elapsed seconds).
  - The lemmas state what each handler guarantees and what a countdown does.
- `pomodoro.dfy` (module `Pomodoro`): the class `PomodoroTimer`.
  - Its fields are `currentMode`, `timeLeft` and `isRunning`. Its methods
    update them in place.
  - A fourth field, `intervals`, counts the host intervals that are
    scheduled. `Valid` states that there is exactly one while the countdown
    runs and none otherwise. Every method keeps it, and the guard in
    `startTimer` is what keeps it.
  - Each method's postcondition ties the new state to the matching
    `TimerSpec` function of the old state.
  - `RunInterval` plays the host's once-a-second interval until the
    countdown stops.
  - A few read-only methods replay whole scenarios on a new timer.

Behaviour kept exactly as the code has it:

- The time left is never clamped.
  - A countdown that runs out stops at 0.
  - If the timer is started again without a reset, the next second takes
    it to -1, and the alarm sounds a second time. So the only invariant is
    `timeLeft <= Duration(currentMode)`, not `0 <= timeLeft`.
  - `TimerSpec.RestartAfterExpiry` and `Pomodoro.RestartWithoutReset` show
    this. Nothing in the code clamps the time left or keeps it at or above
    0, and the model does the same.
- A negative time shows as the code would show it: -1 becomes "-1:-1".
  - `Math.floor` rounds the minutes down, while `%` keeps the seconds
    negative.
  - For such times the two parts no longer add up to the time, unless the
    time is a whole number of minutes (`Clock.MinutesSecondsNegative`).
- Clicking the button of the mode that is already selected is a full reset
  (`TimerSpec.SwitchModeRefills`).

## Model

| member | source | states |
|---|---|---|
| Modes.Duration | script.js:3-7 | every session length is positive, a whole number of minutes, and under 100 minutes |
| Clock.NatDigits | script.js:104 | `String(n)` of a natural number is a non-empty digit string without a leading zero; it is one character long exactly below 10 and at most two below 100 |
| Clock.PadStart2 | script.js:104 | `padStart(2, '0')` gives a string of length two, or the string itself when it is already longer |
| Clock.PadStart2Pads | script.js:104 | padding keeps the string as its suffix and puts only '0's before it |
| Clock.IntString | script.js:104 | `String(n)` is non-empty and starts with '-' exactly when n is negative; the rest is digits |
| Clock.IntStringValue | script.js:104 | the digits of `String(n)` spell the number: their value is n for n >= 0, and the digits after the '-' have value -n for n < 0 |
| Clock.Minutes | script.js:102 | `Math.floor(t / 60)`: the minutes m satisfy m * 60 <= t < m * 60 + 60, for negative t too |
| Clock.Seconds | script.js:103 | JavaScript's `t % 60`: strictly between -60 and 60, with the sign of t, and t minus it is a multiple of 60 |
| Clock.Display | script.js:102-104 | the face is at least five characters, with the ':' third from the end for a non-negative time; `DisplayJoin` and `MinutesSeconds` pin the face of a non-negative time, `IntStringValue` and `MinutesSecondsNegative` the parts of a negative one, and `DisplayRoundTrip`, `DisplayShape` and `DisplayExpired` state what it gives |
| Clock.MinutesSeconds | script.js:102-103 | for a non-negative time, minutes * 60 + seconds is the time, with 0 <= seconds < 60 |
| Clock.MinutesSecondsNegative | script.js:102-103 | for a negative time the seconds lie in (-60, 0], and the parts add up to the time only for a whole minute, otherwise to one minute less |
| Clock.DisplayRoundTrip | script.js:102-104 | reading back the face of any non-negative time gives that time |
| Clock.DisplayInjective | script.js:102-104 | two different non-negative times never show the same face |
| Clock.DisplayJoin | script.js:102-104 | the face of a non-negative time is the padded digits of its minutes, a ':' and the padded digits of its seconds |
| Clock.DisplayShape | script.js:102-104 | every time from 0 to 5999 shows as two digits, a colon and two digits |
| Clock.DisplayFullSessions | script.js:102-104 | the full sessions show as "25:00", "15:00" and "05:00" |
| Clock.DisplayOneSecondIn | script.js:102-104 | 1499 seconds show as "24:59" |
| Clock.DisplayExpired | script.js:102-104 | 0 shows as "00:00" and -1 as "-1:-1" |
| Clock.Percent | script.js:110-111 | the percentage is 100 exactly when the time left is the whole duration, 0 exactly when it is 0, and within [0, 100] exactly when the time is within [0, duration] |
| Clock.PercentMonotonic | script.js:110-111 | more time left gives a strictly larger percentage |
| TimerSpec.Initial | script.js:8-11 | no contract of its own; `InitialState` states it: focus mode, 1500 seconds, stopped |
| TimerSpec.Toggle | script.js:49-55 | no contract of its own; `ToggleFlips` states what it does |
| TimerSpec.Start | script.js:57-59 | no contract of its own; `StartOnlyRuns` states what it does |
| TimerSpec.Pause | script.js:73-74 | no contract of its own; `PauseOnlyStops` states what it does |
| TimerSpec.Reset | script.js:79-81 | no contract of its own; `ResetRefills` states what it does |
| TimerSpec.SwitchMode | script.js:85-88 | no contract of its own; `SwitchModeRefills` states what it does |
| TimerSpec.Tick | script.js:63-69 | no contract of its own; `TickCountsDown` and `TickLowersProgress` state what it does |
| TimerSpec.Progress | script.js:109-111 | no contract of its own; `Clock.Percent` bounds it, and `ResetRefills`, `SwitchModeRefills` and `TickLowersProgress` state its values |
| TimerSpec.Step | script.js:33-47 | no contract of its own; one click or one second of the page; `StepKeepsBounded` states the invariant it keeps |
| TimerSpec.Run | script.js:62-70 | no contract of its own; a sequence of events; `RunKeepsBounded`, `RunAppend`, `Countdown`, `IdleSeconds` and `RestartAfterExpiry` state what it gives |
| TimerSpec.InitialState | script.js:3-11 | a new timer is in focus mode with 1500 seconds, stopped, showing "25:00" and a full ring |
| TimerSpec.ToggleFlips | script.js:49-55 | the start/pause button flips running and keeps the mode and time; two clicks give back the state |
| TimerSpec.StartOnlyRuns | script.js:57-59 | start on a running timer changes nothing, and otherwise only sets running; in particular the time left is kept |
| TimerSpec.PauseOnlyStops | script.js:73-77 | pause only clears running, and pausing twice is pausing once |
| TimerSpec.ResetRefills | script.js:79-83 | from any state, reset stops the timer, keeps the mode, refills its duration and fills the ring; it is idempotent |
| TimerSpec.SwitchModeRefills | script.js:85-88 | from any state, a mode click stops the timer and selects the mode with its full duration and a full ring; clicking the current mode equals a reset |
| TimerSpec.TickCountsDown | script.js:62-69 | a tick takes exactly one second off and keeps the mode; it raises the alarm exactly when the new time is zero or below, and then the timer stops |
| TimerSpec.TickLowersProgress | script.js:109-111 | each tick lowers the ring by exactly 100 / duration percent |
| TimerSpec.StepKeepsBounded | script.js:49-88 | every click and every elapsed second keeps `timeLeft <= Duration(currentMode)` |
| TimerSpec.RunKeepsBounded | script.js:49-88 | any sequence of clicks and seconds from a bounded state, such as a new timer, keeps the bound |
| TimerSpec.RunAppend | script.js:62-70 | running two sequences of events one after the other gives the final state of the second and the sum of their alarms, as running them joined does |
| TimerSpec.Countdown | script.js:62-70 | a running timer with t > 0 seconds left is at t - n after n < t seconds, with no alarm; from t seconds on it is stopped at exactly 0 with exactly one alarm |
| TimerSpec.IdleSeconds | script.js:73-75 | once paused, later seconds change nothing, since the interval is cleared |
| TimerSpec.RestartAfterExpiry | script.js:57-69 | a full focus session, then start again without reset and one more second, ends stopped at -1 with two alarms in all |
| Pomodoro.PomodoroTimer.constructor | script.js:2-11 | the fields start as focus mode, 1500 seconds, not running, with no interval scheduled |
| Pomodoro.PomodoroTimer.ToggleTimer | script.js:49-55 | the new state is `Toggle` of the old: running flips, mode and time are kept |
| Pomodoro.PomodoroTimer.StartTimer | script.js:57-62 | the new state is `Start` of the old: running afterwards, mode and time kept, nothing done when already running; exactly one interval is scheduled afterwards |
| Pomodoro.PomodoroTimer.PauseTimer | script.js:73-77 | the new state is `Pause` of the old: stopped, mode and time kept, and no interval left scheduled |
| Pomodoro.PomodoroTimer.ResetTimer | script.js:79-83 | the new state is `Reset` of the old: stopped, same mode, full duration |
| Pomodoro.PomodoroTimer.SwitchMode | script.js:85-88 | the new state is `SwitchMode` of the old: stopped, the given mode, its full duration |
| Pomodoro.PomodoroTimer.Tick | script.js:62-69 | the new state and alarm are `Tick` of the old state: one second off, and the alarm exactly when the time reaches zero or below, in which case the timer stops |
| Pomodoro.RunInterval | script.js:62-70 | the interval runs until the timer stops: t > 0 seconds take t ticks and end at 0; a start at t <= 0 takes one tick and ends at t - 1; either way exactly one alarm |
| Pomodoro.FreshTimer | script.js:2-11 | a new timer shows "25:00", a 100 percent ring, focus mode, stopped |
| Pomodoro.OneSecondIn | script.js:57-69 | start and one second give 1499 seconds, "24:59", still running |
| Pomodoro.DoubleStart | script.js:57-63 | after two starts exactly one interval is scheduled, so one second takes one second off, not two |
| Pomodoro.SwitchWhileRunning | script.js:85-88 | a short-break click during a running focus session gives 300 seconds, "05:00", stopped, a 100 percent ring |
| Pomodoro.ShortBreakCompletes | script.js:62-69 | a started short break stops after exactly 300 ticks at 0, with one alarm |
| Pomodoro.ResetWhileRunning | script.js:79-83 | reset during a running focus session gives 1500 seconds, stopped |
| Pomodoro.RestartWithoutReset | script.js:57-69 | starting an expired short break again gives -1 seconds, "-1:-1" and a second alarm on the next tick |

## Left out

- Page access and event wiring are not modelled. This covers the element
  lookups, the click listeners, the button label, the active-button
  classes, the body theme class and the document title (script.js:14,
  33-47, 60, 76, 90-96, 106-107, 122-125). The listeners are represented
  only by the `Event` values of `TimerSpec`.
- `setInterval`, `clearInterval` and the `timerId` handle are modelled only
  by the count `intervals` of scheduled intervals: starting adds one, and
  pausing cancels the one `timerId` names.
  - The interval callback is the method `Tick`, which may only be called
    while the timer runs. `RunInterval` and `TimerSpec.Run` play the host's
    seconds, one callback per second. Every method requires and ensures
    `PomodoroTimer.Valid`, so exactly one interval is scheduled while the
    timer runs.
  - `TimerSpec` has no interval count. Its `Step` runs one callback per
    second on a running timer, which is what `Valid` guarantees for the
    object.
  - Real time and the timing of the seconds are not modelled.
- The progress-ring geometry is not modelled: `Math.PI`, the circumference
  and the stroke offset (script.js:15-16, 23-31).
- Clock.Percent: the percentage is the exact real `timeLeft / total * 100`,
  not the floating-point number the page computes. Rounding of that
  number is not modelled.
- The alarm's `alert` text is not modelled. This includes the upper-cased
  mode name (script.js:115-118). Only the fact that the alarm is raised
  (`alarm == true`) is modelled.
- Arbitrary mode strings from a button's `data-mode` are not modelled
  (script.js:43). `Mode` is a closed datatype, so the `undefined` duration
  an unknown key would give cannot occur.
