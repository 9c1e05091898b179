# Pomodoro period state machine in Dafny

This project models `PomodoroTimer`, the controller of a desktop Pomodoro timer. The controller counts down work and break periods one second per tick and switches between them. It keeps a session counter that picks the break length, and it logs every period in an append-only session history. It reports its state to the GUI through Qt signals.

- `time_format.dfy` (module `TimeFormat`) holds the `mm:ss` rendering of `format_duration` and `update_time`. It also holds the GUI's reading of that string back into seconds (`update_progress`) and the proof that this reading recovers the number.
- `periods.dfy` (module `Periods`) holds the period arithmetic on values. That covers the `% 4` break rule, the elapsed fraction, and the events that one tick, one countdown and one period switch emit. The lemmas about them are here too.
- `timer.dfy` (module `Timer`) holds the class `PomodoroTimer` with the source's fields. Its methods update the fields in place. The signals go to a ghost log `events`. `time.ctime()` stamps are passed in as a `now` argument. `Valid()` is the class invariant:
  - the three durations are positive;
  - `isWorkPeriod` holds exactly when `sessionCount` is even;
  - `0 <= currentTime <=` the active period's duration.

  `Reset` establishes the invariant and every other method keeps it.

Two behaviours of the code are kept as written:

- **The long break never happens.** The break length is picked by `session_count % 4`. But `session_count` is odd in every break, because it starts at 0 in a work period and each switch adds one. So every break, the fourth one included, loads the short break. `Periods.BreakIsShort`, `Periods.SwitchesFromReset` and `Periods.FourthBreakIsShort` prove this.
- **Resuming after a pause logs a new entry.** `toggle` only pauses. Its resume branch calls `start_timer()` without the goal and raises a `TypeError`. So the GUI resumes through `start_timer(goal)`, which logs another "Work" entry whatever the period. `Timer.WorkedExample` plays this through.

## Model

| member | source | states |
|---|---|---|
| `TimeFormat.Decimal` | pomodoro_logic.py:171 | The decimal rendering of a natural number is a non-empty run of digits, a single digit exactly when the number is below 10 |
| `TimeFormat.DecimalRoundTrip` | pomodoro_gui.py:400 | Reading the digits of a rendered number back gives the number |
| `TimeFormat.Pad2` | pomodoro_logic.py:171 | `{:02d}` gives at least two characters. A non-negative number gives only digits, and exactly two below 100. A negative number gives a minus sign followed by digits |
| `TimeFormat.FormatDurationShape` | pomodoro_logic.py:160-171 | `format_duration(d)` has a single `:` three characters from the end, no `:` before it, exactly two digits of seconds after it, and only digits of minutes when `d >= 0` |
| `TimeFormat.Split` | pomodoro_gui.py:400 | `str.split` gives at least one piece, and a string without the separator is its own single piece |
| `TimeFormat.SplitAround` | pomodoro_gui.py:400 | Splitting `a:b`, where neither part contains `:`, gives exactly `[a, b]` |
| `TimeFormat.ParsePad2` | pomodoro_gui.py:400 | `int()` of a zero-padded field gives back the number, for every integer |
| `TimeFormat.ClockRoundTrip` | pomodoro_gui.py:400-401 | For every integer `d`, the GUI's `minutes * 60 + seconds` reading of `format_duration(d)` gives back `d` |
| `Periods.Period.Next` | pomodoro_logic.py:125-126 | A switch flips the period kind, adds one to the counter and keeps the durations |
| `Periods.AlternatingPreserved` | pomodoro_logic.py:125-126 | A switch keeps the invariant "work period exactly when the counter is even" |
| `Periods.BreakIsShort` | pomodoro_logic.py:130-131 | Under that invariant a break's counter is never a multiple of 4, so a break loads the short duration |
| `Periods.SwitchesFromReset` | pomodoro_logic.py:120-133 | From the state `reset` sets up, `n` switches give counter `n`, a work period exactly when `n` is even, unchanged durations, and a short break whenever the period is a break |
| `Periods.FourthBreakIsShort` | pomodoro_logic.py:130-131 | After four work/break cycles the fourth break still loads the short duration; the long duration is never selected |
| `Periods.FractionBounds` | pomodoro_logic.py:152-156 | With positive durations and `0 <= current <= duration`, the elapsed fraction lies in [0, 1] |
| `Periods.FractionEnds` | pomodoro_logic.py:152-156 | The fraction is 0 at the start of a period and exactly 1 when no time is left |
| `Periods.FractionMonotone` | pomodoro_logic.py:152-156 | Less time left never gives a smaller fraction |
| `Periods.CountdownUpdates` | pomodoro_logic.py:110-115 | Counting down from `from` to `to` emits exactly `from - to` updates, the i-th for `from - 1 - i` seconds left |
| `Periods.CountdownNotifies` | pomodoro_logic.py:112-114 | A countdown emits `NotifyUser` once if it is a break that passes from above 60 seconds to 60 or fewer, and never otherwise |
| `Periods.CountdownProgress` | pomodoro_logic.py:152-156 | The fractions reported during one countdown stay in [0, 1] and never decrease |
| `Periods.CountdownEndsAtZero` | pomodoro_logic.py:110-116 | A full countdown ends with an update showing "00:00" and fraction 1 |
| `Periods.UpdateTextRoundTrip` | pomodoro_logic.py:150-151 | The `mm:ss` string an update carries gives back the seconds it reports |
| `Timer.PomodoroTimer.constructor` | pomodoro_logic.py:23-43 | `__init__` stores the durations, is not running, has an empty goal and history, and ends in the reset state with one update emitted |
| `Timer.PomodoroTimer.Default` | pomodoro_logic.py:23 | With the default arguments the durations are 1500, 300 and 900 seconds |
| `Timer.PomodoroTimer.UpdateTime` | pomodoro_logic.py:146-157 | Appends exactly one update, for the current time and the active period's fraction |
| `Timer.PomodoroTimer.Reset` | pomodoro_logic.py:54-61 | Sets the time to the work duration, the counter to 0 and the period to work, and establishes the invariant. Appends one update whose fraction is 0. Leaves the running flag, goal and history alone |
| `Timer.PomodoroTimer.SetDurations` | pomodoro_logic.py:63-75 | Replaces the three durations, then behaves exactly like `Reset` |
| `Timer.PomodoroTimer.Toggle` | pomodoro_logic.py:77-83 | Flips the running flag. Pausing returns normally. Starting ends in the missing-argument error with the flag already set. Nothing else changes |
| `Timer.PomodoroTimer.StartTimer` | pomodoro_logic.py:85-98 | Sets the running flag and the goal. Appends one "Work" entry whatever the period. Emits `SessionChange(Work)`, then an update. Leaves the time, counter and period alone |
| `Timer.PomodoroTimer.Tick` | pomodoro_logic.py:110-115 | Takes exactly one second off and emits `NotifyUser` only when a break reaches 60 seconds, then one update. Keeps the invariant and never lowers the fraction |
| `Timer.PomodoroTimer.SwitchPeriod` | pomodoro_logic.py:120-143 | Flips the period and adds one to the counter. Appends one entry of the new kind, carrying the unchanged goal, after the old entries. Loads the work duration or the short break. Emits an update, `SessionChange`, then `ResetGoal` only into work |
| `Timer.PomodoroTimer.RunTimer` | pomodoro_logic.py:105-118 | When not running, changes nothing. When running, ticks down to 0 (one countdown of events), then emits `Finish` and switches period exactly as `SwitchPeriod` does |

## Left out

- Threads, `timer_lock`, `time.sleep` and the new thread that `switch_period` starts for the next period are concurrency and wall-clock time. `RunTimer` runs one period sequentially, and a client continues with another `RunTimer` call. A pause that arrives between two ticks is expressed by calling `Tick`, then `Toggle`, then `RunTimer`.
- `load_encoded_mp3` plays a bundled clip through pygame after base64 decoding. It is foreign I/O.
- `time.ctime()` timestamps are an opaque `now` string argument.
- Qt's signal machinery and the unused module-level `reset_goal_signal` are not modelled. The signals are a ghost log of `Event` values.
- `Periods.Event`: an update is logged by the seconds it reports. `Event.Text()` gives the `mm:ss` string the signal carries, which is `format_duration` of those seconds. `UpdateTextRoundTrip` shows the string determines the seconds, so nothing is lost.
- The elapsed fraction is a Dafny `real`. Python's float rounding is not modelled.
- `TimeFormat.ParseInt` models Python's `int()` only on an optionally signed run of ASCII digits. It does not accept surrounding whitespace, underscores or non-ASCII digits.
- Division by a zero duration in `update_time` is excluded by requiring positive durations. The GUI clamps every input to at least one minute before `set_durations` (pomodoro_gui.py:442-444), and the defaults are positive. The model does not need the durations to be multiples of 60.
- Calling `start_timer` while already running would, in the source, start a second countdown thread. The model's `StartTimer` performs the same field updates, and the second thread is part of the concurrency left out above. The GUI calls it only when not running (pomodoro_gui.py:365-374).
- The rest of `pomodoro_gui.py` is presentation. That covers widgets, painting, styles, message boxes, history rendering, the progress-bar inversion and the placeholder `calculate_time_fraction`. Only its parse of the time string and its call pattern appear here.
