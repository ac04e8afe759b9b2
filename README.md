# Pomodoro timer core in Dafny

This project models the core of a VS Code extension that runs Pomodoro sessions. The whole core
is in `src/pomodoro.ts`. It has three stateful components:

- `Timer` is a countdown of seconds. A periodic source, while it is registered, decrements the
  countdown and then calls back.
- `Pomodoro` is one work phase followed by one rest phase. It is a state machine over
  `PomodoroStatus` (None, Work, Rest, Paused, Break, Done) that owns a `Timer`.
- `PomodoroManager` keeps a cursor over a list of pomodori. It moves to the next pomodoro when
  the current one is Done, and it builds the status-bar text.

Each component is a Dafny class whose fields the methods update in place:

- `Timers.Timer` in `timer.dfy`.
- `Pomodori.Pomodoro` in `pomodoro.dfy`.
- `Managers.PomodoroManager` in `manager.dfy`.

The `Timer` methods and `Pomodoro.Stop` state the new field values directly in their
`ensures`. Every other method of `Pomodoro` and `PomodoroManager` is proved equal to a pure
function on the value the object stands for:

- `PomodoroValues` (`pomodoro_values.dfy`) is the value of one pomodoro: its status, its countdown, whether
  the timer runs, and its two durations.
- `Sessions` (`session.dfy`) is the value of the manager: the cursor and the list of pomodoro
  values.

The properties are proved as contracts and lemmas about these functions. Examples: a phase loaded
with `c` seconds ends after exactly `c` firings, and a session of N pomodori finishes after
`N * (w + r)` firings.

`Display` (`display.dfy`) builds the status-bar text as `draw` does. It uses JavaScript's `%`,
whose result takes the sign of the dividend, and JavaScript's number-to-string for integers below 1e21 in magnitude. A parser reads
the `MM:SS` text back, and it is proved to return the minutes and seconds.

How the program's mechanisms are modelled:

- The registered interval handle is the boolean `Timer.running`.
- A firing of the interval is an explicit `Tick` method:
  - `Pomodoro.Tick` does the decrement and then the callback registered by `start`.
  - `PomodoroManager.Tick` adds the `onTick` hook, which runs `update`.
- The interval is fixed at its default of 1000 ms, so a firing subtracts `1000 / 1000 = 1`
  second.
- The zero-crossing restart `start(Rest)` stops the old source, loads the pause time, sets Rest
  and registers a new source (src/pomodoro.ts:108-114). `PomodoroValues.Tick` models all of that.
  The restart does not run the callback itself, so the model needs no recursion.
- Configured minutes are `real`. The `Pomodoro` constructor floors the seconds, as `Math.floor`
  does.

Two consequences of the code as written are proved as lemmas:

- `PomodoroManager.start` always calls `start()` with its default target, Work. So resuming a
  pomodoro that was paused during its rest phase runs the remaining rest as work, and then a full
  rest phase follows (`PomodoroValues.RestResumedAsWork`).
- A new pomodoro's timer starts at 0, and `start` does not reload a Paused pomodoro. So pausing a
  pomodoro that was never started and then starting it ends its work phase at the first firing
  (`PomodoroValues.PausedBeforeFirstStart`).

Notes on the code as written:

- `reset` always builds exactly one pomodoro. Nothing configures a count.
- The progress suffix reads " (i out of N pomodori)", counting from 1.
- The Break status has the suffix " - break", although no operation sets it.
- The longer-break message is asked for on every `draw` of a finished session of more than one
  pomodoro.
- The default arguments are kept: a `Timer` starts at 0 seconds, a `Pomodoro` has 1500 and 300
  seconds, `start` targets Work, and a `PomodoroManager` gets 25 and 5 minutes.

## Model

| member | source | states |
|---|---|---|
| `Timers.Timer.constructor` | src/pomodoro.ts:26-28 | a new timer holds the given seconds, 0 by default, and no registered source |
| `Timers.Timer.Reset` | src/pomodoro.ts:30-33 | the source is stopped and the countdown is set to the given time |
| `Timers.Timer.Start` | src/pomodoro.ts:35-44 | a source is registered only when none is; a second start is refused, keeps the running source and leaves the countdown untouched |
| `Timers.Timer.Stop` | src/pomodoro.ts:46-52 | the source is cleared and the countdown kept, so stopping a stopped timer changes nothing |
| `Timers.Timer.Tick` | src/pomodoro.ts:54-56 | each firing subtracts interval/1000 = 1 second and leaves the running flag alone |
| `PomodoroValues.Fresh` | src/pomodoro.ts:79-88 | a new pomodoro has status None, a stopped timer at 0, and durations that are the floors of the given seconds |
| `Pomodori.Pomodoro.constructor` | src/pomodoro.ts:79-88 | the object starts as `PomodoroValues.Fresh` of its arguments, 1500 and 300 seconds by default, with a new timer of its own |
| `Pomodori.Pomodoro.Finish` | src/pomodoro.ts:91-94 | `done` stops the timer and sets Done |
| `PomodoroValues.Finish` | src/pomodoro.ts:91-94 | the pomodoro is Done with its timer stopped and its countdown kept, and the invariant holds |
| `Pomodori.Pomodoro.ResetTimer` | src/pomodoro.ts:96-103 | Work loads the work time, Rest loads the pause time, and both stop the timer; other targets change nothing |
| `PomodoroValues.ResetTimer` | src/pomodoro.ts:96-103 | Work loads the work time and Rest the pause time, each stopping the timer and keeping the status; any other target changes nothing |
| `PomodoroValues.Start` | src/pomodoro.ts:106-133 | a target other than Work or Rest changes nothing; otherwise the status becomes the target and the timer runs; the countdown is reloaded with the target's duration unless the pomodoro was Paused, whose remaining time is kept; the invariant "running iff Work or Rest" is preserved |
| `Pomodori.Pomodoro.Start` | src/pomodoro.ts:106-133 | the object's new state is `PomodoroValues.Start` of its old state, with Work as the default target, and the invariant holds |
| `PomodoroValues.Tick` | src/pomodoro.ts:114-124 | a firing decrements first; above the zero-crossing that is all; at it, Work becomes Rest with the pause time loaded and the timer running, and Rest becomes Done with the timer stopped; the invariant is preserved |
| `PomodoroValues.TickNotice` | src/pomodoro.ts:116-123 | a message is shown exactly at the zero-crossing of a work or rest phase: "work done" when Rest follows, "pause is over" when Done follows |
| `Pomodori.Pomodoro.Tick` | src/pomodoro.ts:114-129 | one firing (decrement, then callback) moves the object as `PomodoroValues.Tick` and reports `PomodoroValues.TickNotice` |
| `PomodoroValues.Pause` | src/pomodoro.ts:135-138 | the pomodoro is Paused with its timer stopped, its remaining time and durations kept, and the running-iff-phase invariant holds |
| `Pomodori.Pomodoro.Pause` | src/pomodoro.ts:135-138 | stops the timer and sets Paused, keeping the remaining time |
| `PomodoroValues.Reset` | src/pomodoro.ts:140-144 | from any status the pomodoro is None with its timer stopped and the work time loaded, and the invariant holds |
| `Pomodori.Pomodoro.Reset` | src/pomodoro.ts:140-144 | stops the timer, sets None and loads the work time, whatever the status was |
| `Pomodori.Pomodoro.Stop` | src/pomodoro.ts:146-148 | the timer is stopped and its countdown kept |
| `PomodoroValues.Dispose` | src/pomodoro.ts:150-153 | the pomodoro is None with its timer stopped and its countdown kept, and the invariant holds |
| `Pomodori.Pomodoro.Dispose` | src/pomodoro.ts:150-153 | stops the timer and sets None |
| `PomodoroValues.CountDown` | src/pomodoro.ts:114-116 | before the zero-crossing, k firings only subtract k seconds |
| `PomodoroValues.PhaseEnds` | src/pomodoro.ts:114-124 | a running phase loaded with c >= 1 seconds ends after exactly c firings: Work turns into Rest with the pause time, Rest into Done at 0 with the timer stopped |
| `PomodoroValues.FullInterval` | src/pomodoro.ts:106-124 | from any status but Paused, with w, r >= 1, a start in Work reaches Rest after w firings and Done after w + r, and stays Done however many more firings are asked for |
| `PomodoroValues.PauseThenResume` | src/pomodoro.ts:106-112 | pausing a work phase after k < w firings and starting again resumes with w - k seconds |
| `PomodoroValues.RestResumedAsWork` | src/pomodoro.ts:106-112 | starting in Work after pausing a rest phase keeps the remaining rest time but runs it as Work, and a full rest phase follows |
| `PomodoroValues.PausedBeforeFirstStart` | src/pomodoro.ts:106-112 | a pomodoro paused before its first start runs Work from 0, so the first firing ends the work phase |
| `PomodoroValues.ResetForgetsHistory` | src/pomodoro.ts:140-144 | the result of reset depends only on the durations, and its countdown is the work time |
| `Sessions.Finished` | src/pomodoro.ts:180-182 | while the cursor never passes the end, the session is finished exactly when the cursor equals the number of pomodori |
| `Sessions.Current` | src/pomodoro.ts:161-163 | the pomodoro at the cursor keeps its own invariant, and no pomodoro at another index has a running timer |
| `Sessions.Start` | src/pomodoro.ts:290-301 | a finished session is rewound to index 0; the current pomodoro is started in Work and runs; no other pomodoro changes; the session invariant holds afterwards |
| `Managers.PomodoroManager.IsSessionFinished` | src/pomodoro.ts:180-182 | the answer is whether the manager's session value is finished |
| `Managers.PomodoroManager.CurrentPomodoro` | src/pomodoro.ts:161-163 | the object returned belongs to the manager's footprint, with its timer, and its value is the session's current pomodoro |
| `Managers.PomodoroManager.Start` | src/pomodoro.ts:290-301 | the manager's new state is `Sessions.Start` of its old state |
| `Sessions.Update` | src/pomodoro.ts:221-230 | the cursor advances by exactly 1 when the current pomodoro is Done and not otherwise, and then starts the next pomodoro in Work if there is one; nothing changes otherwise; afterwards the current pomodoro is never Done |
| `Managers.PomodoroManager.Update` | src/pomodoro.ts:221-230 | the manager's new state is `Sessions.Update` of its old state |
| `Sessions.Pause` | src/pomodoro.ts:303-308 | only the current pomodoro changes: it is Paused, stopped, with its remaining time kept, and the update that follows never moves the cursor |
| `Managers.PomodoroManager.Pause` | src/pomodoro.ts:303-308 | the manager's new state is `Sessions.Pause` of its old state |
| `Sessions.Reset` | src/pomodoro.ts:310-315 | the cursor is 0 and the list holds exactly one new pomodoro, with floor(workTime * 60) and floor(pauseTime * 60) seconds |
| `Managers.PomodoroManager.Reset` | src/pomodoro.ts:310-315 | the manager's new state is `Sessions.Reset` of its configured minutes, built from new objects |
| `Managers.PomodoroManager.constructor` | src/pomodoro.ts:190-218 | a new manager holds the configured minutes, 25 and 5 by default, and the state after `reset` |
| `Sessions.Dispose` | src/pomodoro.ts:317-319 | only the current pomodoro changes, to `PomodoroValues.Dispose` of itself: it is None and stopped with its countdown and durations kept; the cursor stays and the session invariant holds |
| `Managers.PomodoroManager.Dispose` | src/pomodoro.ts:317-319 | the manager's new state is `Sessions.Dispose` of its old state |
| `Sessions.Tick` | src/pomodoro.ts:297-300 | a firing followed by the hook's update keeps the cursor unless the firing ended the current pomodoro, in which case the cursor advances by 1 |
| `Managers.PomodoroManager.Tick` | src/pomodoro.ts:297-300 | the manager's new state is `Sessions.Tick` of its old state, and the message is the current pomodoro's `PomodoroValues.TickNotice` |
| `Sessions.PhaseRunsOut` | src/pomodoro.ts:114-124 | in a session, the current phase ends after as many firings as it has seconds; Rest's end hands over to `update` |
| `Sessions.PomodoroRunsOut` | src/pomodoro.ts:221-230 | a current pomodoro started in Work ends after w + r firings, and then `update` runs |
| `Sessions.SessionRuns` | src/pomodoro.ts:221-230 | with w, r >= 1, each pomodoro ends after w + r firings and the next one starts automatically, so after (N - index) * (w + r) firings the cursor equals N and the session is finished |
| `Sessions.OnePomodoro` | src/pomodoro.ts:114-124 | a one-pomodoro session started with w work and r rest seconds holds 1 second of work after w - 1 firings, Rest with r seconds after w, 1 second of rest after w + r - 1, and is finished after w + r |
| `Sessions.DefaultStart` | src/pomodoro.ts:290-315 | reset and start with 25 and 5 minutes give one running Work pomodoro with 1500 seconds loaded |
| `Sessions.DefaultSession` | src/pomodoro.ts:106-124 | after reset and start with the default 25 and 5 minutes, 1500 firings reach Rest with 300 seconds loaded and 1800 finish the session; firing 1500 is the one that shows "work done" and firing 1800 the one that shows "pause is over" |
| `Display.StateSuffix` | src/pomodoro.ts:165-178 | the suffix is empty exactly for None and Done |
| `Display.ProgressSuffix` | src/pomodoro.ts:260-268 | the " (i out of N pomodori)" part is present exactly when there is more than one pomodoro |
| `Display.NumberText` | src/pomodoro.ts:253-266 | the text of a number starts with '-' exactly when it is negative, and its digits read back as its magnitude |
| `Display.SecondsOf` | src/pomodoro.ts:249 | JavaScript's t % 60 lies strictly between -60 and 60, differs from t by a multiple of 60, equals t mod 60 for t >= 0 and is never positive for t < 0 |
| `Display.ClockText` | src/pomodoro.ts:249-258 | the clock starts with a digit and has at least five characters; for t >= 0 it is at least two digits of minutes, a ':' and exactly two digits of seconds |
| `Display.ClockRoundTrip` | src/pomodoro.ts:249-258 | for t >= 0, the `MM:SS` text reads back as minutes t / 60 and seconds t % 60 |
| `Display.ClockShape` | src/pomodoro.ts:253-258 | below 100 minutes the clock text is exactly five characters with ':' in the middle |
| `Display.ClockExamples` | src/pomodoro.ts:249-258 | 125 seconds show as "02:05" and 9 seconds as "00:09" |
| `Display.DigitsRoundTrip` | src/pomodoro.ts:255-258 | the decimal text of a number reads back as that number |
| `Display.StatusBarText` | src/pomodoro.ts:232-271 | the text is "Restart session?" exactly when the session is finished |
| `Display.LongerBreakNotice` | src/pomodoro.ts:239-244 | the longer-break message comes exactly with the restart text, for a session of more than one pomodoro |
| `Display.StatusBarShowsClock` | src/pomodoro.ts:249-271 | while the session runs with a non-negative countdown, the text begins with a clock that reads back as the current minutes and seconds, followed by the state and progress suffixes |
| `Managers.PomodoroManager.Draw` | src/pomodoro.ts:232-271 | the status-bar text is "Restart session?" for a finished session and clock + state suffix + progress suffix otherwise; the longer-break message is asked for exactly when a session of several pomodori is finished |

## Left out

- The VS Code user interface is not modelled. This covers creating, showing, hiding and disposing
  the status-bar items, and which buttons `draw` shows (src/pomodoro.ts:185-218, 273-286,
  322-325).
- The texts of the notifications are not modelled. A firing reports which message it shows as a
  `Notice`, and `Draw` reports the longer-break message as a flag.
- Real scheduling is not modelled. `setInterval`, `clearInterval` and wall-clock time become the
  `running` flag and explicit `Tick` calls.
- `console.error` is not modelled. The refused `Timer.start` reports `registered == false`, and
  an invalid `Pomodoro.start` target changes nothing.
- The `interval` argument of the `Timer` constructor is not modelled. Interval values other than
  its default of 1000 ms are not modelled. They would make the decrement a fraction
  of a second.
- Floating-point rounding of the configured minutes is not modelled. They are exact reals.
- The countdown and the displayed numbers are unbounded integers. In the program they are
  doubles: the decrement is exact only up to 2^53, so `PomodoroValues.PhaseEnds` and the lemmas built
  on it hold of the program only for durations below 2^53 seconds. `String` writes numbers of
  magnitude 1e21 and above in exponent form, which `Display.NumberText` does not model.
- The unused `timer` constants object (src/pomodoro.ts:12-18) is not modelled.
- The trivial accessors are not separate members: the `status` getter and setter, `timer` and
  `isRunning`. `status` and `running` are plain fields.
- The `onTick` field is not modelled. `PomodoroManager.Tick` always runs `update`. Every pomodoro
  is first started by the manager, which sets the hook right after (src/pomodoro.ts:296-300). The
  zero-crossing `start(Rest)` (src/pomodoro.ts:119) leaves the hook in place.
- Managers.PomodoroManager.Pause: requires a session that is not finished. The program
  dereferences the missing current pomodoro there and would crash.
- Managers.PomodoroManager.Dispose: requires a session that is not finished, for the same reason
  as `Pause`.
- Managers.PomodoroManager.Reset: drops the old pomodori without stopping their timers. In the
  program a timer that was running keeps firing, and its hook keeps calling `update` and `draw` on
  the manager. The model drops those objects and does not model those firings.
- Activation and command registration in `src/extension.ts` are not modelled. Only the operations
  they call are.
