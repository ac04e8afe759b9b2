/** The phases a pomodoro can be in, and the informational messages a firing can raise. */
module Statuses {

  /** `PomodoroStatus`. `Break` is declared by the program but no transition ever reaches it. */
  datatype Status = None | Work | Rest | Paused | Break | Done

  /** The two phases during which the countdown runs. */
  predicate IsPhase(s: Status) {
    s == Work || s == Rest
  }

  /** The notification a timer firing shows: none, "work done", or "pause is over". */
  datatype Notice = Quiet | WorkDone | PauseOver
}
