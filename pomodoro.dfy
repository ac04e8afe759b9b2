/** One pomodoro: a status and the timer it owns, updated in place. */
module Pomodori {
  import opened Statuses
  import opened Timers
  import PomodoroValues

  class Pomodoro {
    var status: Status
    const timer: Timer
    /** Seconds of work and of rest, floored to whole seconds at construction. */
    const workTime: int
    const pauseTime: int

    /** The value this pomodoro and its timer stand for. */
    ghost function State(): PomodoroValues.Snapshot
      reads this, timer
    {
      PomodoroValues.Snapshot(status, timer.currentTime, timer.running, workTime, pauseTime)
    }

    ghost predicate Valid()
      reads this, timer
    {
      PomodoroValues.Inv(State())
    }

    /** Durations in seconds, 25 and 5 minutes by default. */
    constructor (workTime: real := 1500.0, pauseTime: real := 300.0)
      ensures Valid() && fresh(timer)
      ensures State() == PomodoroValues.Fresh(workTime, pauseTime)
    {
      this.workTime := workTime.Floor;
      this.pauseTime := pauseTime.Floor;
      timer := new Timer();
      status := None;
    }

    /** `done`. */
    method Finish()
      modifies this, timer
      ensures State() == PomodoroValues.Finish(old(State()))
    {
      Stop();
      status := Done;
    }

    /** `resetTimer`. */
    method ResetTimer(target: Status)
      modifies timer
      ensures State() == PomodoroValues.ResetTimer(old(State()), target)
    {
      if target == Work {
        timer.Reset(workTime);
      }
      if target == Rest {
        timer.Reset(pauseTime);
      }
    }

    /** `start(target)`, Work by default; an invalid target is only logged by the program. */
    method Start(target: Status := Work)
      requires Valid()
      modifies this, timer
      ensures Valid()
      ensures State() == PomodoroValues.Start(old(State()), target)
    {
      if IsPhase(target) {
        if status != Paused {
          ResetTimer(target);
        }
        status := target;
        var _ := timer.Start();
      }
    }

    /** One firing of the timer: the decrement, then the callback registered by `start`, which
        moves Work to Rest and Rest to Done at the zero-crossing. The session's hook that the
        callback runs last is `PomodoroManager.Tick`'s business. */
    method Tick() returns (notice: Notice)
      requires Valid() && timer.running
      modifies this, timer
      ensures Valid()
      ensures State() == PomodoroValues.Tick(old(State()))
      ensures notice == PomodoroValues.TickNotice(old(State()))
    {
      timer.Tick();
      notice := Quiet;
      if timer.currentTime <= 0 {
        if status == Work {
          notice := WorkDone;
          Start(Rest);
        } else if status == Rest {
          notice := PauseOver;
          Finish();
        }
      }
    }

    method Pause()
      modifies this, timer
      ensures Valid()
      ensures State() == PomodoroValues.Pause(old(State()))
    {
      Stop();
      status := Paused;
    }

    method Reset()
      modifies this, timer
      ensures Valid()
      ensures State() == PomodoroValues.Reset(old(State()))
    {
      Stop();
      status := None;
      timer.currentTime := workTime;
    }

    method Stop()
      modifies timer
      ensures !timer.running && timer.currentTime == old(timer.currentTime)
    {
      timer.Stop();
    }

    method Dispose()
      modifies this, timer
      ensures Valid()
      ensures State() == PomodoroValues.Dispose(old(State()))
    {
      Stop();
      status := None;
    }
  }
}
