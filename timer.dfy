/** The countdown: a number of seconds and an optional periodic source that decrements it. */
module Timers {

  /** Milliseconds between two firings: the default of the constructor, the only value used. */
  const Interval: int := 1000

  class Timer {
    /** Remaining seconds. */
    var currentTime: int
    /** Whether a periodic source is registered (the timer handle is not null). */
    var running: bool

    /** A stopped timer holding `currentTime` seconds, 0 by default. */
    constructor (currentTime: int := 0)
      ensures this.currentTime == currentTime && !running
    {
      this.currentTime := currentTime;
      running := false;
    }

    /** Stops the source and loads `time`. */
    method Reset(time: int)
      modifies this
      ensures !running && currentTime == time
    {
      Stop();
      currentTime := time;
    }

    /** Registers a periodic source unless one is already registered; `registered` is false
        exactly when the call is refused (the program only logs an error then). */
    method Start() returns (registered: bool)
      modifies this
      ensures registered == !old(running)
      ensures running && currentTime == old(currentTime)
    {
      if !running {
        running := true;
        registered := true;
      } else {
        registered := false;
      }
    }

    /** Clears the source, if any; on a stopped timer nothing changes. */
    method Stop()
      modifies this
      ensures !running && currentTime == old(currentTime)
    {
      running := false;
    }

    /** The decrement done at each firing, before the callback runs. */
    method Tick()
      modifies this
      ensures currentTime == old(currentTime) - 1 && running == old(running)
    {
      currentTime := currentTime - Interval / 1000;
    }
  }
}
