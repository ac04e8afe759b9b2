/** The value behind one pomodoro: its status, its countdown and its two durations, with the
    transitions of the pomodoro and of its timer as functions on that value. */
module PomodoroValues {
  import opened Statuses

  /** What a `Pomodoro` and its `Timer` hold at one moment. */
  datatype Snapshot = Snapshot(status: Status, currentTime: int, running: bool, workTime: int, pauseTime: int)

  /** The timer runs exactly during a work or rest phase. */
  predicate Inv(s: Snapshot) {
    s.running <==> IsPhase(s.status)
  }

  predicate SameDurations(s: Snapshot, t: Snapshot) {
    s.workTime == t.workTime && s.pauseTime == t.pauseTime
  }

  /** A new pomodoro: durations floored to whole seconds, status None, a stopped timer at 0. */
  function Fresh(workTime: real, pauseTime: real): (s: Snapshot)
    ensures s.status == None && s.currentTime == 0 && !s.running && Inv(s)
    ensures s.workTime as real <= workTime < s.workTime as real + 1.0
    ensures s.pauseTime as real <= pauseTime < s.pauseTime as real + 1.0
  {
    Snapshot(None, 0, false, workTime.Floor, pauseTime.Floor)
  }

  /** `resetTimer`: loads the duration of the target phase, stopping the timer. */
  function ResetTimer(s: Snapshot, target: Status): (r: Snapshot)
    ensures r.status == s.status && SameDurations(r, s)
    ensures IsPhase(target) ==> !r.running
    ensures target == Work ==> r.currentTime == s.workTime
    ensures target == Rest ==> r.currentTime == s.pauseTime
    ensures !IsPhase(target) ==> r == s
  {
    if target == Work then s.(currentTime := s.workTime, running := false)
    else if target == Rest then s.(currentTime := s.pauseTime, running := false)
    else s
  }

  /** `start(target)`, Work by default: only Work and Rest are accepted; the countdown is
      reloaded unless the pomodoro is Paused, then the status is set and the timer started. */
  function Start(s: Snapshot, target: Status := Work): (r: Snapshot)
    ensures !IsPhase(target) ==> r == s
    ensures IsPhase(target) ==> r.status == target && r.running
    ensures IsPhase(target) && s.status != Paused ==>
              r.currentTime == (if target == Work then s.workTime else s.pauseTime)
    ensures s.status == Paused ==> r.currentTime == s.currentTime
    ensures SameDurations(r, s)
    ensures Inv(s) ==> Inv(r)
  {
    if IsPhase(target) then
      var loaded := if s.status != Paused then ResetTimer(s, target) else s;
      loaded.(status := target, running := true)
    else
      s
  }

  /** `done`: stop the timer, status Done. */
  function Finish(s: Snapshot): (r: Snapshot)
    ensures r.status == Done && !r.running && Inv(r)
    ensures r.currentTime == s.currentTime && SameDurations(r, s)
  {
    s.(running := false, status := Done)
  }

  /** One firing of the timer: decrement, then the callback's zero-crossing rule. */
  function Tick(s: Snapshot): (r: Snapshot)
    requires s.running
    ensures SameDurations(r, s)
    ensures s.currentTime > 1 ==> r == s.(currentTime := s.currentTime - 1)
    ensures s.currentTime <= 1 && s.status == Work ==>
              r.status == Rest && r.running && r.currentTime == s.pauseTime
    ensures s.currentTime <= 1 && s.status == Rest ==>
              r.status == Done && !r.running && r.currentTime == s.currentTime - 1
    ensures Inv(s) ==> Inv(r)
  {
    var d := s.(currentTime := s.currentTime - 1);
    if d.currentTime <= 0 then
      if d.status == Work then Start(d, Rest)
      else if d.status == Rest then Finish(d)
      else d
    else
      d
  }

  /** The message a firing shows: at the zero-crossing of a work or a rest phase. */
  function TickNotice(s: Snapshot): (n: Notice)
    requires s.running
    ensures n != Quiet <==> s.currentTime <= 1 && IsPhase(s.status)
    ensures n == WorkDone ==> Tick(s).status == Rest
    ensures n == PauseOver ==> Tick(s).status == Done
  {
    if s.currentTime - 1 <= 0 then
      if s.status == Work then WorkDone
      else if s.status == Rest then PauseOver
      else Quiet
    else
      Quiet
  }

  /** `pause`: stopped and Paused, with the remaining time kept for the next start. */
  function Pause(s: Snapshot): (r: Snapshot)
    ensures r.status == Paused && !r.running && Inv(r)
    ensures r.currentTime == s.currentTime && SameDurations(r, s)
  {
    s.(running := false, status := Paused)
  }

  /** `reset`: stopped, back to None, with the work time loaded. */
  function Reset(s: Snapshot): (r: Snapshot)
    ensures r.status == None && !r.running && Inv(r)
    ensures r.currentTime == s.workTime && SameDurations(r, s)
  {
    s.(running := false, status := None, currentTime := s.workTime)
  }

  /** `dispose`: stopped and back to None; the countdown is left as it was. */
  function Dispose(s: Snapshot): (r: Snapshot)
    ensures r.status == None && !r.running && Inv(r)
    ensures r.currentTime == s.currentTime && SameDurations(r, s)
  {
    s.(running := false, status := None)
  }

  /** `n` firings of the periodic source; a stopped timer does not fire. */
  function Ticks(s: Snapshot, n: nat): Snapshot
    decreases n
  {
    if n == 0 || !s.running then s else Ticks(Tick(s), n - 1)
  }

  lemma {:induction false} TicksAdd(s: Snapshot, a: nat, b: nat)
    ensures Ticks(s, a + b) == Ticks(Ticks(s, a), b)
    decreases a
  {
    if a > 0 && s.running {
      TicksAdd(Tick(s), a - 1, b);
    }
  }

  /** Before the zero-crossing a running phase only counts down. */
  lemma {:induction false} CountDown(s: Snapshot, k: nat)
    requires s.running && k < s.currentTime
    ensures Ticks(s, k) == s.(currentTime := s.currentTime - k)
    decreases k
  {
    if k > 0 {
      CountDown(Tick(s), k - 1);
    }
  }

  /** A running phase loaded with `c >= 1` seconds takes exactly `c` firings to end. */
  lemma {:induction false} PhaseEnds(s: Snapshot)
    requires s.running && IsPhase(s.status) && s.currentTime >= 1
    ensures s.status == Work ==>
              Ticks(s, s.currentTime) == s.(status := Rest, currentTime := s.pauseTime)
    ensures s.status == Rest ==>
              Ticks(s, s.currentTime) == s.(status := Done, currentTime := 0, running := false)
  {
    var c := s.currentTime;
    TicksAdd(s, c - 1, 1);
    CountDown(s, c - 1);
    var last := s.(currentTime := 1);
    assert Ticks(last, 1) == Ticks(Tick(last), 0);
  }

  /** From any status but Paused, a start in Work runs `w` seconds of work, then `r` seconds of
      rest, then stops in Done and stays there whatever further time passes. */
  lemma {:induction false} FullInterval(s0: Snapshot, extra: nat)
    requires s0.status != Paused && s0.workTime >= 1 && s0.pauseTime >= 1
    ensures var s := Start(s0, Work);
            && s == s0.(status := Work, currentTime := s0.workTime, running := true)
            && Ticks(s, s0.workTime) == s.(status := Rest, currentTime := s0.pauseTime)
            && Ticks(s, s0.workTime + s0.pauseTime + extra) == s.(status := Done, currentTime := 0, running := false)
  {
    var s := Start(s0, Work);
    var w, r := s0.workTime, s0.pauseTime;
    PhaseEnds(s);
    var resting := s.(status := Rest, currentTime := r);
    PhaseEnds(resting);
    var done := s.(status := Done, currentTime := 0, running := false);
    TicksAdd(s, w, r);
    TicksAdd(s, w + r, extra);
    assert Ticks(done, extra) == done by {
      if extra > 0 {
        assert !done.running;
      }
    }
  }

  /** Pausing a work phase after `k` seconds and starting again in Work resumes with the
      `w - k` seconds that were left, instead of reloading the work duration. */
  lemma {:induction false} PauseThenResume(s0: Snapshot, k: nat)
    requires s0.status != Paused && k < s0.workTime
    ensures var q := Start(Pause(Ticks(Start(s0, Work), k)), Work);
            q.status == Work && q.running && q.currentTime == s0.workTime - k
  {
    CountDown(Start(s0, Work), k);
  }

  /** Starting in Work after pausing a rest phase (what the session does on every start) turns
      the remaining rest into work, after which a full rest phase follows. */
  lemma {:induction false} RestResumedAsWork(s: Snapshot)
    requires s.status == Rest && s.running && s.currentTime >= 1
    ensures var q := Start(Pause(s), Work);
            && q == s.(status := Work)
            && Ticks(q, s.currentTime) == s.(currentTime := s.pauseTime)
  {
    PhaseEnds(Start(Pause(s), Work));
  }

  /** A pomodoro paused before its first start keeps the timer's initial 0 when started, so the
      first firing already ends its work phase. */
  lemma PausedBeforeFirstStart(workTime: real, pauseTime: real)
    ensures var q := Start(Pause(Fresh(workTime, pauseTime)), Work);
            && q.status == Work && q.running && q.currentTime == 0
            && Tick(q).status == Rest && Tick(q).currentTime == pauseTime.Floor
  {
  }

  /** `reset` forgets the history: the result depends only on the durations. */
  lemma ResetForgetsHistory(s: Snapshot, t: Snapshot)
    requires SameDurations(s, t)
    ensures Reset(s) == Reset(t) && Reset(s).currentTime == s.workTime
  {
  }
}
