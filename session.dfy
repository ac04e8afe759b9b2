/** The value behind a `PomodoroManager`: the cursor and the pomodori it sequences, with the
    manager's operations as functions on that value. */
module Sessions {
  import opened Statuses
  import PomodoroValues

  datatype Session = Session(index: nat, pomodori: seq<PomodoroValues.Snapshot>)

  /** `isSessionFinished`: there is no pomodoro at the cursor. While the cursor never passes the
      end of the list, that is exactly when it stands at the end. */
  predicate Finished(s: Session): (b: bool)
    ensures Inv(s) ==> (b <==> s.index == |s.pomodori|)
  {
    s.index >= |s.pomodori|
  }

  /** `currentPomodoro`: the pomodoro at the cursor, the only one whose timer may run. */
  function Current(s: Session): (p: PomodoroValues.Snapshot)
    requires !Finished(s)
    ensures Inv(s) ==> PomodoroValues.Inv(p)
    ensures Inv(s) ==> forall j :: 0 <= j < |s.pomodori| && s.pomodori[j].running ==> j == s.index
  {
    s.pomodori[s.index]
  }

  function WithCurrent(s: Session, p: PomodoroValues.Snapshot): (r: Session)
    requires !Finished(s)
    ensures r.index == s.index && |r.pomodori| == |s.pomodori| && Current(r) == p
  {
    s.(pomodori := s.pomodori[s.index := p])
  }

  /** The list is never empty, the cursor never passes its end, every pomodoro keeps its own
      invariant, and no timer but the current pomodoro's runs. */
  predicate Inv(s: Session) {
    && 1 <= |s.pomodori|
    && s.index <= |s.pomodori|
    && (forall j :: 0 <= j < |s.pomodori| ==> PomodoroValues.Inv(s.pomodori[j]))
    && (forall j :: 0 <= j < |s.pomodori| && j != s.index ==> !s.pomodori[j].running)
  }

  /** What holds between two operations: besides `Inv`, `update` has already moved the cursor
      past a pomodoro that is Done. */
  predicate Settled(s: Session) {
    Inv(s) && (!Finished(s) ==> Current(s).status != Done)
  }

  /** `start`: a finished session is rewound to its first pomodoro, then the current pomodoro is
      started in Work (resuming it if it is Paused, reloading it otherwise). */
  function Start(s: Session): (r: Session)
    requires |s.pomodori| >= 1
    ensures r.index == (if Finished(s) then 0 else s.index) && !Finished(r)
    ensures |r.pomodori| == |s.pomodori|
    ensures Current(r) == PomodoroValues.Start(s.pomodori[r.index], Work)
    ensures Current(r).status == Work && Current(r).running
    ensures forall j :: 0 <= j < |s.pomodori| && j != r.index ==> r.pomodori[j] == s.pomodori[j]
    ensures Inv(s) ==> Settled(r)
  {
    var rewound := if Finished(s) then s.(index := 0) else s;
    WithCurrent(rewound, PomodoroValues.Start(Current(rewound), Work))
  }

  /** `update`: when the current pomodoro is Done, the cursor moves to the next one, which is
      started if there is one. */
  function Update(s: Session): (r: Session)
    requires !Finished(s)
    ensures r.index == (if Current(s).status == Done then s.index + 1 else s.index)
    ensures |r.pomodori| == |s.pomodori|
    ensures Current(s).status != Done ==> r == s
    ensures Current(s).status == Done && !Finished(r) ==>
              Current(r) == PomodoroValues.Start(s.pomodori[r.index], Work)
    ensures forall j :: 0 <= j < |s.pomodori| && j != s.index + 1 ==> r.pomodori[j] == s.pomodori[j]
    ensures Inv(s) ==> Settled(r)
  {
    if Current(s).status == Done then
      var next := s.(index := s.index + 1);
      if !Finished(next) then Start(next) else next
    else
      s
  }

  /** `pause`: the current pomodoro is paused; the update that follows never moves the cursor. */
  function Pause(s: Session): (r: Session)
    requires !Finished(s)
    ensures r == WithCurrent(s, PomodoroValues.Pause(Current(s)))
    ensures Current(r).status == Paused && !Current(r).running
    ensures Current(r).currentTime == Current(s).currentTime
    ensures Inv(s) ==> Settled(r)
  {
    Update(WithCurrent(s, PomodoroValues.Pause(Current(s))))
  }

  /** `reset`: exactly one fresh pomodoro, built from the configured minutes, at the cursor. */
  function Reset(workTime: real, pauseTime: real): (r: Session)
    ensures r.index == 0 && |r.pomodori| == 1 && Settled(r)
    ensures Current(r).status == None && !Current(r).running && Current(r).currentTime == 0
    ensures Current(r).workTime == (workTime * 60.0).Floor
    ensures Current(r).pauseTime == (pauseTime * 60.0).Floor
  {
    Session(0, [PomodoroValues.Fresh(workTime * 60.0, pauseTime * 60.0)])
  }

  /** `dispose`: the current pomodoro is stopped and set back to None. */
  function Dispose(s: Session): (r: Session)
    requires !Finished(s)
    ensures r == WithCurrent(s, PomodoroValues.Dispose(Current(s)))
    ensures r.index == s.index && |r.pomodori| == |s.pomodori|
    ensures Current(r).status == None && !Current(r).running
    ensures Current(r).currentTime == Current(s).currentTime
    ensures forall j :: 0 <= j < |s.pomodori| && j != s.index ==> r.pomodori[j] == s.pomodori[j]
    ensures Inv(s) ==> Settled(r)
  {
    WithCurrent(s, PomodoroValues.Dispose(Current(s)))
  }

  /** One firing of the current pomodoro's timer followed by the `onTick` hook's update. */
  function Tick(s: Session): (r: Session)
    requires !Finished(s) && Current(s).running
    ensures PomodoroValues.Tick(Current(s)).status != Done ==>
              r == WithCurrent(s, PomodoroValues.Tick(Current(s)))
    ensures PomodoroValues.Tick(Current(s)).status == Done ==> r.index == s.index + 1
    ensures Inv(s) ==> Settled(r)
  {
    Update(WithCurrent(s, PomodoroValues.Tick(Current(s))))
  }

  /** `n` firings; nothing fires once the session is finished or its timer is stopped. */
  function Ticks(s: Session, n: nat): Session
    decreases n
  {
    if n == 0 || Finished(s) || !Current(s).running then s else Ticks(Tick(s), n - 1)
  }

  lemma {:induction false} TicksAdd(s: Session, a: nat, b: nat)
    ensures Ticks(s, a + b) == Ticks(Ticks(s, a), b)
    decreases a
  {
    if a > 0 && !Finished(s) && Current(s).running {
      TicksAdd(Tick(s), a - 1, b);
    }
  }

  /** Before its zero-crossing the current phase only counts down; the cursor stays put. */
  lemma {:induction false} CurrentCountDown(s: Session, k: nat)
    requires !Finished(s) && Current(s).running && IsPhase(Current(s).status)
    requires k < Current(s).currentTime
    ensures Ticks(s, k) == WithCurrent(s, Current(s).(currentTime := Current(s).currentTime - k))
    decreases k
  {
    if k > 0 {
      var c := Current(s);
      var next := WithCurrent(s, c.(currentTime := c.currentTime - 1));
      assert Tick(s) == next;
      CurrentCountDown(next, k - 1);
      assert next.pomodori[s.index := c.(currentTime := c.currentTime - k)]
          == s.pomodori[s.index := c.(currentTime := c.currentTime - k)];
    }
  }

  /** The last second of a phase: Work turns into Rest, Rest into Done and the cursor moves on. */
  lemma {:induction false} PhaseRunsOut(s: Session)
    requires !Finished(s) && Current(s).running && IsPhase(Current(s).status)
    requires Current(s).currentTime >= 1
    ensures var c := Current(s);
            c.status == Work ==>
              Ticks(s, c.currentTime) == WithCurrent(s, c.(status := Rest, currentTime := c.pauseTime))
    ensures var c := Current(s);
            c.status == Rest ==>
              Ticks(s, c.currentTime) == Update(WithCurrent(s, c.(status := Done, currentTime := 0, running := false)))
  {
    var c := Current(s);
    CurrentCountDown(s, c.currentTime - 1);
    TicksAdd(s, c.currentTime - 1, 1);
    var last := WithCurrent(s, c.(currentTime := 1));
    assert Ticks(last, 1) == Tick(last);
    assert last.pomodori[s.index := PomodoroValues.Tick(c.(currentTime := 1))]
        == s.pomodori[s.index := PomodoroValues.Tick(c.(currentTime := 1))];
  }

  /** Every pomodoro of the session has the same durations. */
  predicate Uniform(s: Session, w: int, r: int) {
    forall j :: 0 <= j < |s.pomodori| ==> s.pomodori[j].workTime == w && s.pomodori[j].pauseTime == r
  }

  /** A started pomodoro takes its work seconds plus its rest seconds to end, at which point
      the cursor moves on. */
  lemma {:induction false} PomodoroRunsOut(s: Session)
    requires !Finished(s) && Current(s).status == Work && Current(s).running
    requires Current(s).currentTime >= 1 && Current(s).pauseTime >= 1
    ensures var c := Current(s);
            Ticks(s, c.currentTime + c.pauseTime)
            == Update(WithCurrent(s, c.(status := Done, currentTime := 0, running := false)))
  {
    var c := Current(s);
    PhaseRunsOut(s);
    var resting := WithCurrent(s, c.(status := Rest, currentTime := c.pauseTime));
    PhaseRunsOut(resting);
    TicksAdd(s, c.currentTime, c.pauseTime);
    assert resting.pomodori[s.index := c.(status := Done, currentTime := 0, running := false)]
        == s.pomodori[s.index := c.(status := Done, currentTime := 0, running := false)];
  }

  /** The current pomodoro has just been started in Work, every pomodoro has work `w` and rest
      `r`, and none after the current one is Paused (so starting it reloads its duration). */
  predicate Ready(s: Session, w: nat, r: nat) {
    && Inv(s) && !Finished(s) && Uniform(s, w, r) && w >= 1 && r >= 1
    && Current(s).status == Work && Current(s).running && Current(s).currentTime == w
    && (forall j :: s.index < j < |s.pomodori| ==> s.pomodori[j].status != Paused)
  }

  /** When the current pomodoro of a ready session ends, the next one (if any) is ready. */
  lemma AdvanceIsReady(s: Session, w: nat, r: nat)
    requires Ready(s, w, r)
    ensures var c := Current(s);
            var s2 := Update(WithCurrent(s, c.(status := Done, currentTime := 0, running := false)));
            && s2.index == s.index + 1 && |s2.pomodori| == |s.pomodori|
            && (!Finished(s2) ==> Ready(s2, w, r))
  {
  }

  /** `k` repetitions of `d` firings. */
  function Repeated(k: nat, d: nat): nat {
    if k == 0 then 0 else d + Repeated(k - 1, d)
  }

  lemma {:induction false} RepeatedIsProduct(k: nat, d: nat)
    ensures Repeated(k, d) == k * d
  {
    if k > 0 {
      RepeatedIsProduct(k - 1, d);
      assert k * d == d + (k - 1) * d;
    }
  }

  /** Moving from a ready session to the next pomodoro costs `w + r` of the session's firings. */
  lemma {:induction false} NextPomodoro(s: Session, w: nat, r: nat) returns (s2: Session)
    requires Ready(s, w, r)
    ensures s2.index == s.index + 1 && |s2.pomodori| == |s.pomodori|
    ensures !Finished(s2) ==> Ready(s2, w, r)
    ensures Ticks(s, Repeated(|s.pomodori| - s.index, w + r))
         == Ticks(s2, Repeated(|s2.pomodori| - s2.index, w + r))
  {
    var c := Current(s);
    s2 := Update(WithCurrent(s, c.(status := Done, currentTime := 0, running := false)));
    PomodoroRunsOut(s);
    AdvanceIsReady(s, w, r);
    TicksAdd(s, w + r, Repeated(|s2.pomodori| - s2.index, w + r));
  }

  /** A ready session runs each remaining pomodoro through `w` seconds of work and `r` of
      rest, starting each one automatically, and is finished after `(N - index) * (w + r)`
      firings. */
  lemma {:induction false} SessionRuns(s: Session, w: nat, r: nat)
    requires Ready(s, w, r)
    ensures var e := Ticks(s, (|s.pomodori| - s.index) * (w + r));
            Finished(e) && e.index == |e.pomodori| == |s.pomodori|
  {
    RepeatedIsProduct(|s.pomodori| - s.index, w + r);
    RunsToEnd(s, w, r);
  }

  lemma {:induction false} RunsToEnd(s: Session, w: nat, r: nat)
    requires Ready(s, w, r)
    ensures var e := Ticks(s, Repeated(|s.pomodori| - s.index, w + r));
            Finished(e) && e.index == |e.pomodori| == |s.pomodori|
    decreases |s.pomodori| - s.index
  {
    var s2 := NextPomodoro(s, w, r);
    if !Finished(s2) {
      RunsToEnd(s2, w, r);
    } else {
      assert Ticks(s2, 0) == s2;
    }
  }

  /** `reset` and `start` with the default 25 and 5 minutes load 1500 seconds of work. */
  lemma DefaultStart()
    ensures Start(Reset(25.0, 5.0)) == Session(0, [PomodoroValues.Snapshot(Work, 1500, true, 1500, 300)])
  {
    var c := PomodoroValues.Snapshot(Work, 1500, true, 1500, 300);
    assert Current(Start(Reset(25.0, 5.0))) == c;
  }

  /** A one-pomodoro session just started in Work with `w` seconds of work and `r` of rest:
      firing `w` shows "work done" and loads the rest, firing `w + r` shows "pause is over" and
      finishes the session. */
  lemma {:induction false} OnePomodoro(w: nat, r: nat)
    requires w >= 1 && r >= 1
    ensures var s := Session(0, [PomodoroValues.Snapshot(Work, w, true, w, r)]);
            && Ticks(s, w - 1) == Session(0, [PomodoroValues.Snapshot(Work, 1, true, w, r)])
            && Ticks(s, w) == Session(0, [PomodoroValues.Snapshot(Rest, r, true, w, r)])
            && Ticks(s, w + r - 1) == Session(0, [PomodoroValues.Snapshot(Rest, 1, true, w, r)])
            && Finished(Ticks(s, w + r))
  {
    var s := Session(0, [PomodoroValues.Snapshot(Work, w, true, w, r)]);
    CurrentCountDown(s, w - 1);
    assert s.pomodori[0 := PomodoroValues.Snapshot(Work, 1, true, w, r)] == [PomodoroValues.Snapshot(Work, 1, true, w, r)];
    PhaseRunsOut(s);
    assert s.pomodori[0 := PomodoroValues.Snapshot(Rest, r, true, w, r)] == [PomodoroValues.Snapshot(Rest, r, true, w, r)];
    var resting := Session(0, [PomodoroValues.Snapshot(Rest, r, true, w, r)]);
    CurrentCountDown(resting, r - 1);
    assert resting.pomodori[0 := PomodoroValues.Snapshot(Rest, 1, true, w, r)] == [PomodoroValues.Snapshot(Rest, 1, true, w, r)];
    TicksAdd(s, w, r - 1);
    PhaseRunsOut(resting);
    TicksAdd(s, w, r);
  }

  /** After `reset` and `start` with the default 25 and 5 minutes: 1500 firings reach the rest
      phase with 300 seconds loaded, 300 more finish the one-pomodoro session. Firing 1500 is
      the one that shows "work done" and firing 1800 the one that shows "pause is over". */
  lemma DefaultSession()
    ensures var s := Start(Reset(25.0, 5.0));
            && Ticks(s, 1500) == Session(0, [PomodoroValues.Snapshot(Rest, 300, true, 1500, 300)])
            && Finished(Ticks(s, 1800))
    ensures var s := Start(Reset(25.0, 5.0));
            && Ticks(s, 1499) == Session(0, [PomodoroValues.Snapshot(Work, 1, true, 1500, 300)])
            && PomodoroValues.TickNotice(Current(Ticks(s, 1499))) == WorkDone
            && Ticks(s, 1799) == Session(0, [PomodoroValues.Snapshot(Rest, 1, true, 1500, 300)])
            && PomodoroValues.TickNotice(Current(Ticks(s, 1799))) == PauseOver
  {
    DefaultStart();
    OnePomodoro(1500, 300);
  }
}
