/** The session manager: a cursor over a list of pomodori that it rebuilds on reset. */
module Managers {
  import opened Statuses
  import opened Pomodori
  import PomodoroValues
  import Sessions
  import Display

  /** The pomodori of a list and their timers. */
  function Objects(ps: seq<Pomodoro>): set<object> {
    (set p | p in ps :: p as object) + (set p | p in ps :: p.timer as object)
  }

  lemma InObjects(ps: seq<Pomodoro>, i: nat)
    requires i < |ps|
    ensures ps[i] in Objects(ps) && ps[i].timer in Objects(ps)
  {
    assert ps[i] in ps;
  }

  ghost function Snapshots(ps: seq<Pomodoro>): (r: seq<PomodoroValues.Snapshot>)
    reads Objects(ps)
    ensures |r| == |ps| && forall i :: 0 <= i < |ps| ==> r[i] == ps[i].State()
  {
    seq(|ps|, i requires 0 <= i < |ps| reads Objects(ps) => InObjects(ps, i); ps[i].State())
  }

  class PomodoroManager {
    var index: nat
    var pomodori: seq<Pomodoro>
    /** Minutes of work and of rest each new pomodoro gets. */
    const workTime: real
    const pauseTime: real
    ghost var Repr: set<object>

    /** The footprint is this manager, its pomodori and their timers, all distinct. */
    ghost predicate Wellformed()
      reads this, Repr
    {
      && this in Repr
      && Repr == {this} + Objects(pomodori)
      && (forall i, j :: 0 <= i < j < |pomodori| ==>
            pomodori[i] != pomodori[j] && pomodori[i].timer != pomodori[j].timer)
    }

    /** The value this manager stands for. */
    ghost function State(): Sessions.Session
      reads this, Repr
      requires Wellformed()
    {
      Sessions.Session(index, Snapshots(pomodori))
    }

    ghost predicate Valid()
      reads this, Repr
    {
      Wellformed() && Sessions.Inv(State())
    }

    /** Minutes of work and of rest, 25 and 5 by default. */
    constructor (workTime: real := 25.0, pauseTime: real := 5.0)
      ensures Valid() && fresh(Repr)
      ensures this.workTime == workTime && this.pauseTime == pauseTime
      ensures State() == Sessions.Reset(workTime, pauseTime)
    {
      this.workTime := workTime;
      this.pauseTime := pauseTime;
      index := 0;
      pomodori := [];
      Repr := {this};
      new;
      Reset();
    }

    /** `isSessionFinished`: whether the session's value is finished. */
    predicate IsSessionFinished(): (b: bool)
      reads this, Repr
      ensures Valid() ==> (b <==> Sessions.Finished(State()))
    {
      index >= |pomodori|
    }

    /** `currentPomodoro`: an object of the footprint whose value is the session's current
        pomodoro. */
    function CurrentPomodoro(): (p: Pomodoro)
      reads this, Repr
      requires !IsSessionFinished()
      ensures Valid() ==> p in Repr && p.timer in Repr && p.State() == Sessions.Current(State())
    {
      InObjects(pomodori, index);
      pomodori[index]
    }

    /** The current pomodoro is the only object an operation on it changes. */
    twostate lemma OnlyCurrentChanged(m: PomodoroManager)
      requires old(m.Wellformed()) && m.Wellformed()
      requires m.index == old(m.index) < |m.pomodori| && m.pomodori == old(m.pomodori)
      requires forall j :: 0 <= j < |m.pomodori| && j != m.index ==>
                 unchanged(m.pomodori[j], m.pomodori[j].timer)
      ensures m.State() == Sessions.WithCurrent(old(m.State()), m.pomodori[m.index].State())
    {
    }

    /** `update`: moves past a pomodoro that is Done and starts the next one, if any. */
    method Update()
      requires Valid() && !IsSessionFinished()
      modifies Repr
      ensures Valid() && Repr == old(Repr)
      ensures State() == Sessions.Update(old(State()))
    {
      if CurrentPomodoro().status == Done {
        index := index + 1;
        if !IsSessionFinished() {
          Start();
        }
      }
    }

    /** `start`: rewinds a finished session, then starts the current pomodoro in Work. */
    method Start()
      requires Valid()
      modifies Repr
      ensures Valid() && Repr == old(Repr)
      ensures State() == Sessions.Start(old(State()))
    {
      if IsSessionFinished() {
        index := 0;
      }
      label Rewound:
      var p := pomodori[index];
      InObjects(pomodori, index);
      p.Start();
      OnlyCurrentChanged@Rewound(this);
    }

    /** `pause`: pauses the current pomodoro, then runs `update`. */
    method Pause()
      requires Valid() && !IsSessionFinished()
      modifies Repr
      ensures Valid() && Repr == old(Repr)
      ensures State() == Sessions.Pause(old(State()))
    {
      var p := CurrentPomodoro();
      InObjects(pomodori, index);
      p.Pause();
      OnlyCurrentChanged(this);
      Update();
    }

    /** `reset`: the cursor back to 0 and the list rebuilt as one fresh pomodoro. */
    method Reset()
      modifies this
      ensures Valid() && fresh(Repr - {this})
      ensures State() == Sessions.Reset(workTime, pauseTime)
    {
      index := 0;
      pomodori := [];
      var p := new Pomodoro(workTime * 60.0, pauseTime * 60.0);
      pomodori := pomodori + [p];
      Repr := {this, p, p.timer};
      assert Objects(pomodori) == {p, p.timer} by {
        InObjects(pomodori, 0);
      }
    }

    /** `dispose`: stops the current pomodoro. */
    method Dispose()
      requires Valid() && !IsSessionFinished()
      modifies Repr
      ensures Valid() && Repr == old(Repr)
      ensures State() == Sessions.Dispose(old(State()))
    {
      var p := CurrentPomodoro();
      InObjects(pomodori, index);
      p.Dispose();
      OnlyCurrentChanged(this);
    }

    /** One firing of the current pomodoro's timer, then the hook `start` installs, which runs
        `update` (and `draw`, see `Draw`). */
    method Tick() returns (notice: Notice)
      requires Valid() && !IsSessionFinished() && CurrentPomodoro().timer.running
      modifies Repr
      ensures Valid() && Repr == old(Repr)
      ensures State() == Sessions.Tick(old(State()))
      ensures notice == PomodoroValues.TickNotice(Sessions.Current(old(State())))
    {
      var p := CurrentPomodoro();
      InObjects(pomodori, index);
      notice := p.Tick();
      OnlyCurrentChanged(this);
      Update();
    }

    /** The text `draw` puts in the status bar, and whether it asks for a longer break. */
    method Draw() returns (text: string, longerBreak: bool)
      requires Valid()
      ensures text == Display.StatusBarText(State())
      ensures longerBreak == Display.LongerBreakNotice(State())
    {
      if IsSessionFinished() {
        text := "Restart session?";
        longerBreak := |pomodori| > 1;
      } else {
        var p := CurrentPomodoro();
        text := Display.ClockText(p.timer.currentTime) + Display.StateSuffix(p.status)
                + Display.ProgressSuffix(index, |pomodori|);
        longerBreak := false;
      }
    }
  }
}
