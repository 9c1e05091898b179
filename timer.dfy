/** PomodoroTimer: the controller object whose fields the GUI reads and whose
    methods it calls. The Qt signals are recorded in the ghost log `events`;
    time.ctime() stamps are passed in as `now`. */
module Timer {
  import opened TimeFormat
  import opened Periods

  const DefaultWork: int := 1500
  const DefaultShortBreak: int := 300
  const DefaultLongBreak: int := 900

  /** How a call to toggle ends: normally, or with the TypeError raised by its
      resume branch calling start_timer() without the goal argument. */
  datatype Outcome = Returned | MissingGoalArgument

  class PomodoroTimer {
    var workDuration: int
    var shortBreakDuration: int
    var longBreakDuration: int
    var isRunning: bool
    var goal: string
    var sessionHistory: seq<Session>
    var currentTime: int
    var isWorkPeriod: bool
    var sessionCount: nat
    ghost var events: seq<Event>

    function ActivePeriod(): Period
      reads this
    {
      Period(isWorkPeriod, workDuration, shortBreakDuration, longBreakDuration, sessionCount)
    }

    /** Positive durations, the counter parity, and the time left within the
        active period's duration. */
    ghost predicate Valid()
      reads this
    {
      ActivePeriod().WellFormed() && ActivePeriod().Alternating() &&
      0 <= currentTime <= ActivePeriod().Duration()
    }

    /** __init__: the fields, then reset(). */
    constructor (work: int, shortBreak: int, longBreak: int)
      requires work > 0 && shortBreak > 0 && longBreak > 0
      ensures Valid()
      ensures workDuration == work && shortBreakDuration == shortBreak && longBreakDuration == longBreak
      ensures !isRunning && goal == "" && sessionHistory == []
      ensures currentTime == work && isWorkPeriod && sessionCount == 0
      ensures events == [UpdateEvent(ActivePeriod(), currentTime)]
    {
      workDuration, shortBreakDuration, longBreakDuration := work, shortBreak, longBreak;
      isRunning, goal, sessionHistory := false, "", [];
      currentTime, isWorkPeriod, sessionCount := 0, true, 0;
      events := [];
      new;
      Reset();
    }

    /** __init__ with its default arguments. */
    constructor Default()
      ensures Valid()
      ensures workDuration == DefaultWork && shortBreakDuration == DefaultShortBreak
      ensures longBreakDuration == DefaultLongBreak
      ensures !isRunning && goal == "" && sessionHistory == []
      ensures currentTime == DefaultWork && isWorkPeriod && sessionCount == 0
      ensures events == [UpdateEvent(ActivePeriod(), currentTime)]
    {
      workDuration, shortBreakDuration, longBreakDuration := DefaultWork, DefaultShortBreak, DefaultLongBreak;
      isRunning, goal, sessionHistory := false, "", [];
      currentTime, isWorkPeriod, sessionCount := 0, true, 0;
      events := [];
      new;
      Reset();
    }

    /** update_time: report the time left and the elapsed fraction. */
    method UpdateTime()
      requires ActivePeriod().WellFormed()
      modifies this`events
      ensures events == old(events) + [UpdateEvent(ActivePeriod(), currentTime)]
    {
      events := events + [UpdateEvent(ActivePeriod(), currentTime)];
    }

    /** reset: back to the start of a first work period; the running flag, the
        goal and the history are left alone. Works from any durations that are
        positive, and establishes the invariant. */
    method Reset()
      requires ActivePeriod().WellFormed()
      modifies this`currentTime, this`sessionCount, this`isWorkPeriod, this`events
      ensures Valid()
      ensures currentTime == workDuration && sessionCount == 0 && isWorkPeriod
      ensures events == old(events) + [UpdateEvent(ActivePeriod(), currentTime)]
      ensures Fraction(ActivePeriod(), currentTime) == 0.0
    {
      currentTime := workDuration;
      sessionCount := 0;
      isWorkPeriod := true;
      UpdateTime();
      FractionEnds(ActivePeriod());
    }

    /** set_durations: replace the three durations, then reset. */
    method SetDurations(work: int, shortBreak: int, longBreak: int)
      requires work > 0 && shortBreak > 0 && longBreak > 0
      modifies this`workDuration, this`shortBreakDuration, this`longBreakDuration
      modifies this`currentTime, this`sessionCount, this`isWorkPeriod, this`events
      ensures Valid()
      ensures workDuration == work && shortBreakDuration == shortBreak && longBreakDuration == longBreak
      ensures currentTime == work && sessionCount == 0 && isWorkPeriod
      ensures events == old(events) + [UpdateEvent(ActivePeriod(), currentTime)]
    {
      workDuration := work;
      shortBreakDuration := shortBreak;
      longBreakDuration := longBreak;
      Reset();
    }

    /** toggle: flip the running flag; when that makes it run, the call
        start_timer() lacks its goal argument and raises, leaving the flag set
        and nothing else changed. */
    method Toggle() returns (outcome: Outcome)
      modifies this`isRunning
      ensures isRunning == !old(isRunning)
      ensures outcome == if isRunning then MissingGoalArgument else Returned
    {
      isRunning := !isRunning;
      if isRunning {
        outcome := MissingGoalArgument;
      } else {
        outcome := Returned;
      }
    }

    /** start_timer: run with the given goal and log a "Work" entry, whatever
        the period; the countdown itself is RunTimer. */
    method StartTimer(newGoal: string, now: string)
      requires Valid()
      modifies this`isRunning, this`goal, this`sessionHistory, this`events
      ensures Valid()
      ensures isRunning && goal == newGoal
      ensures sessionHistory == old(sessionHistory) + [Session(Work, now, newGoal)]
      ensures events == old(events) + [SessionChange(Work), UpdateEvent(ActivePeriod(), currentTime)]
    {
      isRunning := true;
      goal := newGoal;
      sessionHistory := sessionHistory + [Session(Work, now, goal)];
      events := events + [SessionChange(Work)];
      UpdateTime();
    }

    /** One pass of run_timer's loop body: one second less, a NotifyUser when
        a break has a minute left, and an update. */
    method Tick()
      requires Valid() && currentTime > 0
      modifies this`currentTime, this`events
      ensures Valid()
      ensures currentTime == old(currentTime) - 1
      ensures events == old(events) + TickEvents(ActivePeriod(), currentTime)
      ensures Fraction(ActivePeriod(), old(currentTime)) <= Fraction(ActivePeriod(), currentTime)
    {
      currentTime := currentTime - 1;
      if currentTime == 60 && !isWorkPeriod {
        events := events + [NotifyUser];
      }
      UpdateTime();
      FractionMonotone(ActivePeriod(), old(currentTime), currentTime);
    }

    /** switch_period: flip the period, count it, log it and load its
        duration. Under the invariant a break always loads the short break. */
    method SwitchPeriod(now: string)
      requires Valid()
      modifies this`isWorkPeriod, this`sessionCount, this`sessionHistory, this`currentTime, this`events
      ensures Valid()
      ensures ActivePeriod() == old(ActivePeriod()).Next()
      ensures sessionHistory == old(sessionHistory) + [Session(ActivePeriod().KindOf(), now, goal)]
      ensures currentTime == ActivePeriod().Duration()
      ensures currentTime == if isWorkPeriod then workDuration else shortBreakDuration
      ensures events == old(events) + SwitchEvents(ActivePeriod())
    {
      isWorkPeriod := !isWorkPeriod;
      sessionCount := sessionCount + 1;
      assert ActivePeriod() == old(ActivePeriod()).Next();
      AlternatingPreserved(old(ActivePeriod()));
      var sessionType := if isWorkPeriod then Work else Break;
      sessionHistory := sessionHistory + [Session(sessionType, now, goal)];
      if !isWorkPeriod {
        currentTime := if sessionCount % 4 != 0 then shortBreakDuration else longBreakDuration;
      } else {
        currentTime := workDuration;
      }
      if !isWorkPeriod {
        BreakIsShort(ActivePeriod());
      }
      assert currentTime == ActivePeriod().Duration();
      ghost var update := UpdateEvent(ActivePeriod(), currentTime);
      UpdateTime();
      events := events + [SessionChange(sessionType)];
      if isWorkPeriod {
        events := events + [ResetGoal];
      }
      assert SwitchEvents(ActivePeriod()) == [update, SessionChange(sessionType)] + (if isWorkPeriod then [ResetGoal] else []);
    }

    /** run_timer, for one period: count down while running, then, if the
        count reached zero still running, finish and switch. */
    method RunTimer(now: string)
      requires Valid()
      modifies this`currentTime, this`isWorkPeriod, this`sessionCount, this`sessionHistory, this`events
      ensures Valid()
      ensures !old(isRunning) ==> unchanged(this)
      ensures old(isRunning) ==>
        && ActivePeriod() == old(ActivePeriod()).Next()
        && currentTime == ActivePeriod().Duration()
        && sessionHistory == old(sessionHistory) + [Session(ActivePeriod().KindOf(), now, goal)]
        && events == old(events) + Countdown(old(ActivePeriod()), old(currentTime), 0) + [Finish]
                                 + SwitchEvents(ActivePeriod())
    {
      ghost var p := ActivePeriod();
      while currentTime > 0 && isRunning
        invariant Valid() && ActivePeriod() == p
        invariant 0 <= currentTime <= old(currentTime)
        invariant !isRunning ==> currentTime == old(currentTime)
        invariant events == old(events) + Countdown(p, old(currentTime), currentTime)
        invariant sessionHistory == old(sessionHistory)
        decreases currentTime
      {
        Tick();
      }
      if currentTime == 0 && isRunning {
        events := events + [Finish];
        SwitchPeriod(now);
      }
    }
  }

  /** The worked example of a 2-second work period and 1-second breaks: two
      ticks end the work period and load the short break, one more tick brings
      work back with a goal reset; a pause between ticks holds the time, and
      resuming through start_timer logs another "Work" entry. */
  method WorkedExample()
  {
    var t := new PomodoroTimer(2, 1, 3);
    t.StartTimer("write spec", "t0");
    t.RunTimer("t1");
    assert t.sessionCount == 1 && !t.isWorkPeriod && t.currentTime == 1;
    t.RunTimer("t2");
    assert t.sessionCount == 2 && t.isWorkPeriod && t.currentTime == 2;
    assert t.events[|t.events| - 1] == ResetGoal;
    assert |t.sessionHistory| == 3;

    t.Tick();
    var outcome := t.Toggle();
    assert outcome == Returned && !t.isRunning;
    t.RunTimer("t3");
    assert t.currentTime == 1 && |t.sessionHistory| == 3;
    t.StartTimer("write spec", "t4");
    assert t.currentTime == 1 && |t.sessionHistory| == 4;
  }
}
