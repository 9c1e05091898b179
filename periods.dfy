/** The arithmetic of the period state machine, on values: which duration a
    period loads (the "% 4" rule), the elapsed fraction update_time reports,
    and the events one tick, one countdown and one period switch emit. */
module Periods {
  import opened TimeFormat

  datatype Kind = Work | Break

  /** One session_history entry: {"type", "timestamp", "goal"}. */
  datatype Session = Session(kind: Kind, timestamp: string, goal: string)

  /** The Qt signals the timer emits, in the order it emits them. An update
      is logged by the seconds it reports; Text() is the "mm:ss" string the
      signal carries, from which ParseClock gets the seconds back. */
  datatype Event =
    | Update(seconds: int, fraction: real)   // update_signal(str, float)
    | Finish                                 // finish_signal
    | SessionChange(kind: Kind)              // session_change_signal(str)
    | ResetGoal                              // reset_goal_signal
    | NotifyUser                             // notify_user_signal
  {
    function Text(): string
      requires Update?
    {
      FormatDuration(seconds)
    }
  }

  /** What fixes the active period: its kind, the three durations and the
      session counter (which picks the break length). */
  datatype Period = Period(isWork: bool, work: int, shortBreak: int, longBreak: int, sessionCount: nat)
  {
    predicate WellFormed() { work > 0 && shortBreak > 0 && longBreak > 0 }

    /** The counter parity that reset establishes and switch_period keeps. */
    predicate Alternating() { isWork <==> sessionCount % 2 == 0 }

    function KindOf(): Kind { if isWork then Work else Break }

    /** The break length, picked by "short unless session_count % 4 == 0". */
    function BreakDuration(): int
    {
      if sessionCount % 4 != 0 then shortBreak else longBreak
    }

    function Duration(): int
    {
      if isWork then work else BreakDuration()
    }

    /** The period switch_period moves to. */
    function Next(): (p: Period)
      ensures p.isWork != isWork && p.sessionCount == sessionCount + 1
      ensures (p.work, p.shortBreak, p.longBreak) == (work, shortBreak, longBreak)
    {
      this.(isWork := !isWork, sessionCount := sessionCount + 1)
    }
  }

  /** The fraction update_time reports: (work - current) / work in work,
      1 - current / break in a break. */
  function Fraction(p: Period, current: int): real
    requires p.WellFormed()
  {
    if p.isWork then (p.work - current) as real / p.work as real
    else 1.0 - current as real / p.BreakDuration() as real
  }

  function UpdateEvent(p: Period, current: int): Event
    requires p.WellFormed()
  {
    Update(current, Fraction(p, current))
  }

  /** What one tick that leaves t seconds emits. */
  function TickEvents(p: Period, t: int): seq<Event>
    requires p.WellFormed()
  {
    (if t == 60 && !p.isWork then [NotifyUser] else []) + [UpdateEvent(p, t)]
  }

  /** What the ticks from `from` seconds down to `to` seconds emit. */
  function Countdown(p: Period, from: int, to: int): seq<Event>
    requires p.WellFormed() && to <= from
    decreases from - to
  {
    if to == from then [] else Countdown(p, from, to + 1) + TickEvents(p, to)
  }

  /** What switch_period emits once it has moved to period p. */
  function SwitchEvents(p: Period): seq<Event>
    requires p.WellFormed()
  {
    [UpdateEvent(p, p.Duration()), SessionChange(p.KindOf())] + (if p.isWork then [ResetGoal] else [])
  }

  /** The Update events of a log, in order. */
  function Updates(es: seq<Event>): (us: seq<Event>)
    ensures |us| <= |es|
    ensures forall i :: 0 <= i < |us| ==> us[i].Update?
  {
    if es == [] then []
    else (if es[0].Update? then [es[0]] else []) + Updates(es[1..])
  }

  function NotifyCount(es: seq<Event>): nat
  {
    if es == [] then 0 else (if es[0] == NotifyUser then 1 else 0) + NotifyCount(es[1..])
  }

  // ---------------------------------------------------------------------
  // The "% 4" rule under the parity invariant

  /** With the counter parity, a break always has an odd counter, so it loads
      the short break; the long-break branch is never taken. */
  lemma BreakIsShort(p: Period)
    requires p.Alternating() && !p.isWork
    ensures p.Duration() == p.shortBreak && p.sessionCount % 4 != 0
  {
    OddIsNotMultipleOfFour(p.sessionCount);
  }

  lemma OddIsNotMultipleOfFour(n: nat)
    requires n % 2 == 1
    ensures n % 4 != 0
  {
    var q := n / 4;
    assert n == 4 * q + n % 4;
    assert n - n % 4 == 2 * (2 * q);
  }

  lemma ParityFlips(n: nat)
    ensures (n + 1) % 2 == 0 <==> n % 2 == 1
  {
  }

  lemma AlternatingPreserved(p: Period)
    requires p.Alternating()
    ensures p.Next().Alternating()
  {
    ParityFlips(p.sessionCount);
  }

  /** The period after n switches from p. */
  function After(p: Period, n: nat): Period
  {
    if n == 0 then p else After(p, n - 1).Next()
  }

  /** From the period reset sets up, n switches give counter n, a work period
      exactly when n is even, and every break so reached is a short one. */
  lemma {:induction false} SwitchesFromReset(p: Period, n: nat)
    requires p.isWork && p.sessionCount == 0
    ensures After(p, n).sessionCount == n
    ensures After(p, n).isWork <==> n % 2 == 0
    ensures (After(p, n).work, After(p, n).shortBreak, After(p, n).longBreak) == (p.work, p.shortBreak, p.longBreak)
    ensures !After(p, n).isWork ==> After(p, n).Duration() == p.shortBreak
  {
    if n > 0 {
      SwitchesFromReset(p, n - 1);
      ParityFlips(n - 1);
      if !After(p, n).isWork {
        BreakIsShort(After(p, n));
      }
    }
  }

  /** Four full work/break cycles: the fourth break (seventh switch) is still
      a short one. */
  lemma FourthBreakIsShort(p: Period)
    requires p.isWork && p.sessionCount == 0
    ensures !After(p, 7).isWork && After(p, 7).Duration() == p.shortBreak
  {
    SwitchesFromReset(p, 7);
  }

  // ---------------------------------------------------------------------
  // The elapsed fraction

  /** A quotient of a part by a positive whole lies in [0, 1]. */
  lemma QuotientInUnit(a: real, b: real)
    requires 0.0 <= a <= b && 0.0 < b
    ensures 0.0 <= a / b <= 1.0
  {
  }

  /** Dividing by a positive number keeps the order. */
  lemma QuotientMonotone(a1: real, a2: real, b: real)
    requires a1 <= a2 && 0.0 < b
    ensures a1 / b <= a2 / b
  {
  }

  lemma FractionBounds(p: Period, current: int)
    requires p.WellFormed() && 0 <= current <= p.Duration()
    ensures 0.0 <= Fraction(p, current) <= 1.0
  {
    if p.isWork {
      QuotientInUnit((p.work - current) as real, p.work as real);
    } else {
      QuotientInUnit(current as real, p.BreakDuration() as real);
    }
  }

  lemma FractionEnds(p: Period)
    requires p.WellFormed()
    ensures Fraction(p, p.Duration()) == 0.0
    ensures Fraction(p, 0) == 1.0
  {
    var d := p.Duration() as real;
    assert d / d == 1.0 && 0.0 / d == 0.0;
    if p.isWork {
      assert (p.work - p.Duration()) as real == 0.0 && (p.work - 0) as real == d;
    } else {
      assert p.Duration() as real == p.BreakDuration() as real == d;
    }
  }

  /** Less time left never means less progress. */
  lemma FractionMonotone(p: Period, c1: int, c2: int)
    requires p.WellFormed() && c2 <= c1
    ensures Fraction(p, c1) <= Fraction(p, c2)
  {
    if p.isWork {
      QuotientMonotone((p.work - c1) as real, (p.work - c2) as real, p.work as real);
    } else {
      QuotientMonotone(c2 as real, c1 as real, p.BreakDuration() as real);
    }
  }

  // ---------------------------------------------------------------------
  // The countdown's events

  lemma {:induction false} UpdatesAppend(a: seq<Event>, b: seq<Event>)
    ensures Updates(a + b) == Updates(a) + Updates(b)
  {
    if a == [] {
      assert a + b == b;
    } else {
      assert (a + b)[0] == a[0] && (a + b)[1..] == a[1..] + b;
      UpdatesAppend(a[1..], b);
    }
  }

  lemma {:induction false} NotifyCountAppend(a: seq<Event>, b: seq<Event>)
    ensures NotifyCount(a + b) == NotifyCount(a) + NotifyCount(b)
  {
    if a == [] {
      assert a + b == b;
    } else {
      assert (a + b)[0] == a[0] && (a + b)[1..] == a[1..] + b;
      NotifyCountAppend(a[1..], b);
    }
  }

  /** Each tick emits exactly one Update, for the time it leaves, in order. */
  lemma {:induction false} CountdownUpdates(p: Period, from: int, to: int)
    requires p.WellFormed() && to <= from
    ensures |Updates(Countdown(p, from, to))| == from - to
    ensures forall i :: 0 <= i < from - to ==> Updates(Countdown(p, from, to))[i] == UpdateEvent(p, from - 1 - i)
    decreases from - to
  {
    if to < from {
      var rest, tick := Countdown(p, from, to + 1), TickEvents(p, to);
      var notify: seq<Event> := if to == 60 && !p.isWork then [NotifyUser] else [];
      assert Countdown(p, from, to) == rest + tick && tick == notify + [UpdateEvent(p, to)];
      CountdownUpdates(p, from, to + 1);
      UpdatesAppend(rest, tick);
      UpdatesAppend(notify, [UpdateEvent(p, to)]);
      assert Updates(notify) == [] && Updates([UpdateEvent(p, to)]) == [UpdateEvent(p, to)];
      var us := Updates(rest) + [UpdateEvent(p, to)];
      assert Updates(Countdown(p, from, to)) == us;
      forall i | 0 <= i < from - to
        ensures us[i] == UpdateEvent(p, from - 1 - i)
      {
        if i < from - to - 1 {
          assert us[i] == Updates(rest)[i];
        }
      }
    }
  }

  /** NotifyUser comes once, in a break, exactly when the countdown passes
      through 60 seconds left, and never otherwise. */
  lemma {:induction false} CountdownNotifies(p: Period, from: int, to: int)
    requires p.WellFormed() && to <= from
    ensures NotifyCount(Countdown(p, from, to)) == if !p.isWork && to <= 60 < from then 1 else 0
    decreases from - to
  {
    if to < from {
      CountdownNotifies(p, from, to + 1);
      NotifiesOneTick(p, from, to);
    }
  }

  /** The induction step of CountdownNotifies: one more tick, at `to`. */
  lemma NotifiesOneTick(p: Period, from: int, to: int)
    requires p.WellFormed() && to < from
    requires NotifyCount(Countdown(p, from, to + 1)) == if !p.isWork && to + 1 <= 60 < from then 1 else 0
    ensures NotifyCount(Countdown(p, from, to)) == if !p.isWork && to <= 60 < from then 1 else 0
  {
    var rest, tick := Countdown(p, from, to + 1), TickEvents(p, to);
    var notify: seq<Event> := if to == 60 && !p.isWork then [NotifyUser] else [];
    assert Countdown(p, from, to) == rest + tick && tick == notify + [UpdateEvent(p, to)];
    NotifyCountAppend(rest, tick);
    NotifyCountAppend(notify, [UpdateEvent(p, to)]);
    assert NotifyCount([UpdateEvent(p, to)]) == 0;
    assert NotifyCount(notify) == if to == 60 && !p.isWork then 1 else 0;
  }

  /** Within one period, the reported fractions stay in [0, 1] and never
      decrease. */
  lemma CountdownProgress(p: Period, from: int, to: int)
    requires p.WellFormed() && 0 <= to <= from <= p.Duration()
    ensures forall i, j :: 0 <= i <= j < |Updates(Countdown(p, from, to))| ==>
      0.0 <= Updates(Countdown(p, from, to))[i].fraction <= Updates(Countdown(p, from, to))[j].fraction <= 1.0
  {
    CountdownLength(p, from, to);
    var us := Updates(Countdown(p, from, to));
    forall i, j | 0 <= i <= j < |us|
      ensures 0.0 <= us[i].fraction <= us[j].fraction <= 1.0
    {
      FractionAt(p, from, to, i);
      FractionAt(p, from, to, j);
      FractionBetween(p, from - 1 - i, from - 1 - j);
    }
  }

  lemma CountdownLength(p: Period, from: int, to: int)
    requires p.WellFormed() && to <= from
    ensures |Updates(Countdown(p, from, to))| == from - to
  {
    CountdownUpdates(p, from, to);
  }

  /** The fraction the i-th Update of a countdown carries. */
  lemma FractionAt(p: Period, from: int, to: int, i: int)
    requires p.WellFormed() && to <= from && 0 <= i < from - to
    ensures |Updates(Countdown(p, from, to))| == from - to
    ensures Updates(Countdown(p, from, to))[i].fraction == Fraction(p, from - 1 - i)
  {
    CountdownUpdates(p, from, to);
  }

  lemma FractionBetween(p: Period, c1: int, c2: int)
    requires p.WellFormed() && 0 <= c2 <= c1 <= p.Duration()
    ensures 0.0 <= Fraction(p, c1) <= Fraction(p, c2) <= 1.0
  {
    FractionBounds(p, c1);
    FractionBounds(p, c2);
    FractionMonotone(p, c1, c2);
  }

  /** A full countdown's last event shows "00:00" with fraction 1. */
  lemma CountdownEndsAtZero(p: Period, from: int)
    requires p.WellFormed() && 0 < from
    ensures var es := Countdown(p, from, 0);
      |es| > 0 && es[|es| - 1] == Update(0, 1.0) && es[|es| - 1].Text() == "00:00"
  {
    assert Countdown(p, from, 0) == Countdown(p, from, 1) + TickEvents(p, 0);
    FractionEnds(p);
    assert FormatDuration(0) == "00:00";
  }

  /** The string an update carries tells the seconds it reports. */
  lemma UpdateTextRoundTrip(e: Event)
    requires e.Update?
    ensures ParseClock(e.Text()) == Some(e.seconds)
  {
    ClockRoundTrip(e.seconds);
  }
}
