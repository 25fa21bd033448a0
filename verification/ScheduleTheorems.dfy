/**
Calendar triggers under clock changes, schedules with dates, and the fires that
asking again and again enumerates.
*/
module ScheduleTheorems {
  import opened Text
  import opened Trigger
  import opened IntervalTheorems
  import opened Schedule

  // ---- zones with clock changes ----

  /** What a local time resolves to are instants that show that local time. */
  ghost predicate Consistent(z: Zone) {
    forall l :: Shows(z, l, z.resolve(l))
  }

  predicate Shows(z: Zone, l: int, r: LocalResult) {
    match r
    case Single(t) => Local(z, t) == l
    case Ambiguous(first, second) => first < second && Local(z, first) == l && Local(z, second) == l
    case Gap => true
  }

  /** From this moment on, the clock never shows an earlier date than it has shown. */
  ghost predicate DatesAdvance(z: Zone, from: int) {
    forall t, u :: t <= u && from <= u ==> DateOf(z, t) <= DateOf(z, u)
  }

  /** A gap at this time of day is over an hour later, on the same date. */
  predicate GapClosed(z: Zone, date: int, at: int) {
    z.resolve(date * DAY + at).Gap? ==> z.resolve(date * DAY + at + HOUR).Single? && at + HOUR < DAY
  }

  /** Clock changes from this moment's date on are as a calendar trigger at this time needs them. */
  ghost predicate Orderly(z: Zone, at: int, from: int) {
    && DatesAdvance(z, from) && 0 <= at < DAY
    && (forall l :: l >= DateOf(z, from) * DAY ==> Shows(z, l, z.resolve(l)))
    && forall date :: date >= DateOf(z, from) ==> GapClosed(z, date, at)
  }

  /** One autumn day: at 03:00 local time, an hour after instant 0, the clock goes back to 02:00. */
  const AUTUMN: Zone := Zone(
    t => if t < HOUR then 2 * HOUR else HOUR,
    l => if l < 2 * HOUR then Single(l - 2 * HOUR)
         else if l < 3 * HOUR then Ambiguous(l - 2 * HOUR, l - HOUR)
         else Single(l - HOUR))

  lemma ChangedDates(t: int, u: int)
    requires t <= u
    ensures DateOf(AUTUMN, t) <= DateOf(AUTUMN, u) && DateOf(SPRING, t) <= DateOf(SPRING, u)
  {
    if t < HOUR <= u && Local(AUTUMN, t) > Local(AUTUMN, u) {
      assert 2 * HOUR <= Local(AUTUMN, u) < Local(AUTUMN, t) < 3 * HOUR;
    }
  }

  /** A spring and an autumn change as Berlin has them are orderly at every time of day. */
  lemma ChangesAreOrderly(at: int, from: int)
    requires 0 <= at < DAY
    ensures Orderly(SPRING, at, from) && Orderly(AUTUMN, at, from)
  {
    forall t, u | t <= u ensures DateOf(AUTUMN, t) <= DateOf(AUTUMN, u) && DateOf(SPRING, t) <= DateOf(SPRING, u) {
      ChangedDates(t, u);
    }
    assert DatesAdvance(SPRING, from) && DatesAdvance(AUTUMN, from);
    hide DatesAdvance;
    forall date ensures GapClosed(SPRING, date, at) {
      var l := date * DAY + at;
      if SPRING.resolve(l).Gap? {
        assert l / DAY == date && l / DAY == 0;
      }
    }
  }

  /** Every date has its fire time, on that date. */
  lemma FiresOnItsDate(z: Zone, date: int, at: int, from: int)
    requires Orderly(z, at, from) && date >= DateOf(z, from)
    ensures FireAt(z, date, at).Some? && DateOf(z, FireAt(z, date, at).value) == date
  {
    assert GapClosed(z, date, at);
    assert Shows(z, date * DAY + at, z.resolve(date * DAY + at));
    assert Shows(z, date * DAY + at + HOUR, z.resolve(date * DAY + at + HOUR));
  }

  /** No instant shows a local time but those that it resolves to. */
  ghost predicate Complete(z: Zone) {
    forall t :: t in Instants(z.resolve(Local(z, t)))
  }

  function Instants(r: LocalResult): set<int> {
    match r
    case Single(t) => {t}
    case Ambiguous(first, second) => {first, second}
    case Gap => {}
  }

  ghost predicate Shown(z: Zone, l: int) {
    exists t :: Local(z, t) == l
  }

  /** The first instant that shows the local time, or one that shows an hour later when none shows it. */
  ghost predicate FirstShowing(z: Zone, l: int, t: int) {
    if Shown(z, l) then Local(z, t) == l && forall u :: Local(z, u) == l ==> t <= u else Local(z, t) == l + HOUR
  }

  /** A repeated time fires at its first occurrence, a skipped one an hour later. */
  lemma FiresAtFirstShowing(z: Zone, date: int, at: int)
    requires Consistent(z) && Complete(z) && FireAt(z, date, at).Some?
    ensures FirstShowing(z, date * DAY + at, FireAt(z, date, at).value)
  {
    ResolvesToFirst(z, date * DAY + at);
  }

  /** And midnight, from which slots are counted, is the first instant that shows it. */
  lemma DayStartsAtFirstShowing(z: Zone, date: int)
    requires Consistent(z) && Complete(z) && MidnightResolves(z, date)
    ensures FirstShowing(z, date * DAY, DayStart(z, date))
  {
    ResolvesToFirst(z, date * DAY);
  }

  lemma ResolvesToFirst(z: Zone, l: int)
    requires Consistent(z) && Complete(z)
    ensures match z.resolve(l)
            case Single(t) => FirstShowing(z, l, t)
            case Ambiguous(first, _) => FirstShowing(z, l, first)
            case Gap => !Shown(z, l) && forall t :: z.resolve(l + HOUR) == Single(t) ==> FirstShowing(z, l, t)
  {
    assert Shows(z, l, z.resolve(l)) && Shows(z, l + HOUR, z.resolve(l + HOUR));
    forall t | Local(z, t) == l ensures t in Instants(z.resolve(l)) {
    }
  }

  lemma OneFirstShowing(z: Zone, date: int, at: int, t: int)
    requires Consistent(z) && Complete(z) && GapClosed(z, date, at)
    ensures FireAt(z, date, at) == Some(t) <==> FirstShowing(z, date * DAY + at, t)
  {
    var l := date * DAY + at;
    ResolvesToFirst(z, l);
    assert Shows(z, l, z.resolve(l)) && Shows(z, l + HOUR, z.resolve(l + HOUR));
    if FirstShowing(z, l, t) {
      assert t in Instants(z.resolve(Local(z, t)));
    }
  }

  /** A date on which the time names no instant, nor the hour after it a single one, is passed over. */
  lemma NoInstantNoFire(z: Zone, trig: Trigger, date: int, now: int)
    requires trig.Calendar? && FireAt(z, date, trig.at).None?
    ensures !Taken(z, trig, date, now) && forall t :: DateOf(z, t) == date ==> !IsFire(z, trig, t)
  {
  }

  /** What a calendar trigger fires at: on its weekdays, when the clock first shows its time, or an hour after a skipped one. */
  lemma CalendarFireIsMeant(z: Zone, trig: Trigger, t: int)
    requires trig.Calendar? && Consistent(z) && Complete(z) && GapClosed(z, DateOf(z, t), trig.at)
    ensures IsFire(z, trig, t) <==>
            && (trig.days == {} || exists w :: w in trig.days && FallsOn(DateOf(z, t), w))
            && FirstShowing(z, DateOf(z, t) * DAY + trig.at, t)
  {
    var date := DateOf(z, t);
    OneFirstShowing(z, date, trig.at, t);
    WeekdayFalls(date, WeekdayOf(date));
    forall w | FallsOn(date, w) ensures WeekdayOf(date) == w {
      WeekdayFalls(date, w);
    }
    hide FireAt, FirstShowing, FallsOn, WeekdayOf;
  }

  /** The search over dates stops at the first date whose fire is still to come. */
  lemma {:induction false} CalendarStops(z: Zone, trig: Trigger, now: int, offset: nat, date: int) returns (d: int)
    requires trig.Calendar? && DateOf(z, now) + offset <= date <= DateOf(z, now) + 7
    requires Taken(z, trig, date, now)
    ensures DateOf(z, now) + offset <= d <= date && Taken(z, trig, d, now)
    ensures CalendarFrom(z, trig, now, offset) == Candidate(z, d, trig.at, now)
    ensures forall e :: DateOf(z, now) + offset <= e < d ==> !Taken(z, trig, e, now)
    decreases 8 - offset
  {
    if Taken(z, trig, DateOf(z, now) + offset, now) {
      d := DateOf(z, now) + offset;
    } else {
      d := CalendarStops(z, trig, now, offset + 1, date);
    }
  }

  /**
  Whatever the clock changes from now on, a calendar trigger's answer is its first fire
  after now; it lies within seven days, so the code after the search is never reached.
  */
  lemma CalendarKeepsPromise(z: Zone, trig: Trigger, now: int)
    requires trig.Calendar? && Orderly(z, trig.at, now)
    ensures KeepsPromise(z, trig, now)
    ensures DateOf(z, now) <= DateOf(z, NextCalendar(z, trig, now)) <= DateOf(z, now) + 7
  {
    var date := AllowedWithinWeek(trig.days, DateOf(z, now));
    LaterDateTaken(z, trig, now, date);
    var d := CalendarStops(z, trig, now, 0, date);
    FiresOnItsDate(z, d, trig.at, now);
    var r := NextCalendar(z, trig, now);
    forall t {:trigger IsFire(z, trig, t)} | now < t < r ensures !IsFire(z, trig, t) {
      BetweenIsNoFire(z, trig, now, t, d);
    }
  }

  lemma LaterDateTaken(z: Zone, trig: Trigger, now: int, date: int)
    requires trig.Calendar? && Orderly(z, trig.at, now)
    requires date > DateOf(z, now) && Allows(trig.days, WeekdayOf(date))
    ensures Taken(z, trig, date, now)
  {
    FiresOnItsDate(z, date, trig.at, now);
    var t := FireAt(z, date, trig.at).value;
    assert t <= now ==> DateOf(z, t) <= DateOf(z, now);
  }

  lemma BetweenIsNoFire(z: Zone, trig: Trigger, now: int, t: int, d: int)
    requires trig.Calendar? && Orderly(z, trig.at, now)
    requires now < t && DateOf(z, now) <= d && FireAt(z, d, trig.at).Some? && t < FireAt(z, d, trig.at).value
    requires forall e :: DateOf(z, now) <= e < d ==> !Taken(z, trig, e, now)
    ensures !IsFire(z, trig, t)
  {
    FiresOnItsDate(z, d, trig.at, now);
    var e := DateOf(z, t);
    assert DateOf(z, now) <= e <= d;
    assert e < d ==> !Taken(z, trig, e, now);
  }

  lemma OrderlyLater(z: Zone, at: int, from: int, now: int)
    requires Orderly(z, at, from) && from <= now
    ensures Orderly(z, at, now)
  {
    assert DateOf(z, from) <= DateOf(z, now);
  }

  // ---- schedules ----

  /** With nothing to fire in the second before its first midnight, a schedule answers right. */
  lemma ScheduleAnswersRight(z: Zone, s: Schedule, now: int)
    requires BoundsResolve(z, s) && KeepsPromise(z, s.trigger, Anchor(z, s, now)) && QuietBeforeStart(z, s)
    ensures AnswersRight(z, s, now, NextActiveFire(z, s, now))
  {
    var next := NextFireAfter(z, s.trigger, Anchor(z, s, now));
    forall u | Active(z, s, u) && u > now ensures next <= u {
      assert IsFire(z, s.trigger, u);
    }
  }

  /** A fire in that second is returned in place of the first active one. */
  lemma EarlyFireIsReturned(z: Zone, s: Schedule, t: int)
    requires BoundsResolve(z, s) && s.startDate.Some?
    requires s.endDate.Some? ==> StartInstant(z, s) <= EndInstant(z, s)
    requires KeepsPromise(z, s.trigger, StartInstant(z, s) - SECOND)
    requires StartInstant(z, s) - SECOND < t < StartInstant(z, s) && IsFire(z, s.trigger, t)
    ensures var now := StartInstant(z, s) - SECOND;
            Anchor(z, s, now) == now && !AnswersRight(z, s, now, NextActiveFire(z, s, now))
  {
  }

  /** The trigger keeps its promise wherever the schedule asks it. */
  ghost predicate TriggerAnswers(z: Zone, s: Schedule)
    requires BoundsResolve(z, s)
  {
    forall now :: KeepsPromise(z, s.trigger, Anchor(z, s, now))
  }

  /**
  The start date is honoured at every moment exactly when the trigger has no fire
  in the second before it: the source steps back one second from midnight.
  */
  lemma StartDateCondition(z: Zone, s: Schedule)
    requires BoundsResolve(z, s) && TriggerAnswers(z, s)
    requires s.startDate.Some? && s.endDate.Some? ==> StartInstant(z, s) <= EndInstant(z, s)
    ensures (forall now :: AnswersRight(z, s, now, NextActiveFire(z, s, now))) <==> QuietBeforeStart(z, s)
  {
    hide IsFire, NextFireAfter, Active;
    if QuietBeforeStart(z, s) {
      forall now ensures AnswersRight(z, s, now, NextActiveFire(z, s, now)) {
        ScheduleAnswersRight(z, s, now);
      }
    } else {
      var t :| StartInstant(z, s) - SECOND < t < StartInstant(z, s) && IsFire(z, s.trigger, t);
      var now := StartInstant(z, s) - SECOND;
      assert KeepsPromise(z, s.trigger, Anchor(z, s, now));
      EarlyFireIsReturned(z, s, t);
    }
  }

  /** Before this instant the clock shows less than at it, and after it more. */
  ghost predicate Splits(z: Zone, b: int) {
    forall t :: (t < b ==> Local(z, t) < Local(z, b)) && (b < t ==> Local(z, b) < Local(z, t))
  }

  ghost predicate BoundsSplit(z: Zone, s: Schedule)
    requires BoundsResolve(z, s)
  {
    (s.startDate.Some? ==> Splits(z, StartInstant(z, s))) && (s.endDate.Some? ==> Splits(z, EndInstant(z, s)))
  }

  /** A schedule's fires are those of its trigger on its dates, up to 23:59:59 of the last. */
  lemma ActiveByDate(z: Zone, s: Schedule, t: int)
    requires Consistent(z) && BoundsResolve(z, s) && BoundsSplit(z, s)
    ensures Active(z, s, t) <==>
            && IsFire(z, s.trigger, t)
            && (s.startDate.Some? ==> s.startDate.value <= DateOf(z, t))
            && (s.endDate.Some? ==>
                  || DateOf(z, t) < s.endDate.value
                  || (DateOf(z, t) == s.endDate.value && TimeOf(z, t) <= 86399 * SECOND))
  {
    hide IsFire;
    DateBounds(Local(z, t));
    if s.startDate.Some? {
      assert Shows(z, s.startDate.value * DAY, z.resolve(s.startDate.value * DAY));
      FromDate(Local(z, t), s.startDate.value);
    }
    if s.endDate.Some? {
      var l := s.endDate.value * DAY + DAY - SECOND;
      assert Shows(z, l, z.resolve(l));
      UpToDate(Local(z, t), s.endDate.value);
    }
  }

  lemma FromDate(l: int, date: int)
    ensures date * DAY <= l <==> date <= l / DAY
  {
    DateBounds(l);
  }

  lemma UpToDate(l: int, date: int)
    ensures l <= date * DAY + DAY - SECOND <==> l / DAY < date || (l / DAY == date && l % DAY <= 86399 * SECOND)
  {
    DateBounds(l);
  }

  /** So every fire at a whole second of the dates is active, those of the last date included. */
  lemma WholeSecondsActive(z: Zone, s: Schedule, t: int)
    requires Consistent(z) && BoundsResolve(z, s) && BoundsSplit(z, s)
    requires IsFire(z, s.trigger, t) && TimeOf(z, t) % SECOND == 0
    ensures Active(z, s, t) <==>
            && (s.startDate.Some? ==> s.startDate.value <= DateOf(z, t))
            && (s.endDate.Some? ==> DateOf(z, t) <= s.endDate.value)
  {
    ActiveByDate(z, s, t);
    LastWholeSecond(TimeOf(z, t));
    hide IsFire, Active, TimeOf, DateOf;
  }

  lemma LastWholeSecond(x: int)
    requires 0 <= x < DAY && x % SECOND == 0
    ensures x <= 86399 * SECOND
  {
  }

  ghost predicate WholeSeconds(z: Zone) {
    forall t :: z.offset(t) % SECOND == 0
  }

  lemma StartIsWhole(z: Zone, s: Schedule)
    requires Consistent(z) && WholeSeconds(z) && BoundsResolve(z, s) && s.startDate.Some?
    ensures StartInstant(z, s) % SECOND == 0
  {
    assert Shows(z, s.startDate.value * DAY, z.resolve(s.startDate.value * DAY));
  }

  lemma WholeFiresAreQuiet(z: Zone, s: Schedule)
    requires Consistent(z) && WholeSeconds(z) && BoundsResolve(z, s)
    requires forall t :: IsFire(z, s.trigger, t) ==> t % SECOND == 0
    ensures QuietBeforeStart(z, s)
  {
    hide IsFire;
    if s.startDate.Some? {
      StartIsWhole(z, s);
    }
  }

  /** Interval fires lie on whole seconds from midnight, so in zones with whole-second offsets they are quiet. */
  lemma IntervalIsQuiet(z: Zone, s: Schedule)
    requires Consistent(z) && WholeSeconds(z) && BoundsResolve(z, s) && s.trigger.Interval?
    ensures QuietBeforeStart(z, s)
  {
    forall t | IsFire(z, s.trigger, t) ensures t % SECOND == 0 {
      IntervalFireIsWhole(z, s.trigger, t);
    }
    WholeFiresAreQuiet(z, s);
  }

  lemma IntervalFireIsWhole(z: Zone, trig: Trigger, t: int)
    requires WholeSeconds(z) && trig.Interval? && IsFire(z, trig, t)
    ensures t % SECOND == 0
  {
    var x := TimeOf(z, t);
    var q := x / Period(trig);
    assert x == q * (trig.every * SECOND) == (q * trig.every) * SECOND;
    DivUnique(x, SECOND, q * trig.every, 0);
    WholeDays(DateOf(z, t), x, z.offset(t));
  }

  /** A calendar trigger at a whole second, in a zone with whole-second offsets, is quiet too. */
  lemma WholeSecondIsQuiet(z: Zone, s: Schedule)
    requires Consistent(z) && WholeSeconds(z) && BoundsResolve(z, s)
    requires s.trigger.Calendar? && s.trigger.at % SECOND == 0
    ensures QuietBeforeStart(z, s)
  {
    forall t | IsFire(z, s.trigger, t) ensures t % SECOND == 0 {
      WholeSecondFire(z, DateOf(z, t), s.trigger.at, t);
    }
    WholeFiresAreQuiet(z, s);
  }

  lemma FireShows(z: Zone, date: int, at: int, t: int)
    requires Consistent(z) && FireAt(z, date, at) == Some(t)
    ensures t + z.offset(t) == date * DAY + at || t + z.offset(t) == date * DAY + at + HOUR
  {
    var l := date * DAY + at;
    assert Shows(z, l, z.resolve(l)) && Shows(z, l + HOUR, z.resolve(l + HOUR));
  }

  lemma WholeSecondFire(z: Zone, date: int, at: int, t: int)
    requires Consistent(z) && FireAt(z, date, at) == Some(t)
    requires at % SECOND == 0 && z.offset(t) % SECOND == 0
    ensures t % SECOND == 0
  {
    FireShows(z, date, at, t);
    WholeDays(date, at, z.offset(t));
  }

  lemma WholeDays(d: int, at: int, offset: int)
    requires at % SECOND == 0 && offset % SECOND == 0
    ensures (d * DAY + at - offset) % SECOND == 0 && (d * DAY + at + HOUR - offset) % SECOND == 0
  {
  }

  /** Half a second before midnight: this schedule's first fire comes before its first date. */
  lemma HalfSecondBreaksStart(z: Zone)
    requires Fixed(z, 0)
    ensures var s := Schedule(Calendar({}, DAY - SECOND / 2), Some(1), None);
            && BoundsResolve(z, s) && StartInstant(z, s) == DAY
            && NextActiveFire(z, s, 0) == Some(DAY - SECOND / 2)
  {
    var trig := Calendar({}, DAY - SECOND / 2);
    var now := DAY - SECOND;
    assert z.resolve(1 * DAY) == Single(DAY);
    assert DateOf(z, now) == 0;
    assert z.resolve(0 * DAY + trig.at) == Single(trig.at);
    assert Taken(z, trig, 0, now);
  }

  // ---- asking again and again ----

  ghost function NthFire(z: Zone, trig: Trigger, now: int, n: nat): int
    requires Reliable(z, trig, now)
    decreases n
  {
    assert KeepsPromise(z, trig, now);
    var next := NextFireAfter(z, trig, now);
    if n == 0 then next else NthFire(z, trig, next, n - 1)
  }

  /** Every answer in turn is a fire, and each is later than the one before. */
  lemma {:induction false} FiresInOrder(z: Zone, trig: Trigger, now: int, n: nat)
    requires Reliable(z, trig, now)
    ensures IsFire(z, trig, NthFire(z, trig, now, n)) && now < NthFire(z, trig, now, n) < NthFire(z, trig, now, n + 1)
    decreases n
  {
    assert KeepsPromise(z, trig, now);
    var next := NextFireAfter(z, trig, now);
    assert KeepsPromise(z, trig, next);
    if n == 0 {
    } else {
      FiresInOrder(z, trig, next, n - 1);
    }
  }

  /** No fire is missed: each fire after now is one of the answers. */
  lemma {:induction false} FiresAreFound(z: Zone, trig: Trigger, now: int, t: int) returns (n: nat)
    requires Reliable(z, trig, now) && now < t && IsFire(z, trig, t)
    ensures NthFire(z, trig, now, n) == t
    decreases t - now
  {
    hide IsFire, NextFireAfter;
    var next := NextFireAfter(z, trig, now);
    NoneSkipped(z, trig, now, t);
    if next == t {
      n := 0;
    } else {
      var k := FiresAreFound(z, trig, next, t);
      n := k + 1;
    }
  }

  lemma NoneSkipped(z: Zone, trig: Trigger, now: int, t: int)
    requires KeepsPromise(z, trig, now) && now < t && IsFire(z, trig, t)
    ensures now < NextFireAfter(z, trig, now) <= t
  {
  }

  ghost predicate Answered(z: Zone, trig: Trigger, now: int, t: int)
    requires Reliable(z, trig, now)
  {
    exists n: nat :: NthFire(z, trig, now, n) == t
  }

  /** So asking again and again enumerates exactly the fires after now, and in order. */
  lemma AnswersEnumerateFires(z: Zone, trig: Trigger, now: int, t: int)
    requires Reliable(z, trig, now)
    ensures now < t && IsFire(z, trig, t) <==> Answered(z, trig, now, t)
    ensures forall n: nat :: NthFire(z, trig, now, n) < NthFire(z, trig, now, n + 1)
  {
    if now < t && IsFire(z, trig, t) {
      var n := FiresAreFound(z, trig, now, t);
      assert NthFire(z, trig, now, n) == t;
    }
    if Answered(z, trig, now, t) {
      var n: nat :| NthFire(z, trig, now, n) == t;
      FiresInOrder(z, trig, now, n);
    }
    forall n: nat ensures NthFire(z, trig, now, n) < NthFire(z, trig, now, n + 1) {
      FiresInOrder(z, trig, now, n);
    }
  }

  // ---- who keeps the promise from a moment on ----

  ghost predicate RegularFrom(z: Zone, every: nat, from: int)
    requires every > 0
  {
    forall now :: now >= from ==> Regular(z, every, now)
  }

  /** Both kinds of trigger are reliable from a moment on, each under its own conditions from then on. */
  lemma TriggersAreReliable(z: Zone, trig: Trigger, from: int)
    requires match trig
             case Interval(every, _, _, _) =>
               every >= 60 && 86400 % every == 0 && GridInWindow(trig) && RegularFrom(z, every, from)
             case Calendar(_, at) => Orderly(z, at, from)
    ensures Reliable(z, trig, from)
  {
    forall now | now >= from ensures KeepsPromise(z, trig, now) {
      if trig.Interval? {
        IntervalKeepsPromise(z, trig, now);
      } else {
        OrderlyLater(z, trig.at, from, now);
        CalendarKeepsPromise(z, trig, now);
      }
    }
  }

  /** Zones whose clock changes rarely are regular for every interval that divides the changes. */
  lemma RegularZones(z: Zone, every: nat, from: int)
    requires every > 0 && ChangesRarely(z, from) && ChangesDivided(z, every, from)
    ensures RegularFrom(z, every, from)
  {
    forall now | now >= from ensures Regular(z, every, now) {
      RegularFromHere(z, every, from, now);
    }
  }
}
