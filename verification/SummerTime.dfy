/**
Summer time, as the European Union keeps it: every year the clock goes from one hour
ahead of UTC to two at 01:00 UTC of a day in spring, and back at 01:00 UTC of a day
in autumn. Which days these are is left open, as is what the zone did before its
first summer.
*/
module SummerTime {
  import opened Text
  import opened Trigger
  import opened IntervalTheorems
  import opened Schedule
  import opened ScheduleTheorems

  /** When summer begins and ends, year by year. */
  datatype Years = Years(spring: nat -> int, autumn: nat -> int)

  ghost predicate InOrder(y: Years, n: nat) {
    && y.spring(n) % DAY == HOUR && y.autumn(n) % DAY == HOUR
    && y.spring(n) + 30 * DAY < y.autumn(n) && y.autumn(n) + 30 * DAY < y.spring(n + 1)
  }

  predicate SummerOf(y: Years, n: nat, t: int) {
    y.spring(n) <= t < y.autumn(n)
  }

  ghost predicate IsSummer(y: Years, t: int) {
    exists n: nat :: SummerOf(y, n, t)
  }

  /** What a local time is when the clock is one or two hours ahead of UTC. */
  function Resolve(offset: int -> int, l: int): LocalResult {
    var summer, winter := offset(l - 2 * HOUR) == 2 * HOUR, offset(l - HOUR) == HOUR;
    if summer && winter then Ambiguous(l - 2 * HOUR, l - HOUR)
    else if summer then Single(l - 2 * HOUR)
    else if winter then Single(l - HOUR)
    else Gap
  }

  /** From its first summer on; offsets are less than a day at all times. */
  ghost predicate KeepsSummerTime(z: Zone, y: Years) {
    && (forall n: nat :: InOrder(y, n))
    && (forall t :: z.offset(t) < DAY)
    && (forall t :: t >= y.spring(0) ==> z.offset(t) == if IsSummer(y, t) then 2 * HOUR else HOUR)
    && (forall l :: l >= y.spring(0) + 2 * HOUR ==> z.resolve(l) == Resolve(z.offset, l))
  }

  // ---- finding the year ----

  lemma {:induction false} YearsInOrder(y: Years, m: nat, n: nat)
    requires m < n && forall k: nat :: InOrder(y, k)
    ensures y.autumn(m) + 30 * DAY < y.spring(n)
    decreases n
  {
    assert InOrder(y, n - 1);
    if m == n - 1 {
    } else {
      YearsInOrder(y, m, n - 1);
    }
  }

  lemma {:induction false} YearsPass(y: Years, n: nat)
    requires forall k: nat :: InOrder(y, k)
    ensures y.spring(n) >= y.spring(0) + n
  {
    if n == 0 {
    } else {
      YearsPass(y, n - 1);
      assert InOrder(y, n - 1);
    }
  }

  lemma {:induction false} YearUpTo(y: Years, t: int, n: nat) returns (m: nat)
    requires (forall k: nat :: InOrder(y, k)) && y.spring(0) <= t < y.spring(n)
    ensures y.spring(m) <= t < y.spring(m + 1)
    decreases n
  {
    if y.spring(n - 1) <= t {
      m := n - 1;
    } else {
      m := YearUpTo(y, t, n - 1);
    }
  }

  lemma YearOf(y: Years, t: int) returns (m: nat)
    requires (forall k: nat :: InOrder(y, k)) && y.spring(0) <= t
    ensures y.spring(m) <= t < y.spring(m + 1)
  {
    var n := t - y.spring(0) + 1;
    YearsPass(y, n);
    m := YearUpTo(y, t, n);
  }

  lemma {:induction false} SpringsRise(y: Years, m: nat, n: nat)
    requires m <= n && forall k: nat :: InOrder(y, k)
    ensures y.spring(m) <= y.spring(n)
    decreases n
  {
    if m == n {
    } else {
      SpringsRise(y, m, n - 1);
      assert InOrder(y, n - 1);
    }
  }

  /** Within a year, summer time is from spring to autumn. */
  lemma SummerInYear(y: Years, n: nat, t: int)
    requires (forall k: nat :: InOrder(y, k)) && y.spring(n) <= t < y.spring(n + 1)
    ensures IsSummer(y, t) <==> t < y.autumn(n)
  {
    assert InOrder(y, n);
    if t < y.autumn(n) {
      assert SummerOf(y, n, t);
    } else if IsSummer(y, t) {
      var k: nat :| SummerOf(y, k, t);
      if k < n {
        YearsInOrder(y, k, n);
      } else if k > n {
        SpringsRise(y, n + 1, k);
      }
    }
  }

  // ---- changes are rare ----

  /** The one change around a moment, with no other from two days before it to fourteen days after it. */
  ghost predicate Alone(z: Zone, c1: int, c2: int, change: int, now: int) {
    && change % DAY == HOUR && ((c1, c2) == (HOUR, 2 * HOUR) || (c1, c2) == (2 * HOUR, HOUR))
    && forall t :: now - 2 * DAY <= t <= now + 14 * DAY ==> z.offset(t) == OffsetAt(c1, c2, change, t)
  }

  lemma OffsetInYear(z: Zone, y: Years, n: nat, t: int)
    requires KeepsSummerTime(z, y) && y.spring(n) <= t < y.spring(n + 1)
    ensures z.offset(t) == if t < y.autumn(n) then 2 * HOUR else HOUR
  {
    SummerInYear(y, n, t);
    if n > 0 {
      YearsInOrder(y, 0, n);
      assert InOrder(y, 0);
    }
  }

  lemma NearestChange(z: Zone, y: Years, now: int) returns (c1: int, c2: int, change: int)
    requires KeepsSummerTime(z, y) && now >= y.spring(0) + 2 * DAY
    ensures Alone(z, c1, c2, change, now)
  {
    var n := YearOf(y, now);
    assert InOrder(y, n) && InOrder(y, n + 1);
    if now >= y.autumn(n) - 14 * DAY && now < y.spring(n + 1) - 14 * DAY {
      c1, c2, change := 2 * HOUR, HOUR, y.autumn(n);
    } else {
      c1, c2, change := HOUR, 2 * HOUR, if now < y.autumn(n) then y.spring(n) else y.spring(n + 1);
    }
    forall t | now - 2 * DAY <= t <= now + 14 * DAY ensures z.offset(t) == OffsetAt(c1, c2, change, t) {
      NearYear(z, y, n, now, t);
    }
  }

  lemma NearYear(z: Zone, y: Years, n: nat, now: int, t: int)
    requires KeepsSummerTime(z, y) && y.spring(n) <= now < y.spring(n + 1) && now >= y.spring(0) + 2 * DAY
    requires now - 2 * DAY <= t <= now + 14 * DAY
    ensures z.offset(t) == if t < y.spring(n) then HOUR else if t < y.autumn(n) then 2 * HOUR
                           else if t < y.spring(n + 1) then HOUR else 2 * HOUR
  {
    assert InOrder(y, n) && InOrder(y, n + 1);
    if t < y.spring(n) {
      assert n > 0 && InOrder(y, n - 1);
      OffsetInYear(z, y, n - 1, t);
    } else if t < y.spring(n + 1) {
      OffsetInYear(z, y, n, t);
    } else {
      OffsetInYear(z, y, n + 1, t);
    }
  }

  /** The offset in force at the midnight that begins a date near now. */
  lemma MidnightNear(z: Zone, y: Years, c1: int, c2: int, change: int, now: int)
    requires KeepsSummerTime(z, y) && now >= y.spring(0) + 2 * DAY && Alone(z, c1, c2, change, now)
    ensures var midnight := MidnightOf(c1, c2, change, DateOf(z, now));
            y.spring(0) <= midnight <= now && z.resolve(DateOf(z, now) * DAY) == Single(midnight)
            && now - 2 * DAY <= midnight
  {
    var l := DateOf(z, now) * DAY;
    DateBounds(Local(z, now));
    DateBounds(change);
    assert change == change / DAY * DAY + HOUR;
    assert z.offset(now) == OffsetAt(c1, c2, change, now);
    assert z.offset(l - 2 * HOUR) == OffsetAt(c1, c2, change, l - 2 * HOUR);
    assert z.offset(l - HOUR) == OffsetAt(c1, c2, change, l - HOUR);
    NoChangeBeforeMidnight(change / DAY, DateOf(z, now));
    assert z.resolve(l) == Resolve(z.offset, l);
  }

  lemma NoChangeBeforeMidnight(day: int, date: int)
    ensures !(date * DAY - 2 * HOUR < day * DAY + HOUR <= date * DAY - HOUR)
  {
  }

  lemma AloneIsOneChange(z: Zone, y: Years, c1: int, c2: int, change: int, now: int)
    requires KeepsSummerTime(z, y) && now >= y.spring(0) + 2 * DAY && Alone(z, c1, c2, change, now)
    ensures OneChange(z, c1, c2, change, now)
  {
    MidnightNear(z, y, c1, c2, change, now);
    var day := change / DAY;
    DivUnique(change - 1 + c1, DAY, day, HOUR - 1 + c1);
    DivUnique(change + c2, DAY, day, HOUR + c2);
  }

  lemma ChangesAreRare(z: Zone, y: Years, from: int)
    requires KeepsSummerTime(z, y) && from >= y.spring(0) + 2 * DAY
    ensures ChangesRarely(z, from)
  {
    forall now | now >= from ensures NearOneChange(z, now) {
      var c1, c2, change := NearestChange(z, y, now);
      AloneIsOneChange(z, y, c1, c2, change, now);
    }
  }

  // ---- changes are hours ----

  lemma HourDivided(every: nat)
    requires every > 0
    ensures HOUR % (every * SECOND) == 0 <==> 3600 % every == 0
    ensures -HOUR % (every * SECOND) == 0 <==> 3600 % every == 0
  {
    var p := every * SECOND;
    ModShift(0, HOUR, p);
    if HOUR % p == 0 {
      var q := HOUR / p;
      assert HOUR == q * (every * SECOND) == (q * every) * SECOND;
      DivUnique(3600, every, q, 0);
    }
    if 3600 % every == 0 {
      var q := 3600 / every;
      assert HOUR == (q * every) * SECOND == q * (every * SECOND);
      DivUnique(HOUR, p, q, 0);
    }
  }

  lemma HourDividesDay(every: nat)
    requires every > 0 && 3600 % every == 0
    ensures 86400 % every == 0
  {
    var q := 3600 / every;
    assert 86400 == (24 * q) * every;
    DivUnique(86400, every, 24 * q, 0);
  }

  /** The next spring always comes. */
  lemma NextSpring(z: Zone, y: Years, from: int) returns (t: int)
    requires KeepsSummerTime(z, y) && from >= y.spring(0)
    ensures t > from && z.offset(t) - z.offset(t - 1) == HOUR
  {
    var n := YearOf(y, from);
    assert InOrder(y, n) && InOrder(y, n + 1);
    t := y.spring(n + 1);
    OffsetInYear(z, y, n, t - 1);
    OffsetInYear(z, y, n + 1, t);
  }

  lemma HoursAreDivided(z: Zone, y: Years, every: nat, from: int)
    requires KeepsSummerTime(z, y) && from >= y.spring(0) + 2 * DAY && every > 0
    ensures ChangesDivided(z, every, from) <==> 3600 % every == 0
  {
    HourDivided(every);
    assert 0 % (every * SECOND) == 0;
    var c1, c2, change := NearestChange(z, y, from);
    MidnightNear(z, y, c1, c2, change, from);
    var spring := NextSpring(z, y, from);
    assert SinceMidnight(z, from, spring);
    assert ChangesDivided(z, every, from) ==> DividedAt(z, every, spring);
    if 3600 % every == 0 {
      forall t | SinceMidnight(z, from, t) ensures DividedAt(z, every, t) {
        assert t - 1 >= y.spring(0);
      }
    }
  }

  // ---- calendar triggers ----

  /** In autumn an hour is repeated, but no date is. */
  lemma DatesKeepOrder(z: Zone, y: Years, t: int, u: int)
    requires KeepsSummerTime(z, y) && t <= u && u >= y.spring(0) + 2 * DAY
    ensures DateOf(z, t) <= DateOf(z, u)
  {
    var c1, c2, change := NearestChange(z, y, u);
    var day := change / DAY;
    DateBounds(change);
    assert z.offset(t) < DAY && z.offset(u) == OffsetAt(c1, c2, change, u);
    assert t >= u - 2 * DAY ==> z.offset(t) == OffsetAt(c1, c2, change, t);
    assert Local(z, t) <= Local(z, u) || (Local(z, t) < day * DAY + DAY && day * DAY <= Local(z, u));
    NoLaterDate(Local(z, t), Local(z, u), day);
  }

  lemma NoLaterDate(l: int, l': int, day: int)
    requires l <= l' || (l < day * DAY + DAY && day * DAY <= l')
    ensures l / DAY <= l' / DAY
  {
    DateBounds(l);
    DateBounds(l');
  }

  /** In spring an hour is skipped, from 02:00 to 03:00. */
  lemma GapsAreClosed(z: Zone, y: Years, date: int, at: int)
    requires KeepsSummerTime(z, y) && date * DAY >= y.spring(0) + DAY && 0 <= at < DAY
    ensures GapClosed(z, date, at)
  {
    var l := date * DAY + at;
    var c1, c2, change := NearestChange(z, y, l + DAY);
    assert z.resolve(l) == Resolve(z.offset, l) && z.resolve(l + HOUR) == Resolve(z.offset, l + HOUR);
    assert z.offset(l - 2 * HOUR) == OffsetAt(c1, c2, change, l - 2 * HOUR);
    assert z.offset(l - HOUR) == OffsetAt(c1, c2, change, l - HOUR) && z.offset(l) == OffsetAt(c1, c2, change, l);
    DateBounds(change);
    if z.resolve(l).Gap? {
      SkippedHour(change / DAY, change, date, at);
    }
  }

  lemma SkippedHour(day: int, change: int, date: int, at: int)
    requires change == day * DAY + HOUR && 0 <= at < DAY
    requires date * DAY + at - 2 * HOUR < change <= date * DAY + at - HOUR
    ensures at + HOUR < DAY
  {
  }

  lemma SummerIsOrderly(z: Zone, y: Years, at: int, from: int)
    requires KeepsSummerTime(z, y) && from >= y.spring(0) + 2 * DAY && 0 <= at < DAY
    ensures Orderly(z, at, from)
  {
    DateBounds(Local(z, from));
    forall t, u | t <= u && from <= u ensures DateOf(z, t) <= DateOf(z, u) {
      DatesKeepOrder(z, y, t, u);
    }
    forall l | l >= DateOf(z, from) * DAY ensures Shows(z, l, z.resolve(l)) {
      assert z.resolve(l) == Resolve(z.offset, l);
    }
    forall date | date >= DateOf(z, from) ensures GapClosed(z, date, at) {
      GapsAreClosed(z, y, date, at);
    }
  }

  // ---- schedules ----

  /** Away from the hour of the changes, what the clock shows tells before from after. */
  lemma QuietTimeSplits(z: Zone, y: Years, b: int)
    requires KeepsSummerTime(z, y) && b >= y.spring(0) + 2 * DAY && !(2 * HOUR <= TimeOf(z, b) < 3 * HOUR)
    ensures Splits(z, b)
  {
    var c1, c2, change := NearestChange(z, y, b);
    DateBounds(change);
    DateBounds(Local(z, b));
    assert z.offset(b) == OffsetAt(c1, c2, change, b);
    NotInChangedHour(Local(z, b), change / DAY);
    forall t
      ensures (t < b ==> Local(z, t) < Local(z, b)) && (b < t ==> Local(z, b) < Local(z, t))
    {
      assert z.offset(t) < DAY;
      assert t >= y.spring(0) ==> HOUR <= z.offset(t);
      assert b - 2 * DAY <= t <= b + 14 * DAY ==> z.offset(t) == OffsetAt(c1, c2, change, t);
    }
  }

  lemma NotInChangedHour(l: int, day: int)
    requires !(2 * HOUR <= l % DAY < 3 * HOUR)
    ensures !(day * DAY + 2 * HOUR <= l < day * DAY + 3 * HOUR)
  {
    DateBounds(l);
  }

  /** With summer time the bounds of a schedule are such instants, so its fires are those on its dates. */
  lemma SummerBoundsSplit(z: Zone, y: Years, s: Schedule)
    requires KeepsSummerTime(z, y) && Consistent(z) && BoundsResolve(z, s)
    requires s.startDate.Some? ==> StartInstant(z, s) >= y.spring(0) + 2 * DAY
    requires s.endDate.Some? ==> EndInstant(z, s) >= y.spring(0) + 2 * DAY
    ensures BoundsSplit(z, s)
  {
    if s.startDate.Some? {
      var l := s.startDate.value * DAY;
      assert Shows(z, l, z.resolve(l));
      DivUnique(l, DAY, s.startDate.value, 0);
      QuietTimeSplits(z, y, StartInstant(z, s));
    }
    if s.endDate.Some? {
      var l := s.endDate.value * DAY + DAY - SECOND;
      assert Shows(z, l, z.resolve(l));
      DivUnique(l, DAY, s.endDate.value, DAY - SECOND);
      QuietTimeSplits(z, y, EndInstant(z, s));
    }
  }

  // ---- the promise under summer time ----

  /**
  With summer time, from the third day of its first summer on: a calendar trigger
  keeps its promise at every moment, and an interval trigger exactly when its interval
  divides the hour and its window contains a multiple of it.
  */
  lemma SummerTimeCondition(z: Zone, y: Years, trig: Trigger, from: int)
    requires KeepsSummerTime(z, y) && from >= y.spring(0) + 2 * DAY
    requires if trig.Interval? then trig.every >= 60 else 0 <= trig.at < DAY
    ensures Reliable(z, trig, from) <==> (trig.Interval? ==> 3600 % trig.every == 0 && GridInWindow(trig))
  {
    if trig.Interval? {
      ChangesAreRare(z, y, from);
      HoursAreDivided(z, y, trig.every, from);
      if 3600 % trig.every == 0 {
        HourDividesDay(trig.every);
      }
      PromiseCondition(z, trig, from);
    } else {
      SummerIsOrderly(z, y, trig.at, from);
      TriggersAreReliable(z, trig, from);
    }
  }

  lemma HourChanges()
    ensures ChangesOnce(SPRING, HOUR, 2 * HOUR, HOUR) && ChangesOnce(AUTUMN, 2 * HOUR, HOUR, HOUR)
  {
  }

  /** The same for a single skipped hour, and for a single repeated one, at every moment of all time. */
  lemma HourChangeCondition(trig: Trigger)
    requires trig.Interval? && trig.every >= 60
    ensures (forall now :: KeepsPromise(SPRING, trig, now)) <==> 3600 % trig.every == 0 && GridInWindow(trig)
    ensures (forall now :: KeepsPromise(AUTUMN, trig, now)) <==> 3600 % trig.every == 0 && GridInWindow(trig)
  {
    HourChanges();
    HourDivided(trig.every);
    if 3600 % trig.every == 0 {
      HourDividesDay(trig.every);
    }
    OnceCondition(SPRING, HOUR, 2 * HOUR, HOUR, trig);
    OnceCondition(AUTUMN, 2 * HOUR, HOUR, HOUR, trig);
  }

  // ---- a zone with both changes every year ----

  const YEAR: int := 364 * DAY

  const YEARS: Years := Years(n => n * YEAR + HOUR, n => n * YEAR + HOUR + 210 * DAY)

  function YearlyOffset(t: int): int {
    if (t - HOUR) % YEAR < 210 * DAY then 2 * HOUR else HOUR
  }

  const YEARLY: Zone := Zone(t => YearlyOffset(t), l => Resolve(t => YearlyOffset(t), l))

  lemma YearlyKeepsSummerTime()
    ensures KeepsSummerTime(YEARLY, YEARS)
  {
    forall n: nat ensures InOrder(YEARS, n) {
      YearBegins(n);
    }
    forall t | t >= YEARS.spring(0) ensures YEARLY.offset(t) == if IsSummer(YEARS, t) then 2 * HOUR else HOUR {
      YearlySummer(t);
    }
  }

  lemma YearBegins(n: nat)
    ensures (n * YEAR + HOUR) % DAY == HOUR && (n * YEAR + HOUR + 210 * DAY) % DAY == HOUR
    ensures (n + 1) * YEAR == n * YEAR + YEAR
  {
    DivUnique(n * YEAR + HOUR, DAY, n * 364, HOUR);
    DivUnique(n * YEAR + HOUR + 210 * DAY, DAY, n * 364 + 210, HOUR);
  }

  lemma YearlySummer(t: int)
    requires t >= HOUR
    ensures IsSummer(YEARS, t) <==> (t - HOUR) % YEAR < 210 * DAY
  {
    var x := t - HOUR;
    if x % YEAR < 210 * DAY {
      assert SummerOf(YEARS, x / YEAR, t);
    }
    if IsSummer(YEARS, t) {
      var n: nat :| SummerOf(YEARS, n, t);
      DivUnique(x, YEAR, n, x - n * YEAR);
    }
  }
}
