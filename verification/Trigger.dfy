/**
Triggers and the instants they fire at. Instants and local times are counted in
nanoseconds, the resolution of the clock the scheduler reads; local time 0 is
midnight of 1970-01-01, and dates are counted in days from there.
*/
module Trigger {
  import opened Text

  const SECOND: int := 1_000_000_000
  const HOUR: int := 3600 * SECOND
  const DAY: int := 86400 * SECOND
  /** `14 * 1440`, the bound on the slots that one search looks at. */
  const SCAN_SLOTS: nat := 20160

  datatype LocalResult = Single(t: int) | Ambiguous(first: int, second: int) | Gap

  /** A time zone: its UTC offset at an instant, and the instants a local time names. */
  datatype Zone = Zone(offset: int -> int, resolve: int -> LocalResult)

  type Weekday = w: int | 0 <= w < 7

  datatype Trigger =
    | Interval(every: nat, days: set<Weekday>, activeFrom: Option<int>, activeTo: Option<int>)
    | Calendar(days: set<Weekday>, at: int)

  function Local(z: Zone, t: int): int { t + z.offset(t) }

  function DateOf(z: Zone, t: int): int { Local(z, t) / DAY }

  function TimeOf(z: Zone, t: int): int { Local(z, t) % DAY }

  /** 1970-01-01 was a Thursday; Monday is 0. */
  function WeekdayOf(date: int): Weekday { (date + 3) % 7 }

  predicate Allows(days: set<Weekday>, w: Weekday) {
    days == {} || w in days
  }

  predicate InWindow(t: int, from: Option<int>, to: Option<int>) {
    match (from, to)
    case (Some(f), Some(e)) => if e < f then t >= f || t < e else f <= t < e
    case _ => true
  }

  /** The filters of an interval trigger: the window of the day and the weekdays. */
  predicate Eligible(z: Zone, trig: Trigger, t: int)
    requires trig.Interval?
  {
    InWindow(TimeOf(z, t), trig.activeFrom, trig.activeTo) && Allows(trig.days, WeekdayOf(DateOf(z, t)))
  }

  // ---- interval triggers ----

  /** Midnight, or an hour later when midnight is skipped; the source panics if that fails too. */
  predicate MidnightResolves(z: Zone, date: int) {
    z.resolve(date * DAY).Gap? ==> z.resolve(date * DAY + HOUR).Single?
  }

  function DayStart(z: Zone, date: int): int
    requires MidnightResolves(z, date)
  {
    match z.resolve(date * DAY)
    case Single(t) => t
    case Ambiguous(first, _) => first
    case Gap => z.resolve(date * DAY + HOUR).t
  }

  /** The slot a search starts at: the first multiple of `every` seconds after `now`, from `dayStart`. */
  function FirstSlot(every: nat, dayStart: int, now: int): int
    requires every > 0
  {
    var elapsed := if now >= dayStart then (now - dayStart) / SECOND else 0;
    (elapsed / every + 1) * every
  }

  /** The first eligible one of `left` slots, or the slot after them. */
  function Scan(z: Zone, trig: Trigger, slot: int, left: nat): int
    requires trig.Interval?
    decreases left
  {
    if left == 0 || Eligible(z, trig, slot) then slot
    else Scan(z, trig, slot + trig.every * SECOND, left - 1)
  }

  function NextInterval(z: Zone, trig: Trigger, now: int): int
    requires trig.Interval? && trig.every > 0
    requires MidnightResolves(z, DateOf(z, now))
  {
    var dayStart := DayStart(z, DateOf(z, now));
    Scan(z, trig, dayStart + FirstSlot(trig.every, dayStart, now) * SECOND, SCAN_SLOTS)
  }

  method FindInterval(z: Zone, trig: Trigger, now: int) returns (candidate: int)
    requires trig.Interval? && trig.every > 0
    requires MidnightResolves(z, DateOf(z, now))
    ensures candidate == NextInterval(z, trig, now)
  {
    var every := trig.every;
    var dayStart := DayStart(z, DateOf(z, now));
    var elapsed := if now >= dayStart then (now - dayStart) / SECOND else 0;
    var slot := (elapsed / every + 1) * every;
    candidate := dayStart + slot * SECOND;
    ghost var goal := NextInterval(z, trig, now);
    for i := 0 to SCAN_SLOTS
      invariant candidate == dayStart + slot * SECOND
      invariant Scan(z, trig, candidate, SCAN_SLOTS - i) == goal
    {
      if Eligible(z, trig, candidate) {
        return;
      }
      slot := slot + every;
      candidate := dayStart + slot * SECOND;
    }
  }

  // ---- calendar triggers ----

  /** The instant a trigger at local time `at` means on a date; none when the hour after a gap is no single instant. */
  function FireAt(z: Zone, date: int, at: int): Option<int> {
    match z.resolve(date * DAY + at)
    case Single(t) => Some(t)
    case Ambiguous(first, _) => Some(first)
    case Gap =>
      match z.resolve(date * DAY + at + HOUR)
      case Single(t) => Some(t)
      case _ => None
  }

  /** The source's candidate for a date: `now`, which is never taken, stands for no instant. */
  function Candidate(z: Zone, date: int, at: int, now: int): int {
    match FireAt(z, date, at)
    case Some(t) => t
    case None => now
  }

  predicate Taken(z: Zone, trig: Trigger, date: int, now: int)
    requires trig.Calendar?
  {
    Allows(trig.days, WeekdayOf(date)) && Candidate(z, date, trig.at, now) > now
  }

  const WEEK: int := 7 * DAY

  function CalendarFrom(z: Zone, trig: Trigger, now: int, offset: nat): int
    requires trig.Calendar? && offset <= 8
    decreases 8 - offset
  {
    var date := DateOf(z, now) + offset;
    if offset == 8 then
      match z.resolve((DateOf(z, now) + 7) * DAY + trig.at)
      case Single(t) => t
      case _ => now + WEEK
    else if Taken(z, trig, date, now) then Candidate(z, date, trig.at, now)
    else CalendarFrom(z, trig, now, offset + 1)
  }

  function NextCalendar(z: Zone, trig: Trigger, now: int): int
    requires trig.Calendar?
  {
    CalendarFrom(z, trig, now, 0)
  }

  method FindCalendar(z: Zone, trig: Trigger, now: int) returns (r: int)
    requires trig.Calendar?
    ensures r == NextCalendar(z, trig, now)
  {
    var base := DateOf(z, now);
    for offset := 0 to 8
      invariant CalendarFrom(z, trig, now, offset) == NextCalendar(z, trig, now)
    {
      var date := base + offset;
      if !Allows(trig.days, WeekdayOf(date)) {
        continue;
      }
      var candidate;
      match z.resolve(date * DAY + trig.at) {
        case Single(t) => candidate := t;
        case Ambiguous(first, _) => candidate := first;
        case Gap =>
          var bumped := z.resolve(date * DAY + trig.at + HOUR);
          candidate := if bumped.Single? then bumped.t else now;
      }
      if candidate > now {
        return candidate;
      }
    }
    var last := z.resolve((base + 7) * DAY + trig.at);
    r := if last.Single? then last.t else now + WEEK;
  }

  // ---- what a trigger promises ----

  /**
  The instants a trigger means to fire at, whatever the moment one asks: wall-clock
  multiples of the interval, counted from the instant's own local midnight, or the
  given time of each allowed day.
  */
  predicate IsFire(z: Zone, trig: Trigger, t: int) {
    match trig
    case Interval(every, _, _, _) => every > 0 && TimeOf(z, t) % (every * SECOND) == 0 && Eligible(z, trig, t)
    case Calendar(days, at) => Allows(days, WeekdayOf(DateOf(z, t))) && FireAt(z, DateOf(z, t), at) == Some(t)
  }

  predicate CanAsk(z: Zone, trig: Trigger, now: int) {
    trig.Interval? ==> trig.every > 0 && MidnightResolves(z, DateOf(z, now))
  }

  function NextFireAfter(z: Zone, trig: Trigger, now: int): int
    requires CanAsk(z, trig, now)
  {
    if trig.Interval? then NextInterval(z, trig, now) else NextCalendar(z, trig, now)
  }

  /** `r` is the first fire after `now`. */
  ghost predicate IsFirstFire(z: Zone, trig: Trigger, now: int, r: int) {
    && now < r && IsFire(z, trig, r)
    && forall t {:trigger IsFire(z, trig, t)} :: now < t < r ==> !IsFire(z, trig, t)
  }

  ghost predicate KeepsPromise(z: Zone, trig: Trigger, now: int) {
    CanAsk(z, trig, now) && IsFirstFire(z, trig, now, NextFireAfter(z, trig, now))
  }

  /** The trigger keeps its promise at this and every later moment. */
  ghost predicate Reliable(z: Zone, trig: Trigger, from: int) {
    forall now :: now >= from ==> KeepsPromise(z, trig, now)
  }

  /** A zone without clock changes. */
  ghost predicate Fixed(z: Zone, c: int) {
    && (forall t :: z.offset(t) == c)
    && (forall l :: z.resolve(l) == Single(l - c))
  }

  /** From the midnight before now to eight days after now, the clock does not change. */
  ghost predicate Steady(z: Zone, c: int, now: int) {
    && z.resolve(DateOf(z, now) * DAY) == Single(DateOf(z, now) * DAY - c)
    && forall t :: now <= t <= now + 8 * DAY ==> z.offset(t) == c
  }

  /** The clock goes from offset `c1` to `c2` at instant `change`, within one date. */
  predicate WithinDate(c1: int, c2: int, change: int) {
    (change - 1 + c1) / DAY == (change + c2) / DAY
  }

  function OffsetAt(c1: int, c2: int, change: int, t: int): int {
    if t < change then c1 else c2
  }

  /** The instant at which the date begins. */
  function MidnightOf(c1: int, c2: int, change: int, date: int): int {
    date * DAY - (if date * DAY - c1 < change then c1 else c2)
  }

  /** From the midnight before now to fourteen days after now, the clock changes at most this once. */
  ghost predicate OneChange(z: Zone, c1: int, c2: int, change: int, now: int) {
    var midnight := MidnightOf(c1, c2, change, DateOf(z, now));
    && WithinDate(c1, c2, change)
    && z.resolve(DateOf(z, now) * DAY) == Single(midnight) && midnight <= now
    && forall t :: midnight <= t <= now + 14 * DAY ==> z.offset(t) == OffsetAt(c1, c2, change, t)
  }

  /** Around every moment from this one on, the clock changes at most once. */
  ghost predicate ChangesRarely(z: Zone, from: int) {
    forall now :: now >= from ==> NearOneChange(z, now)
  }

  ghost predicate NearOneChange(z: Zone, now: int) {
    exists c1, c2, change :: OneChange(z, c1, c2, change, now)
  }

  /** All clock changes since the midnight before `from` are by multiples of the interval. */
  ghost predicate ChangesDivided(z: Zone, every: nat, from: int)
    requires every > 0
  {
    forall t :: SinceMidnight(z, from, t) ==> DividedAt(z, every, t)
  }

  predicate SinceMidnight(z: Zone, from: int, t: int) {
    match z.resolve(DateOf(z, from) * DAY)
    case Single(midnight) => midnight < t
    case _ => from < t
  }

  predicate DividedAt(z: Zone, every: nat, t: int)
    requires every > 0
  {
    (z.offset(t) - z.offset(t - 1)) % (every * SECOND) == 0
  }

  /** A zone whose clock changes once, for good. */
  ghost predicate ChangesOnce(z: Zone, c1: int, c2: int, change: int) {
    && WithinDate(c1, c2, change)
    && (forall t :: z.offset(t) == OffsetAt(c1, c2, change, t))
    && forall date :: MidnightIs(z, date, MidnightOf(c1, c2, change, date))
  }

  predicate MidnightIs(z: Zone, date: int, t: int) {
    z.resolve(date * DAY) == Single(t)
  }

  /** No clock change is near now, or one, by a multiple of the interval. */
  ghost predicate Regular(z: Zone, every: nat, now: int)
    requires every > 0
  {
    || (exists c :: Steady(z, c, now))
    || (exists c1, c2, change ::
          OneChange(z, c1, c2, change, now) && (c2 - c1) % (every * SECOND) == 0)
  }

  /** A multiple of the interval, as a time of day, that the window lets through. */
  ghost predicate GridInWindow(trig: Trigger)
    requires trig.Interval? && trig.every > 0
  {
    exists g :: 0 <= g < DAY && IsGridTime(trig, g)
  }

  predicate IsGridTime(trig: Trigger, g: int)
    requires trig.Interval? && trig.every > 0
  {
    g % (trig.every * SECOND) == 0 && InWindow(g, trig.activeFrom, trig.activeTo)
  }
}
