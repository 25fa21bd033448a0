/**
A schedule: a trigger with an optional first and last date. `Active` says what
its fires are; `NextActiveFire` is how the source looks for the next one.
*/
module Schedule {
  import opened Text
  import opened Trigger

  datatype Schedule = Schedule(trigger: Trigger, startDate: Option<int>, endDate: Option<int>)

  /** Local midnight of the first date. The source panics unless it names one instant. */
  predicate BoundsResolve(z: Zone, s: Schedule) {
    && (s.startDate.Some? ==> z.resolve(s.startDate.value * DAY).Single?)
    && (s.endDate.Some? ==> z.resolve(s.endDate.value * DAY + DAY - SECOND).Single?)
  }

  function StartInstant(z: Zone, s: Schedule): int
    requires BoundsResolve(z, s) && s.startDate.Some?
  {
    z.resolve(s.startDate.value * DAY).t
  }

  /** 23:59:59 of the last date. */
  function EndInstant(z: Zone, s: Schedule): int
    requires BoundsResolve(z, s) && s.endDate.Some?
  {
    z.resolve(s.endDate.value * DAY + DAY - SECOND).t
  }

  function Anchor(z: Zone, s: Schedule, now: int): int
    requires BoundsResolve(z, s)
  {
    if s.startDate.Some? && now < StartInstant(z, s) then StartInstant(z, s) - SECOND else now
  }

  function NextActiveFire(z: Zone, s: Schedule, now: int): Option<int>
    requires BoundsResolve(z, s) && CanAsk(z, s.trigger, Anchor(z, s, now))
  {
    var next := NextFireAfter(z, s.trigger, Anchor(z, s, now));
    if s.endDate.Some? && next > EndInstant(z, s) then None else Some(next)
  }

  method FindActiveFire(z: Zone, s: Schedule, now: int) returns (r: Option<int>)
    requires BoundsResolve(z, s) && CanAsk(z, s.trigger, Anchor(z, s, now))
    ensures r == NextActiveFire(z, s, now)
  {
    var anchor := now;
    if s.startDate.Some? {
      var start := z.resolve(s.startDate.value * DAY).t;
      if anchor < start {
        anchor := start - SECOND;
      }
    }
    var next;
    if s.trigger.Interval? {
      next := FindInterval(z, s.trigger, anchor);
    } else {
      next := FindCalendar(z, s.trigger, anchor);
    }
    if s.endDate.Some? {
      var end := z.resolve(s.endDate.value * DAY + DAY - SECOND).t;
      if next > end {
        return None;
      }
    }
    r := Some(next);
  }

  /** The fires a schedule means: those of its trigger from its first midnight through its last second. */
  predicate Active(z: Zone, s: Schedule, t: int)
    requires BoundsResolve(z, s)
  {
    && IsFire(z, s.trigger, t)
    && (s.startDate.Some? ==> StartInstant(z, s) <= t)
    && (s.endDate.Some? ==> t <= EndInstant(z, s))
  }

  /** The answer is the first active fire after now, or none because there is none. */
  ghost predicate AnswersRight(z: Zone, s: Schedule, now: int, r: Option<int>)
    requires BoundsResolve(z, s)
  {
    match r
    case None => forall t :: Active(z, s, t) ==> t <= now
    case Some(t) => now < t && Active(z, s, t) && forall u :: Active(z, s, u) && u > now ==> t <= u
  }

  /** No fire of the trigger lies within the second before the first midnight. */
  ghost predicate QuietBeforeStart(z: Zone, s: Schedule)
    requires BoundsResolve(z, s)
  {
    s.startDate.Some? ==>
      forall t {:trigger IsFire(z, s.trigger, t)} ::
        StartInstant(z, s) - SECOND < t < StartInstant(z, s) ==> !IsFire(z, s.trigger, t)
  }
}
