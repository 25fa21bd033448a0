/**
When an interval trigger fires at wall-clock multiples, as promised, and when it
does not.
*/
module IntervalTheorems {
  import opened Text
  import opened Trigger

  // ---- arithmetic ----

  lemma MulMono(a: int, b: int, p: int)
    requires a <= b && p >= 0
    ensures a * p <= b * p
  {
    assert (b - a) * p == b * p - a * p;
  }

  lemma MulCancel(a: int, b: int, p: int)
    requires p > 0 && a * p < b * p
    ensures a < b
  {
    if b <= a {
      MulMono(b, a, p);
    }
  }

  lemma DivUnique(x: int, d: int, q: int, r: int)
    requires d > 0 && x == q * d + r && 0 <= r < d
    ensures x / d == q && x % d == r
  {
    var k := x / d;
    assert x == k * d + x % d;
    assert (q + 1) * d == q * d + d && (k + 1) * d == k * d + d;
    MulCancel(q, k + 1, d);
    MulCancel(k, q + 1, d);
  }

  lemma DateBounds(l: int)
    ensures l / DAY * DAY <= l < l / DAY * DAY + DAY
  {
  }

  lemma DivDiv(x: nat, s: int, e: int)
    requires s > 0 && e > 0
    ensures e * s > 0 && (x / s) / e == x / (e * s)
  {
    var a := x / s;
    var r := (a % e) * s + x % s;
    MulMono(1, e, s);
    MulMono(a % e + 1, e, s);
    MulMono(0, a % e, s);
    NestedSplit(x, s, e);
    DivUnique(x, e * s, a / e, r);
  }

  lemma NestedSplit(x: nat, s: int, e: int)
    requires s > 0 && e > 0
    ensures x == (x / s / e) * (e * s) + ((x / s % e) * s + x % s)
    ensures (x / s % e + 1) * s == (x / s % e) * s + s
  {
    var a := x / s;
    assert x == a * s + x % s;
    assert a == (a / e) * e + a % e;
    Distribute((a / e) * e, a % e, s);
    assert ((a / e) * e) * s == (a / e) * (e * s);
    Distribute(a % e, 1, s);
  }

  lemma Distribute(a: int, b: int, p: int)
    ensures (a + b) * p == a * p + b * p
  {
  }

  lemma ModMultiple(k: int, p: int, x: int)
    requires p > 0
    ensures (k * p + x) % p == x % p && (k * p + x) / p == k + x / p
  {
    assert k * p + x == (k + x / p) * p + x % p;
    DivUnique(k * p + x, p, k + x / p, x % p);
  }

  /** The interval in nanoseconds. */
  function Period(trig: Trigger): int
    requires trig.Interval?
  {
    trig.every * SECOND
  }

  /** An interval that divides the day: how many fit, and that days are multiples of it. */
  lemma DayDivides(every: nat) returns (m: nat)
    requires every > 0 && 86400 % every == 0
    ensures DAY == m * (every * SECOND)
    ensures every >= 60 ==> m <= 1440
  {
    m := 86400 / every;
    assert 86400 == m * every;
    assert m * (every * SECOND) == (m * every) * SECOND;
    if every >= 60 {
      MulMono(60, every, m);
    }
  }

  lemma TimeOnGrid(every: nat, l: int)
    requires every > 0 && 86400 % every == 0
    ensures l % DAY % (every * SECOND) == l % (every * SECOND)
  {
    var m := DayDivides(every);
    var p := every * SECOND;
    assert l == (l / DAY * m) * p + l % DAY by {
      assert l / DAY * DAY == l / DAY * (m * p) == (l / DAY * m) * p;
    }
    ModMultiple(l / DAY * m, p, l % DAY);
  }

  // ---- the scan ----

  /** The scan stops at the first eligible slot, if one is within its reach. */
  lemma {:induction false} ScanStops(z: Zone, trig: Trigger, slot: int, left: nat, n: nat) returns (i: nat)
    requires trig.Interval? && n < left && Eligible(z, trig, slot + n * Period(trig))
    ensures i <= n && Scan(z, trig, slot, left) == slot + i * Period(trig)
    ensures Eligible(z, trig, slot + i * Period(trig))
    ensures forall j: nat :: j < i ==> !Eligible(z, trig, slot + j * Period(trig))
    decreases left
  {
    var p := Period(trig);
    assert slot + 0 * p == slot;
    if Eligible(z, trig, slot) {
      i := 0;
    } else {
      SlotShift(slot, p, n - 1);
      var k := ScanStops(z, trig, slot + p, left - 1, n - 1);
      i := k + 1;
      SlotShift(slot, p, k);
      forall j: nat | j < i ensures !Eligible(z, trig, slot + j * p) {
        if j > 0 {
          SlotShift(slot, p, j - 1);
        }
      }
    }
  }

  lemma SlotShift(slot: int, p: int, j: int)
    ensures slot + p + j * p == slot + (j + 1) * p
  {
    Distribute(j, 1, p);
  }

  lemma NotBefore(l: int, x: int, p: int)
    requires p > 0 && l < x && x % p == 0
    ensures l / p + 1 <= x / p && l < (l / p + 1) * p && x == (x / p) * p
  {
    assert l == (l / p) * p + l % p;
    assert x == (x / p) * p;
    assert (l / p + 1) * p == (l / p) * p + p;
    MulCancel(l / p, x / p, p);
  }

  lemma NextMultipleLater(l: int, p: int, i: nat)
    requires p > 0
    ensures l < (l / p + 1) * p <= (l / p + 1) * p + i * p
  {
    assert l == (l / p) * p + l % p;
    Distribute(l / p, 1, p);
    MulMono(0, i, p);
  }

  lemma ModShift(a: int, b: int, p: int)
    requires p > 0
    ensures (a - b) % p == 0 <==> a % p == b % p
  {
    var k := a / p - b / p;
    assert a - b == k * p + (a % p - b % p) by {
      assert a == (a / p) * p + a % p && b == (b / p) * p + b % p;
      Distribute(a / p, -(b / p), p);
    }
    if a % p == b % p {
      DivUnique(a - b, p, k, 0);
    } else if (a - b) % p == 0 {
      ModMultiple((a - b) / p, p, b);
    }
  }

  // ---- where a search looks ----

  /**
  From now to `hi` the clock differs by multiples of the interval from the offset
  `c` at which today's midnight was read.
  */
  ghost predicate GridSpan(z: Zone, every: nat, c: int, now: int, hi: int)
    requires every > 0
  {
    && z.resolve(DateOf(z, now) * DAY) == Single(DateOf(z, now) * DAY - c)
    && DateOf(z, now) * DAY - c <= now
    && forall t :: now < t <= hi ==> (z.offset(t) - c) % (every * SECOND) == 0
  }

  /** In such a span, being on the wall clock's grid is being a slot. */
  lemma GridIsSlots(z: Zone, every: nat, c: int, now: int, hi: int, t: int)
    requires every > 0 && 86400 % every == 0 && GridSpan(z, every, c, now, hi) && now < t <= hi
    ensures TimeOf(z, t) % (every * SECOND) == 0 <==> (t + c) % (every * SECOND) == 0
  {
    TimeOnGrid(every, Local(z, t));
    ModShift(Local(z, t), t + c, every * SECOND);
  }

  /** The first slot, in the time of today's midnight: the least multiple of the interval after now. */
  function Start(trig: Trigger, c: int, now: int): int
    requires trig.Interval? && trig.every > 0
  {
    ((now + c) / Period(trig) + 1) * Period(trig) - c
  }

  /** The first slot in nanoseconds: the first multiple of the interval after now, from `dayStart`. */
  lemma FirstSlotSpan(every: nat, dayStart: int, now: int)
    requires every > 0 && dayStart <= now
    ensures var p := every * SECOND;
            FirstSlot(every, dayStart, now) * SECOND == ((now - dayStart) / p + 1) * p
  {
    var p := every * SECOND;
    var k := (now - dayStart) / p + 1;
    DivDiv(now - dayStart, SECOND, every);
    assert k * every * SECOND == k * (every * SECOND);
  }

  /** Counting from midnight or from the epoch leads to the same multiple, as the interval divides the day. */
  lemma SameMultiple(every: nat, date: int, x: int)
    requires every > 0 && 86400 % every == 0
    ensures var p := every * SECOND;
            date * DAY + (x / p + 1) * p == ((date * DAY + x) / p + 1) * p
  {
    var p := every * SECOND;
    var m := DayDivides(every);
    assert date * DAY == (date * m) * p by { assert date * (m * p) == (date * m) * p; }
    ModMultiple(date * m, p, x);
    Distribute(date * m, x / p + 1, p);
  }

  lemma SearchScans(z: Zone, trig: Trigger, now: int, dayStart: int)
    requires trig.Interval? && trig.every > 0 && z.resolve(DateOf(z, now) * DAY) == Single(dayStart)
    ensures CanAsk(z, trig, now)
    ensures NextFireAfter(z, trig, now) == Scan(z, trig, dayStart + FirstSlot(trig.every, dayStart, now) * SECOND, SCAN_SLOTS)
  {
    hide Scan, FirstSlot, DateOf;
  }

  lemma StartBounds(trig: Trigger, c: int, now: int)
    requires trig.Interval? && trig.every > 0
    ensures now < Start(trig, c, now) <= now + Period(trig)
  {
    var p := Period(trig);
    NextMultipleLater(now + c, p, 0);
    Distribute((now + c) / p, 1, p);
  }

  /** Where a search starts: at the least multiple of the interval after now. */
  lemma StartsAtNextMultiple(z: Zone, c: int, trig: Trigger, now: int)
    requires trig.Interval? && trig.every > 0 && 86400 % trig.every == 0 && GridSpan(z, trig.every, c, now, now)
    ensures CanAsk(z, trig, now)
    ensures NextFireAfter(z, trig, now) == Scan(z, trig, Start(trig, c, now), SCAN_SLOTS)
    ensures now < Start(trig, c, now) <= now + Period(trig)
  {
    var date := DateOf(z, now);
    var dayStart := date * DAY - c;
    SearchScans(z, trig, now, dayStart);
    hide Scan, FirstSlot, DateOf, NextFireAfter, CanAsk;
    FirstSlotSpan(trig.every, dayStart, now);
    SameMultiple(trig.every, date, now - dayStart);
    StartBounds(trig, c, now);
  }

  /**
  Whatever the clock changes, as long as the interval divides them: if there is a
  fire within the reach of the scan, the answer is the first fire after now.
  */
  lemma SearchFindsFirst(z: Zone, c: int, trig: Trigger, now: int, fire: int)
    requires trig.Interval? && trig.every > 0 && 86400 % trig.every == 0
    requires GridSpan(z, trig.every, c, now, fire)
    requires now < fire <= now + SCAN_SLOTS * Period(trig) && IsFire(z, trig, fire)
    ensures KeepsPromise(z, trig, now)
  {
    hide NextFireAfter, Scan, Eligible, CanAsk;
    StartsAtNextMultiple(z, c, trig, now);
    GridIsSlots(z, trig.every, c, now, fire, fire);
    var n := SlotsBetween(now + c, fire + c, Period(trig));
    assert Start(trig, c, now) + n * Period(trig) == fire;
    var i := ScanStops(z, trig, Start(trig, c, now), SCAN_SLOTS, n);
    MulMono(i, n, Period(trig));
    FirstReached(z, c, trig, now, fire, i);
  }

  /** How many slots lie between the first multiple after `l` and the multiple `x`. */
  lemma SlotsBetween(l: int, x: int, p: int) returns (n: nat)
    requires p > 0 && l < x <= l + SCAN_SLOTS * p && x % p == 0
    ensures n < SCAN_SLOTS && (l / p + 1) * p + n * p == x
  {
    NotBefore(l, x, p);
    n := x / p - (l / p + 1);
    Distribute(l / p + 1, n, p);
    MulCancel(n, SCAN_SLOTS, p);
  }

  /** The slot at which the scan stops is the first fire after now. */
  lemma FirstReached(z: Zone, c: int, trig: Trigger, now: int, hi: int, i: nat)
    requires trig.Interval? && trig.every > 0 && 86400 % trig.every == 0
    requires GridSpan(z, trig.every, c, now, hi)
    requires var slot := Start(trig, c, now) + i * Period(trig); slot <= hi && Eligible(z, trig, slot)
    requires forall j: nat :: j < i ==> !Eligible(z, trig, Start(trig, c, now) + j * Period(trig))
    ensures IsFirstFire(z, trig, now, Start(trig, c, now) + i * Period(trig))
  {
    var p := Period(trig);
    var k := (now + c) / p + 1;
    var r := Start(trig, c, now) + i * p;
    NextMultipleLater(now + c, p, i);
    Distribute(k, i, p);
    ModMultiple(k + i, p, 0);
    GridIsSlots(z, trig.every, c, now, hi, r);
    forall t {:trigger IsFire(z, trig, t)} | now < t < r ensures !IsFire(z, trig, t) {
      SkippedSlot(z, c, trig, now, hi, t, i);
    }
  }

  /** An instant between now and a slot that the scan reached first is no fire. */
  lemma SkippedSlot(z: Zone, c: int, trig: Trigger, now: int, hi: int, t: int, i: nat)
    requires trig.Interval? && trig.every > 0 && 86400 % trig.every == 0
    requires GridSpan(z, trig.every, c, now, hi)
    requires now < t < Start(trig, c, now) + i * Period(trig) <= hi
    requires forall j: nat :: j < i ==> !Eligible(z, trig, Start(trig, c, now) + j * Period(trig))
    ensures !IsFire(z, trig, t)
  {
    var p := Period(trig);
    var k := (now + c) / p + 1;
    GridIsSlots(z, trig.every, c, now, hi, t);
    if (t + c) % p == 0 {
      NotBefore(now + c, t + c, p);
      var j := (t + c) / p - k;
      Distribute(k, j, p);
      MulCancel(j, i, p);
    }
  }

  // ---- a fire within reach ----

  /** An allowed weekday comes within the next seven days. */
  lemma AllowedWithinWeek(days: set<Weekday>, today: int) returns (date: int)
    ensures today < date <= today + 7 && Allows(days, WeekdayOf(date))
  {
    if days == {} {
      date := today + 1;
    } else {
      var w :| w in days;
      date := today + 1 + (w - (today + 1 + 3)) % 7;
      assert WeekdayOf(date) == w;
    }
  }

  /** An instant that shows a grid time on an allowed date is a fire. */
  lemma ShownIsFire(z: Zone, trig: Trigger, date: int, g: int, t: int)
    requires trig.Interval? && trig.every > 0 && 0 <= g < DAY && IsGridTime(trig, g)
    requires Allows(trig.days, WeekdayOf(date)) && Local(z, t) == date * DAY + g
    ensures IsFire(z, trig, t)
  {
    DivUnique(Local(z, t), DAY, date, g);
    hide InWindow, Allows;
  }

  lemma FireWithoutChange(z: Zone, c: int, trig: Trigger, now: int) returns (t: int)
    requires Steady(z, c, now) && trig.Interval? && trig.every > 0 && GridInWindow(trig)
    ensures now < t <= now + 8 * DAY && IsFire(z, trig, t)
  {
    var g :| 0 <= g < DAY && IsGridTime(trig, g);
    var date := AllowedWithinWeek(trig.days, DateOf(z, now));
    t := date * DAY + g - c;
    ShownIsFire(z, trig, date, g, t);
  }

  /**
  Around a change, a grid time that the change skips is shown a week later, and a
  week earlier if that is still to come.
  */
  lemma FireAroundChange(z: Zone, c1: int, c2: int, change: int, trig: Trigger, now: int) returns (t: int)
    requires OneChange(z, c1, c2, change, now) && trig.Interval? && trig.every > 0 && GridInWindow(trig)
    ensures now < t <= now + 14 * DAY && IsFire(z, trig, t)
  {
    hide IsFire, TimeOf, IsGridTime, Allows;
    var g :| 0 <= g < DAY && IsGridTime(trig, g);
    var date := AllowedWithinWeek(trig.days, DateOf(z, now));
    var weeks;
    weeks, t := ShownAroundChange(z, c1, c2, change, now, date, g);
    SameWeekday(date, weeks);
    ShownIsFire(z, trig, date + 7 * weeks, g, t);
  }

  lemma SameWeekday(date: int, weeks: int)
    ensures WeekdayOf(date + 7 * weeks) == WeekdayOf(date)
  {
  }

  lemma ShownAroundChange(z: Zone, c1: int, c2: int, change: int, now: int, date: int, g: int)
    returns (weeks: int, t: int)
    requires OneChange(z, c1, c2, change, now) && DateOf(z, now) < date <= DateOf(z, now) + 7 && 0 <= g < DAY
    ensures now < t <= now + 14 * DAY && Local(z, t) == (date + 7 * weeks) * DAY + g
  {
    DateBounds(Local(z, now));
    DateBounds(change - 1 + c1);
    DateBounds(change + c2);
    weeks, t := ChooseWeek(c1, c2, change, now, DateOf(z, now), (change + c2) / DAY, date, g);
  }

  /** The same in numbers: `today` is now's date, `day` the date of the change. */
  lemma ChooseWeek(c1: int, c2: int, change: int, now: int, today: int, day: int, date: int, g: int)
    returns (weeks: int, t: int)
    requires today * DAY <= now + OffsetAt(c1, c2, change, now) < today * DAY + DAY
    requires day * DAY <= change - 1 + c1 < day * DAY + DAY && day * DAY <= change + c2 < day * DAY + DAY
    requires today < date <= today + 7 && 0 <= g < DAY
    ensures now < t <= now + 14 * DAY
    ensures t + OffsetAt(c1, c2, change, t) == (date + 7 * weeks) * DAY + g
  {
    var l := date * DAY + g;
    if l - c1 < change {
      weeks, t := 0, l - c1;
    } else if l - c2 >= change {
      weeks, t := 0, l - c2;
    } else if l - 7 * DAY > now + c1 {
      weeks, t := -1, l - 7 * DAY - c1;
    } else {
      weeks, t := 1, l + 7 * DAY - c2;
    }
  }

  /** The clock's change divided, the whole search stays on the grid. */
  lemma SpanAroundChange(z: Zone, every: nat, c1: int, c2: int, change: int, now: int) returns (c: int)
    requires every > 0 && OneChange(z, c1, c2, change, now) && (c2 - c1) % (every * SECOND) == 0
    ensures GridSpan(z, every, c, now, now + 14 * DAY)
  {
    c := DateOf(z, now) * DAY - MidnightOf(c1, c2, change, DateOf(z, now));
    ModShift(c2, c1, every * SECOND);
    ModShift(c1, c2, every * SECOND);
    assert 0 % (every * SECOND) == 0;
  }

  /** Two weeks are within the reach of the scan, for an interval of a minute or more. */
  lemma TwoWeeksInReach(every: nat)
    requires every >= 60
    ensures 14 * DAY <= SCAN_SLOTS * (every * SECOND)
  {
    MulMono(60 * SECOND, every * SECOND, SCAN_SLOTS);
  }

  // ---- the promise ----

  lemma RegularSearch(z: Zone, trig: Trigger, now: int) returns (c: int)
    requires trig.Interval? && trig.every > 0 && Regular(z, trig.every, now)
    ensures GridSpan(z, trig.every, c, now, now + 8 * DAY)
  {
    if c0 :| Steady(z, c0, now) {
      c := c0;
      assert 0 % Period(trig) == 0;
    } else {
      var c1, c2, change :| OneChange(z, c1, c2, change, now) && (c2 - c1) % (trig.every * SECOND) == 0;
      c := SpanAroundChange(z, trig.every, c1, c2, change, now);
    }
  }

  /**
  An interval that divides the day, at least the minute that validation demands,
  whichever window and weekdays, where the clock does not change nearby or changes
  by a multiple of the interval: the answer is the first fire after now, and the
  bounded scan never runs out.
  */
  lemma IntervalKeepsPromise(z: Zone, trig: Trigger, now: int)
    requires trig.Interval? && trig.every >= 60 && 86400 % trig.every == 0
    requires Regular(z, trig.every, now) && GridInWindow(trig)
    ensures KeepsPromise(z, trig, now)
  {
    hide KeepsPromise, IsFire;
    TwoWeeksInReach(trig.every);
    if c :| Steady(z, c, now) {
      var t := FireWithoutChange(z, c, trig, now);
      assert 0 % Period(trig) == 0;
      SearchFindsFirst(z, c, trig, now, t);
    } else {
      var c1, c2, change :| OneChange(z, c1, c2, change, now) && (c2 - c1) % (trig.every * SECOND) == 0;
      var c := SpanAroundChange(z, trig.every, c1, c2, change, now);
      var t := FireAroundChange(z, c1, c2, change, trig, now);
      SearchFindsFirst(z, c, trig, now, t);
    }
  }

  /** No grid point in the window: in any zone, whatever is returned is no fire. */
  lemma EmptyWindowBreaks(z: Zone, trig: Trigger, now: int)
    requires trig.Interval? && CanAsk(z, trig, now) && !GridInWindow(trig)
    ensures !IsFire(z, trig, NextFireAfter(z, trig, now)) && !KeepsPromise(z, trig, now)
  {
    var r := NextFireAfter(z, trig, now);
    assert IsFire(z, trig, r) ==> IsGridTime(trig, TimeOf(z, r));
  }

  /** The exact condition on the window, for an interval that divides the day and the clock's changes. */
  lemma PromiseNeedsGridInWindow(z: Zone, trig: Trigger, now: int)
    requires trig.Interval? && trig.every >= 60 && 86400 % trig.every == 0
    requires Regular(z, trig.every, now)
    ensures KeepsPromise(z, trig, now) <==> GridInWindow(trig)
  {
    if GridInWindow(trig) {
      IntervalKeepsPromise(z, trig, now);
    } else {
      var c := RegularSearch(z, trig, now);
      StartsAtNextMultiple(z, c, trig, now);
      EmptyWindowBreaks(z, trig, now);
    }
  }

  /**
  An empty window passes validation when both ends are equal, and then the slot
  that is returned after the scan lies outside every window.
  */
  lemma EqualEndsNeverFire(z: Zone, trig: Trigger, now: int)
    requires trig.Interval? && CanAsk(z, trig, now)
    requires trig.activeFrom.Some? && trig.activeTo == trig.activeFrom
    ensures !IsFire(z, trig, NextFireAfter(z, trig, now)) && !KeepsPromise(z, trig, now)
  {
  }

  /** In the last nanosecond of a day, an interval that does not divide the day skips midnight. */
  lemma SkipsMidnight(z: Zone, c: int, every: nat)
    requires Fixed(z, c) && every > 0 && 86400 % every != 0
    ensures !KeepsPromise(z, Interval(every, {}, None, None), DAY - 1 - c)
  {
    var trig := Interval(every, {}, None, None);
    var now := DAY - 1 - c;
    assert DateOf(z, now) == 0;
    assert z.resolve(0 * DAY) == Single(-c);
    assert FirstSlot(every, -c, now) == (86399 / every + 1) * every;
    SlotPastDay(every);
    var slot := -c + FirstSlot(every, -c, now) * SECOND;
    assert Eligible(z, trig, slot);
    assert NextInterval(z, trig, now) == slot;
    var midnight := DAY - c;
    assert TimeOf(z, midnight) == 0;
    assert 0 % (every * SECOND) == 0;
    assert IsFire(z, trig, midnight);
  }

  lemma SlotPastDay(every: nat)
    requires every > 0 && 86400 % every != 0
    ensures (86399 / every + 1) * every > 86400
  {
    var q := 86399 / every;
    assert 86399 == q * every + 86399 % every;
    assert (q + 1) * every == q * every + every;
    if (q + 1) * every == 86400 {
      DivUnique(86400, every, q + 1, 0);
    }
  }

  // ---- what one change near now means ----

  /** The instant that the search takes for midnight shows midnight. */
  lemma MidnightShown(z: Zone, c1: int, c2: int, change: int, now: int)
    requires OneChange(z, c1, c2, change, now)
    ensures Local(z, MidnightOf(c1, c2, change, DateOf(z, now))) == DateOf(z, now) * DAY
  {
    DateBounds(change - 1 + c1);
    DateBounds(change + c2);
    MidnightNotSkipped(c1, c2, change, DateOf(z, now), (change + c2) / DAY);
  }

  /** The same in numbers: `day` is the date of the change. */
  lemma MidnightNotSkipped(c1: int, c2: int, change: int, date: int, day: int)
    requires day * DAY <= change - 1 + c1 < day * DAY + DAY && day * DAY <= change + c2 < day * DAY + DAY
    ensures var t := MidnightOf(c1, c2, change, date); t + OffsetAt(c1, c2, change, t) == date * DAY
  {
  }

  /** Dates do not run backwards. */
  lemma DatesAdvanceNear(z: Zone, c1: int, c2: int, change: int, now: int, t: int, u: int)
    requires OneChange(z, c1, c2, change, now)
    requires MidnightOf(c1, c2, change, DateOf(z, now)) <= t <= u <= now + 14 * DAY
    ensures DateOf(z, t) <= DateOf(z, u)
  {
    DateBounds(change - 1 + c1);
    DateBounds(change + c2);
    DateBounds(Local(z, t));
    DateBounds(Local(z, u));
    DatesInOrder(c1, c2, change, (change + c2) / DAY, t, u, DateOf(z, t), DateOf(z, u));
  }

  lemma DatesInOrder(c1: int, c2: int, change: int, day: int, t: int, u: int, date: int, date': int)
    requires day * DAY <= change - 1 + c1 < day * DAY + DAY && day * DAY <= change + c2 < day * DAY + DAY
    requires t <= u
    requires date * DAY <= t + OffsetAt(c1, c2, change, t) < date * DAY + DAY
    requires date' * DAY <= u + OffsetAt(c1, c2, change, u) < date' * DAY + DAY
    ensures date <= date'
  {
  }

  /** A change that shows in the offsets is the one. */
  lemma TheChange(z: Zone, c1: int, c2: int, change: int, now: int, t: int)
    requires OneChange(z, c1, c2, change, now)
    requires MidnightOf(c1, c2, change, DateOf(z, now)) < t <= now + 14 * DAY && z.offset(t) != z.offset(t - 1)
    ensures t == change && z.offset(t - 1) == c1 && z.offset(t) == c2
    ensures DateOf(z, now) * DAY - c1 < change
  {
    MidnightShown(z, c1, c2, change, now);
    assert z.offset(t) == OffsetAt(c1, c2, change, t) && z.offset(t - 1) == OffsetAt(c1, c2, change, t - 1);
    assert z.offset(MidnightOf(c1, c2, change, DateOf(z, now))) == c1;
  }

  /** If the clock's changes since the last midnight are divided, the moment is regular. */
  lemma RegularIfDivided(z: Zone, every: nat, c1: int, c2: int, change: int, now: int)
    requires every > 0 && OneChange(z, c1, c2, change, now) && ChangesDivided(z, every, now)
    ensures Regular(z, every, now)
  {
    var midnight := MidnightOf(c1, c2, change, DateOf(z, now));
    MidnightShown(z, c1, c2, change, now);
    if midnight < change <= now + 14 * DAY {
      assert SinceMidnight(z, now, change) && DividedAt(z, every, change);
      assert z.offset(change) == c2 && z.offset(change - 1) == c1;
    } else {
      assert Steady(z, z.offset(midnight), now);
    }
  }

  /** Later moments have later midnights. */
  lemma DividedLater(z: Zone, every: nat, from: int, now: int)
    requires every > 0 && from <= now && NearOneChange(z, from) && NearOneChange(z, now)
    requires ChangesDivided(z, every, from)
    ensures ChangesDivided(z, every, now)
  {
    var c1, c2, change :| OneChange(z, c1, c2, change, from);
    var d1, d2, change' :| OneChange(z, d1, d2, change', now);
    MidnightShown(z, c1, c2, change, from);
    MidnightShown(z, d1, d2, change', now);
    var m, m' := MidnightOf(c1, c2, change, DateOf(z, from)), MidnightOf(d1, d2, change', DateOf(z, now));
    if m' < m {
      DatesAdvanceNear(z, d1, d2, change', now, m', m);
      DatesAdvanceNear(z, d1, d2, change', now, from, now);
      DivUnique(Local(z, m), DAY, DateOf(z, from), 0);
      DivUnique(Local(z, m'), DAY, DateOf(z, now), 0);
      assert false;
    }
    forall t | SinceMidnight(z, now, t) ensures DividedAt(z, every, t) {
      assert SinceMidnight(z, from, t);
    }
  }

  // ---- the exact condition ----

  /** Whatever the scan returns is a slot. */
  lemma {:induction false} ScanIsSlot(z: Zone, trig: Trigger, slot: int, left: nat) returns (i: nat)
    requires trig.Interval?
    ensures Scan(z, trig, slot, left) == slot + i * Period(trig)
    decreases left
  {
    var p := Period(trig);
    assert slot + 0 * p == slot;
    if left == 0 || Eligible(z, trig, slot) {
      i := 0;
    } else {
      var k := ScanIsSlot(z, trig, slot + p, left - 1);
      SlotShift(slot, p, k);
      i := k + 1;
    }
  }

  /** The answer is a whole number of intervals after the midnight before now. */
  lemma AnswerIsSlot(z: Zone, c: int, trig: Trigger, now: int) returns (k: int)
    requires trig.Interval? && trig.every > 0 && GridSpan(z, trig.every, c, now, now)
    ensures CanAsk(z, trig, now) && NextFireAfter(z, trig, now) == DateOf(z, now) * DAY - c + k * Period(trig)
  {
    var dayStart := DateOf(z, now) * DAY - c;
    SearchScans(z, trig, now, dayStart);
    hide Scan, FirstSlot, DateOf, NextFireAfter, CanAsk;
    var q := (now - dayStart) / Period(trig) + 1;
    FirstSlotSpan(trig.every, dayStart, now);
    var i := ScanIsSlot(z, trig, dayStart + q * Period(trig), SCAN_SLOTS);
    Distribute(q, i, Period(trig));
    k := q + i;
  }

  /** From some moment on the clock stands still for thirteen days. */
  lemma QuietStretch(z: Zone, from: int) returns (u: int, c: int)
    requires ChangesRarely(z, from)
    ensures u >= from && forall t :: u <= t <= u + 13 * DAY ==> z.offset(t) == c
  {
    assert NearOneChange(z, from);
    var c1, c2, change :| OneChange(z, c1, c2, change, from);
    u, c := from, z.offset(from);
    if from < change <= from + 14 * DAY && c1 != c2 {
      assert NearOneChange(z, change - 1);
      var d1, d2, change' :| OneChange(z, d1, d2, change', change - 1);
      TheChange(z, d1, d2, change', change - 1, change);
      u, c := change, c2;
    }
  }

  /** Two dates into a quiet stretch, midnight is read at its offset. */
  lemma QuietMidnight(z: Zone, u: int, c: int, now: int)
    requires NearOneChange(z, now) && u <= now <= u + 13 * DAY
    requires forall t :: u <= t <= u + 13 * DAY ==> z.offset(t) == c
    requires DateOf(z, u) < DateOf(z, now)
    ensures z.resolve(DateOf(z, now) * DAY) == Single(DateOf(z, now) * DAY - c) && DateOf(z, now) * DAY - c <= now
  {
    var c1, c2, change :| OneChange(z, c1, c2, change, now);
    var midnight := MidnightOf(c1, c2, change, DateOf(z, now));
    MidnightShown(z, c1, c2, change, now);
    if midnight < u {
      DatesAdvanceNear(z, c1, c2, change, now, midnight, u);
      DivUnique(Local(z, midnight), DAY, DateOf(z, now), 0);
      assert false;
    }
  }

  /**
  Asked in the last nanosecond before an allowed date, with no change near: the
  first fire of that date is a slot of the date before, so the interval divides the
  day between them.
  */
  lemma PromiseNeedsDivisor(z: Zone, trig: Trigger, from: int)
    requires ChangesRarely(z, from) && trig.Interval? && trig.every > 0 && GridInWindow(trig)
    requires Reliable(z, trig, from)
    ensures 86400 % trig.every == 0
  {
    var u, c := QuietStretch(z, from);
    var g :| 0 <= g < DAY && IsGridTime(trig, g);
    var date := AllowedWithinWeek(trig.days, DateOf(z, u) + 1);
    var now := date * DAY - 1 - c;
    BeforeDate(z, u, c, date);
    assert NearOneChange(z, now) && KeepsPromise(z, trig, now);
    QuietMidnight(z, u, c, now);
    hide IsFire, NextFireAfter, DateOf, GridInWindow, ChangesRarely, Reliable;
    ShownIsFire(z, trig, date, g, date * DAY + g - c);
    DividesBetween(z, c, trig, date, g);
  }

  lemma BeforeDate(z: Zone, u: int, c: int, date: int)
    requires DateOf(z, u) + 2 <= date <= DateOf(z, u) + 8
    requires forall t :: u <= t <= u + 13 * DAY ==> z.offset(t) == c
    ensures u <= date * DAY - 1 - c <= u + 8 * DAY && DateOf(z, date * DAY - 1 - c) == date - 1
  {
    DateBounds(Local(z, u));
    assert z.offset(u) == c;
    DivUnique(date * DAY - 1, DAY, date - 1, DAY - 1);
  }

  lemma DividesBetween(z: Zone, c: int, trig: Trigger, date: int, g: int)
    requires trig.Interval? && trig.every > 0 && 0 <= g < DAY
    requires var now := date * DAY - 1 - c;
             && KeepsPromise(z, trig, now) && GridSpan(z, trig.every, c, now, now)
             && forall t :: now <= t <= now + 2 * DAY ==> z.offset(t) == c
    requires IsFire(z, trig, date * DAY + g - c)
    ensures 86400 % trig.every == 0
  {
    var now := date * DAY - 1 - c;
    var k := AnswerIsSlot(z, c, trig, now);
    var r := NextFireAfter(z, trig, now);
    assert IsFire(z, trig, r) && now < r <= date * DAY + g - c;
    FiresOnDate(z, c, trig, date, r, g, k);
  }

  lemma FiresOnDate(z: Zone, c: int, trig: Trigger, date: int, r: int, g: int, k: int)
    requires trig.Interval? && trig.every > 0 && TimeOf(z, r) % Period(trig) == 0 && 0 <= g < DAY
    requires z.offset(r) == c && z.offset(date * DAY - 1 - c) == c
    requires date * DAY - 1 - c < r <= date * DAY + g - c
    requires r == DateOf(z, date * DAY - 1 - c) * DAY - c + k * Period(trig)
    ensures 86400 % trig.every == 0
  {
    var x := r + c - date * DAY;
    DivUnique(date * DAY - 1, DAY, date - 1, DAY - 1);
    DivUnique(r + c, DAY, date, x);
    DayOfSlots(trig.every, k, x);
  }

  lemma DayOfSlots(every: nat, k: int, x: int)
    requires every > 0 && x % (every * SECOND) == 0 && DAY == k * (every * SECOND) - x
    ensures 86400 % every == 0
  {
    var p := every * SECOND;
    var q := k - x / p;
    assert x == (x / p) * p;
    Distribute(k, -(x / p), p);
    assert q * (every * SECOND) == (q * every) * SECOND;
    DivUnique(86400, every, q, 0);
  }

  /**
  Asked on the day of a change, from the last nanosecond before it on: no slot after
  the change is on the grid unless the interval divides the change.
  */
  lemma PromiseNeedsChangeDivided(z: Zone, c1: int, c2: int, change: int, trig: Trigger, now: int)
    requires OneChange(z, c1, c2, change, now) && DateOf(z, now) * DAY - c1 < change <= now + 1
    requires trig.Interval? && trig.every > 0 && 86400 % trig.every == 0 && GridInWindow(trig)
    requires KeepsPromise(z, trig, now)
    ensures (c2 - c1) % Period(trig) == 0
  {
    StartsAtNextMultiple(z, c1, trig, now);
    var i := ScanIsSlot(z, trig, Start(trig, c1, now), SCAN_SLOTS);
    var fire := FireAroundChange(z, c1, c2, change, trig, now);
    var r := NextFireAfter(z, trig, now);
    assert now < r <= fire && IsFire(z, trig, r) && z.offset(r) == c2;
    hide *;
    ShiftedSlot(trig, c1, c2, now, r, i);
  }

  lemma ShiftedSlot(trig: Trigger, c1: int, c2: int, now: int, r: int, i: nat)
    requires trig.Interval? && trig.every > 0 && 86400 % trig.every == 0
    requires r == Start(trig, c1, now) + i * Period(trig) && (r + c2) % DAY % Period(trig) == 0
    ensures (c2 - c1) % Period(trig) == 0
  {
    var p := Period(trig);
    var k := (now + c1) / p + 1;
    Distribute(k, i, p);
    ModMultiple(k + i, p, 0);
    TimeOnGrid(trig.every, r + c2);
    ModShift(r + c2, r + c1, p);
  }

  /** The exact condition at such a moment, in any zone whose other changes are not near. */
  lemma ChangeDayCondition(z: Zone, c1: int, c2: int, change: int, trig: Trigger, now: int)
    requires OneChange(z, c1, c2, change, now) && DateOf(z, now) * DAY - c1 < change <= now + 1
    requires trig.Interval? && trig.every >= 60 && 86400 % trig.every == 0 && GridInWindow(trig)
    ensures KeepsPromise(z, trig, now) <==> (c2 - c1) % Period(trig) == 0
  {
    if (c2 - c1) % Period(trig) == 0 {
      IntervalKeepsPromise(z, trig, now);
    } else if KeepsPromise(z, trig, now) {
      PromiseNeedsChangeDivided(z, c1, c2, change, trig, now);
    }
  }

  /** Each change since the midnight before `from` is divided: asked at `from`, or just before a later change. */
  lemma PromiseNeedsChangesDivided(z: Zone, trig: Trigger, from: int)
    requires ChangesRarely(z, from) && trig.Interval? && trig.every > 0 && 86400 % trig.every == 0
    requires GridInWindow(trig) && Reliable(z, trig, from)
    ensures ChangesDivided(z, trig.every, from)
  {
    forall t | SinceMidnight(z, from, t) ensures DividedAt(z, trig.every, t) {
      var now := if t <= from then from else t - 1;
      assert NearOneChange(z, now) && KeepsPromise(z, trig, now);
      var c1, c2, change :| OneChange(z, c1, c2, change, now);
      assert 0 % Period(trig) == 0;
      if z.offset(t) != z.offset(t - 1) {
        TheChange(z, c1, c2, change, now, t);
        PromiseNeedsChangeDivided(z, c1, c2, change, trig, now);
      }
    }
  }

  lemma RegularFromHere(z: Zone, every: nat, from: int, now: int)
    requires every > 0 && from <= now && ChangesRarely(z, from) && ChangesDivided(z, every, from)
    ensures Regular(z, every, now)
  {
    assert NearOneChange(z, from) && NearOneChange(z, now);
    DividedLater(z, every, from, now);
    var c1, c2, change :| OneChange(z, c1, c2, change, now);
    RegularIfDivided(z, every, c1, c2, change, now);
  }

  /**
  The promise of wall-clock multiples, in a zone whose clock changes now and then and
  for any window and weekdays, is kept from a moment on exactly when the interval
  divides the day and every change since the midnight before, and the window
  contains a multiple of it.
  */
  lemma PromiseCondition(z: Zone, trig: Trigger, from: int)
    requires ChangesRarely(z, from) && trig.Interval? && trig.every >= 60
    ensures Reliable(z, trig, from)
       <==> 86400 % trig.every == 0 && ChangesDivided(z, trig.every, from) && GridInWindow(trig)
  {
    if 86400 % trig.every == 0 && ChangesDivided(z, trig.every, from) && GridInWindow(trig) {
      forall now | now >= from ensures KeepsPromise(z, trig, now) {
        RegularFromHere(z, trig.every, from, now);
        IntervalKeepsPromise(z, trig, now);
      }
    } else if Reliable(z, trig, from) {
      assert KeepsPromise(z, trig, from);
      if !GridInWindow(trig) {
        EmptyWindowBreaks(z, trig, from);
      } else {
        PromiseNeedsDivisor(z, trig, from);
        PromiseNeedsChangesDivided(z, trig, from);
      }
    }
  }

  /** An unfiltered interval of any length that divides the day: the changes decide. */
  lemma ChangeCondition(z: Zone, every: nat, from: int)
    requires ChangesRarely(z, from) && every > 0 && 86400 % every == 0
    ensures Reliable(z, Interval(every, {}, None, None), from) <==> ChangesDivided(z, every, from)
  {
    var trig := Interval(every, {}, None, None);
    if ChangesDivided(z, every, from) {
      forall now | now >= from ensures KeepsPromise(z, trig, now) {
        RegularFromHere(z, every, from, now);
        UnfilteredKeepsPromise(z, every, now);
      }
    } else if Reliable(z, trig, from) {
      assert 0 % (every * SECOND) == 0;
      assert IsGridTime(trig, 0);
      PromiseNeedsChangesDivided(z, trig, from);
    }
  }

  /** Without filters every slot is eligible, so the first one is the answer. */
  lemma UnfilteredKeepsPromise(z: Zone, every: nat, now: int)
    requires every > 0 && 86400 % every == 0 && Regular(z, every, now)
    ensures KeepsPromise(z, Interval(every, {}, None, None), now)
  {
    var trig := Interval(every, {}, None, None);
    var p := every * SECOND;
    var c := RegularSearch(z, trig, now);
    StartsAtNextMultiple(z, c, trig, now);
    var r := Start(trig, c, now);
    assert p <= DAY by { var m := DayDivides(every); MulMono(1, m, p); }
    ModMultiple((now + c) / p + 1, p, 0);
    GridIsSlots(z, every, c, now, now + 8 * DAY, r);
    assert p <= SCAN_SLOTS * p by { MulMono(1, SCAN_SLOTS, p); }
    SearchFindsFirst(z, c, trig, now, r);
  }

  // ---- zones with one change, or none ----

  lemma ChangesOnceIsOneChange(z: Zone, c1: int, c2: int, change: int, now: int)
    requires ChangesOnce(z, c1, c2, change)
    ensures OneChange(z, c1, c2, change, now)
  {
    assert MidnightIs(z, DateOf(z, now), MidnightOf(c1, c2, change, DateOf(z, now)));
  }

  lemma OnceIsRare(z: Zone, c1: int, c2: int, change: int, every: nat)
    requires ChangesOnce(z, c1, c2, change) && every > 0
    ensures ChangesRarely(z, change - 1)
    ensures ChangesDivided(z, every, change - 1) ==> (c2 - c1) % (every * SECOND) == 0
  {
    forall now | now >= change - 1 ensures NearOneChange(z, now) {
      ChangesOnceIsOneChange(z, c1, c2, change, now);
    }
    ChangesOnceIsOneChange(z, c1, c2, change, change - 1);
    assert SinceMidnight(z, change - 1, change);
    assert ChangesDivided(z, every, change - 1) ==> DividedAt(z, every, change);
  }

  /** With a single change for ever, at every moment of all time. */
  lemma OnceCondition(z: Zone, c1: int, c2: int, change: int, trig: Trigger)
    requires ChangesOnce(z, c1, c2, change) && trig.Interval? && trig.every >= 60
    ensures (forall now :: KeepsPromise(z, trig, now))
       <==> 86400 % trig.every == 0 && (c2 - c1) % Period(trig) == 0 && GridInWindow(trig)
  {
    if 86400 % trig.every == 0 && (c2 - c1) % Period(trig) == 0 && GridInWindow(trig) {
      forall now ensures KeepsPromise(z, trig, now) {
        ChangesOnceIsOneChange(z, c1, c2, change, now);
        IntervalKeepsPromise(z, trig, now);
      }
    } else if forall now :: KeepsPromise(z, trig, now) {
      OnceIsRare(z, c1, c2, change, trig.every);
      hide ChangesOnce, KeepsPromise, ChangesDivided, ChangesRarely, GridInWindow, Period;
      PromiseCondition(z, trig, change - 1);
    }
  }

  lemma FixedChangesOnce(z: Zone, c: int)
    requires Fixed(z, c)
    ensures ChangesOnce(z, c, c, 1 - c)
  {
  }

  /** Without clock changes, the day and the window decide. */
  lemma FixedCondition(z: Zone, c: int, trig: Trigger)
    requires Fixed(z, c) && trig.Interval? && trig.every >= 60
    ensures (forall now :: KeepsPromise(z, trig, now)) <==> 86400 % trig.every == 0 && GridInWindow(trig)
  {
    FixedChangesOnce(z, c);
    OnceCondition(z, c, c, 1 - c, trig);
    assert 0 % Period(trig) == 0;
  }

  // ---- what a fire is, on the face of the clock ----

  /** From `from` on and before `to`, going round the clock as far as it takes. */
  predicate OnFace(t: int, from: Option<int>, to: Option<int>) {
    from.Some? && to.Some? ==> (t - from.value) % DAY < (to.value - from.value) % DAY
  }

  /** The ends of a window are times of day. */
  predicate TimesOfDay(from: Option<int>, to: Option<int>) {
    (from.Some? ==> 0 <= from.value < DAY) && (to.Some? ==> 0 <= to.value < DAY)
  }

  lemma WindowOnFace(t: int, from: Option<int>, to: Option<int>)
    requires 0 <= t < DAY && TimesOfDay(from, to)
    ensures InWindow(t, from, to) <==> OnFace(t, from, to)
  {
    if from.Some? && to.Some? {
      RoundTheClock(t - from.value);
      RoundTheClock(to.value - from.value);
    }
  }

  lemma RoundTheClock(x: int)
    requires -DAY < x < DAY
    ensures x % DAY == if x < 0 then x + DAY else x
  {
  }

  /** The date is this weekday: whole weeks away from that day of the week of Thursday, 1 January 1970; 0 is Monday. */
  predicate FallsOn(date: int, w: Weekday) {
    (date - (w - 3)) % 7 == 0
  }

  lemma WeekdayFalls(date: int, w: Weekday)
    ensures WeekdayOf(date) == w <==> FallsOn(date, w)
  {
  }

  /** 1 January 2024, 19723 days later, was a Monday; and the days of the week follow each other. */
  lemma KnownWeekdays(date: int)
    ensures WeekdayOf(0) == 3 && WeekdayOf(19723) == 0
    ensures WeekdayOf(date + 1) == (WeekdayOf(date) + 1) % 7
  {
  }

  /** What an interval trigger means to fire at. */
  predicate MeantToFire(z: Zone, trig: Trigger, t: int)
    requires trig.Interval?
  {
    && trig.every > 0 && TimeOf(z, t) % (trig.every * SECOND) == 0
    && OnFace(TimeOf(z, t), trig.activeFrom, trig.activeTo)
    && (trig.days == {} || exists w :: w in trig.days && FallsOn(DateOf(z, t), w))
  }

  lemma FireIsMeant(z: Zone, trig: Trigger, t: int)
    requires trig.Interval? && TimesOfDay(trig.activeFrom, trig.activeTo)
    ensures IsFire(z, trig, t) <==> MeantToFire(z, trig, t)
  {
    WindowOnFace(TimeOf(z, t), trig.activeFrom, trig.activeTo);
    WeekdayFalls(DateOf(z, t), WeekdayOf(DateOf(z, t)));
    forall w | FallsOn(DateOf(z, t), w) ensures WeekdayOf(DateOf(z, t)) == w {
      WeekdayFalls(DateOf(z, t), w);
    }
  }

  /** A multiple of the interval within the window. */
  ghost predicate FaceHasMultiple(trig: Trigger)
    requires trig.Interval? && trig.every > 0
  {
    exists g :: 0 <= g < DAY && IsMultiple(trig, g) && OnFace(g, trig.activeFrom, trig.activeTo)
  }

  predicate IsMultiple(trig: Trigger, g: int)
    requires trig.Interval? && trig.every > 0
  {
    g % (trig.every * SECOND) == 0
  }

  lemma GridIsOnFace(trig: Trigger)
    requires trig.Interval? && trig.every > 0 && TimesOfDay(trig.activeFrom, trig.activeTo)
    ensures GridInWindow(trig) <==> FaceHasMultiple(trig)
  {
    forall g | 0 <= g < DAY
      ensures IsGridTime(trig, g) <==> IsMultiple(trig, g) && OnFace(g, trig.activeFrom, trig.activeTo)
    {
      WindowOnFace(g, trig.activeFrom, trig.activeTo);
    }
    hide InWindow, OnFace;
    if GridInWindow(trig) {
      var g :| 0 <= g < DAY && IsGridTime(trig, g);
      assert IsMultiple(trig, g);
    }
    if FaceHasMultiple(trig) {
      var g :| 0 <= g < DAY && IsMultiple(trig, g) && OnFace(g, trig.activeFrom, trig.activeTo);
      assert IsGridTime(trig, g);
    }
  }

  /** The answer is the first instant after now that the trigger means. */
  ghost predicate AnswersFirst(z: Zone, trig: Trigger, now: int)
    requires trig.Interval?
  {
    CanAsk(z, trig, now) &&
    var r := NextFireAfter(z, trig, now);
    now < r && MeantToFire(z, trig, r) && forall t :: now < t < r ==> !MeantToFire(z, trig, t)
  }

  lemma PromiseOnFace(z: Zone, trig: Trigger, now: int)
    requires trig.Interval? && TimesOfDay(trig.activeFrom, trig.activeTo)
    ensures KeepsPromise(z, trig, now) <==> AnswersFirst(z, trig, now)
  {
    forall t ensures IsFire(z, trig, t) <==> MeantToFire(z, trig, t) {
      FireIsMeant(z, trig, t);
    }
    hide IsFire, MeantToFire, NextFireAfter;
  }

  /** `PromiseCondition`, said of the clock face: with windows over midnight, and weekdays by counting weeks. */
  lemma FaceCondition(z: Zone, trig: Trigger, from: int)
    requires ChangesRarely(z, from) && trig.Interval? && trig.every >= 60
    requires TimesOfDay(trig.activeFrom, trig.activeTo)
    ensures (forall now :: now >= from ==> AnswersFirst(z, trig, now))
       <==> 86400 % trig.every == 0 && ChangesDivided(z, trig.every, from) && FaceHasMultiple(trig)
  {
    PromiseCondition(z, trig, from);
    GridIsOnFace(trig);
    forall now ensures KeepsPromise(z, trig, now) <==> AnswersFirst(z, trig, now) {
      PromiseOnFace(z, trig, now);
    }
    hide KeepsPromise, AnswersFirst;
  }

  /** Over midnight: from 22:00 to 02:00, hourly, asked at 21:10, the answer is 22:00 of the same day. */
  lemma NightWindow(z: Zone)
    requires Fixed(z, 0)
    ensures var trig := Interval(3600, {}, Some(22 * HOUR), Some(2 * HOUR)); var now := 21 * HOUR + 600 * SECOND;
            CanAsk(z, trig, now) && NextFireAfter(z, trig, now) == 22 * HOUR
  {
    var trig := Interval(3600, {}, Some(22 * HOUR), Some(2 * HOUR));
    var now := 21 * HOUR + 600 * SECOND;
    assert z.resolve(0 * DAY) == Single(0) && DateOf(z, now) == 0;
    assert FirstSlot(3600, 0, now) == 79200;
    assert Eligible(z, trig, 22 * HOUR);
  }

  /** One spring day: at 02:00 local time, an hour after instant 0, the clock jumps to 03:00. */
  const SPRING: Zone := Zone(
    t => if t < HOUR then HOUR else 2 * HOUR,
    l => if l < 2 * HOUR then Single(l - HOUR) else if l < 3 * HOUR then Gap else Single(l - 2 * HOUR))

  /** Slots are counted in elapsed time, so after a clock change they leave the wall-clock grid. */
  lemma ClockChangeMisaligns()
    ensures !KeepsPromise(SPRING, Interval(7200, {}, None, None), HOUR / 2)
    ensures CanAsk(SPRING, Interval(7200, {}, None, None), HOUR / 2)
    ensures TimeOf(SPRING, NextInterval(SPRING, Interval(7200, {}, None, None), HOUR / 2)) == 3 * HOUR
  {
    var trig := Interval(7200, {}, None, None);
    assert Local(SPRING, HOUR / 2) == HOUR + HOUR / 2;
    assert DateOf(SPRING, HOUR / 2) == 0;
    assert SPRING.resolve(0 * DAY) == Single(-HOUR);
    assert FirstSlot(7200, -HOUR, HOUR / 2) == 7200;
    assert Eligible(SPRING, trig, HOUR);
    assert NextInterval(SPRING, trig, HOUR / 2) == HOUR;
    assert Local(SPRING, HOUR) == 3 * HOUR;
  }
}
