/**
How often each schedule fired today. Recording and saving are separate critical
sections, so a save works on a snapshot that may be out of date when it ends.
*/
module Telemetry {
  import opened Text

  const U32_MAX: nat := 0xFFFF_FFFF
  /** Five seconds, in nanoseconds. */
  const FLUSH_INTERVAL: nat := 5_000_000_000

  /** Dates are days of the Berlin calendar. */
  datatype Runtime = Runtime(lastFiredAt: Option<int>, firesToday: nat, dayAnchor: Option<int>)

  type Map = map<string, Runtime>

  const FRESH: Runtime := Runtime(None, 0, None)

  function RolledOver(r: Runtime, today: int): Runtime {
    if r.dayAnchor == Some(today) then r else r.(dayAnchor := Some(today), firesToday := 0)
  }

  /** One fire, at an instant and its date. */
  function Fired(m: Map, name: string, at: int, today: int): Map {
    var r := RolledOver(if name in m then m[name] else FRESH, today);
    m[name := r.(lastFiredAt := Some(at), firesToday := if r.firesToday < U32_MAX then r.firesToday + 1 else r.firesToday)]
  }

  class TelemetryState {
    var entries: Map
    var dirty: bool
    var lastFlush: int

    constructor Open(stored: Option<Map>, now: int)
      ensures entries == (if stored.Some? then stored.value else map[]) && !dirty && lastFlush == now
    {
      entries := if stored.Some? then stored.value else map[];
      dirty, lastFlush := false, now;
    }

    /** The first critical section of `record_fire`: what to save, if it is time to. */
    method Record(name: string, at: int, today: int, now: int) returns (toSave: Option<Map>)
      modifies this
      ensures entries == Fired(old(entries), name, at, today) && dirty && lastFlush == old(lastFlush)
      ensures toSave == if now - lastFlush >= FLUSH_INTERVAL then Some(entries) else None
    {
      var entry := if name in entries then entries[name] else FRESH;
      if entry.dayAnchor != Some(today) {
        entry := entry.(dayAnchor := Some(today), firesToday := 0);
      }
      entry := entry.(lastFiredAt := Some(at));
      entry := entry.(firesToday := if entry.firesToday < U32_MAX then entry.firesToday + 1 else entry.firesToday);
      entries := entries[name := entry];
      dirty := true;
      toSave := if now - lastFlush >= FLUSH_INTERVAL then Some(entries) else None;
    }

    /** The first critical section of `flush`. */
    method Pending() returns (toSave: Option<Map>)
      ensures toSave == if dirty then Some(entries) else None
    {
      toSave := if dirty then Some(entries) else None;
    }

    /** The second critical section of both, after a save that succeeded. */
    method SaveSucceeded(now: int)
      modifies this
      ensures entries == old(entries) && !dirty && lastFlush == now
    {
      dirty := false;
      lastFlush := now;
    }
  }

  // ---- runs ----

  /** A save under way: its snapshot, and whether it has replaced the file. */
  datatype Save = Save(table: Map, written: bool)

  datatype State = State(entries: Map, dirty: bool, lastFlush: int, file: Option<Map>, saving: seq<Save>)

  /**
  A save, once begun, replaces the file with its snapshot or fails; after that it
  takes the lock again to mark the store clean. Any of those under way may be next.
  */
  datatype Event =
    | RecordFire(name: string, at: int, today: int, now: int)
    | Flush
    | FileReplaced(which: nat)
    | SaveFailed(which: nat)
    | MarkedClean(which: nat, now: int)

  function Removed<T>(s: seq<T>, i: nat): seq<T>
    requires i < |s|
  {
    s[..i] + s[i + 1..]
  }

  /** Whether a save can take this step. */
  predicate Possible(s: State, e: Event) {
    match e
    case FileReplaced(which) => which < |s.saving| && !s.saving[which].written
    case SaveFailed(which) => which < |s.saving| && !s.saving[which].written
    case MarkedClean(which, _) => which < |s.saving| && s.saving[which].written
    case _ => true
  }

  function Step(s: State, e: Event): State {
    if !Possible(s, e) then s
    else
      match e
      case RecordFire(name, at, today, now) =>
        var entries := Fired(s.entries, name, at, today);
        s.(entries := entries, dirty := true,
           saving := if now - s.lastFlush >= FLUSH_INTERVAL then s.saving + [Save(entries, false)] else s.saving)
      case Flush => if s.dirty then s.(saving := s.saving + [Save(s.entries, false)]) else s
      case FileReplaced(which) =>
        var save := s.saving[which];
        s.(file := Some(save.table), saving := s.saving[which := save.(written := true)])
      case SaveFailed(which) => s.(saving := Removed(s.saving, which))
      case MarkedClean(which, now) => s.(saving := Removed(s.saving, which), dirty := false, lastFlush := now)
  }

  /** From a file, or from nothing, as on opening the store. */
  function Opened(stored: Option<Map>, now: int): State {
    State(if stored.Some? then stored.value else map[], false, now, stored, [])
  }

  function Run(s: State, events: seq<Event>): State {
    if events == [] then s else Step(Run(s, events[..|events| - 1]), events[|events| - 1])
  }

  // ---- counting ----

  /** The dates of a schedule's fires, in the order in which they were recorded. */
  function FireDates(events: seq<Event>, name: string): seq<int> {
    if events == [] then []
    else
      var e := events[|events| - 1];
      FireDates(events[..|events| - 1], name) + if e.RecordFire? && e.name == name then [e.today] else []
  }

  /** The `n` last fires are all those at the end that share the last fire's date. */
  ghost predicate LongestSuffix(dates: seq<int>, n: nat) {
    && 1 <= n <= |dates|
    && (forall i :: |dates| - n <= i < |dates| ==> dates[i] == dates[|dates| - 1])
    && (n < |dates| ==> dates[|dates| - n - 1] != dates[|dates| - 1])
  }

  function Capped(n: nat): nat {
    if n <= U32_MAX then n else U32_MAX
  }

  ghost predicate CountsToday(r: Runtime, dates: seq<int>, n: nat) {
    LongestSuffix(dates, n) && r.firesToday == Capped(n) && r.dayAnchor == Some(dates[|dates| - 1])
  }

  lemma FireCounts(m: Map, name: string, at: int, today: int, dates: seq<int>, n: nat) returns (n': nat)
    requires if dates == [] then name !in m else name in m && CountsToday(m[name], dates, n)
    ensures CountsToday(Fired(m, name, at, today)[name], dates + [today], n')
  {
    var dates' := dates + [today];
    if dates != [] && dates[|dates| - 1] == today {
      n' := n + 1;
      forall i | |dates'| - n' <= i < |dates'| ensures dates'[i] == today {
        assert i < |dates| ==> dates[i] == today;
      }
      assert n' < |dates'| ==> dates'[|dates'| - n' - 1] == dates[|dates| - n - 1];
    } else {
      n' := 1;
    }
  }

  /**
  However recordings and saves interleave, a schedule's counter is the number of its
  last fires in a row that share the last one's date, up to the 32-bit limit.
  */
  lemma {:induction false} FiresTodayIsSuffix(events: seq<Event>, now: int, name: string) returns (n: nat)
    ensures var s := Run(Opened(None, now), events);
            var dates := FireDates(events, name);
            if dates == [] then name !in s.entries else name in s.entries && CountsToday(s.entries[name], dates, n)
  {
    n := 0;
    if events == [] {
    } else {
      var k := |events| - 1;
      n := FiresTodayIsSuffix(events[..k], now, name);
      var before := Run(Opened(None, now), events[..k]);
      var e := events[k];
      if e.RecordFire? && e.name == name {
        n := FireCounts(before.entries, name, e.at, e.today, FireDates(events[..k], name), n);
      } else {
        assert FireDates(events, name) == FireDates(events[..k], name);
      }
    }
  }

  /** The instant of the last fire of a schedule, if there was one. */
  function LastFireOf(events: seq<Event>, name: string): Option<int> {
    if events == [] then None
    else
      var e := events[|events| - 1];
      if e.RecordFire? && e.name == name then Some(e.at) else LastFireOf(events[..|events| - 1], name)
  }

  /** The table has the schedules that fired, each with the instant of its last fire, on top of what was stored. */
  lemma {:induction false} LastFiredIsLast(stored: Option<Map>, now: int, events: seq<Event>, name: string)
    ensures var s := Run(Opened(stored, now), events); var before := Opened(stored, now).entries;
            && (name in s.entries <==> name in before || LastFireOf(events, name).Some?)
            && (name in s.entries ==>
                  if LastFireOf(events, name).Some? then s.entries[name].lastFiredAt == LastFireOf(events, name)
                  else s.entries[name] == before[name])
  {
    if events == [] {
    } else {
      LastFiredIsLast(stored, now, events[..|events| - 1], name);
    }
  }

  // ---- saving ----

  /** What is on disk, or would be read as such. */
  function OnDisk(s: State): Map {
    if s.file.Some? then s.file.value else map[]
  }

  ghost predicate OnDiskWhenClean(s: State) {
    !s.dirty ==> OnDisk(s) == s.entries
  }

  function After(s: State, events: seq<Event>, k: nat): State
    requires k <= |events|
  {
    Run(s, events[..k])
  }

  lemma AfterStep(s: State, events: seq<Event>, k: nat)
    requires k < |events|
    ensures After(s, events, k + 1) == Step(After(s, events, k), events[k])
  {
    assert events[..k + 1][..k] == events[..k];
  }

  /** What the log says: how many events each snapshot under way has seen, and how many the file has. */
  datatype Seen = Seen(starts: seq<nat>, onDisk: nat)

  /** `k` is the number of events before this one. */
  function NextSeen(s: State, e: Event, h: Seen, k: nat): Seen {
    if !Possible(s, e) || |h.starts| != |s.saving| then h
    else
      match e
      case RecordFire(_, _, _, now) =>
        if now - s.lastFlush >= FLUSH_INTERVAL then h.(starts := h.starts + [k + 1]) else h
      case Flush => if s.dirty then h.(starts := h.starts + [k + 1]) else h
      case FileReplaced(which) => h.(onDisk := h.starts[which])
      case SaveFailed(which) => h.(starts := Removed(h.starts, which))
      case MarkedClean(which, _) => h.(starts := Removed(h.starts, which))
  }

  function SeenAfter(s: State, events: seq<Event>, k: nat): Seen
    requires k <= |events|
  {
    if k == 0 then Seen([], 0)
    else NextSeen(After(s, events, k - 1), events[k - 1], SeenAfter(s, events, k - 1), k - 1)
  }

  /** The table at the beginning and after each event. */
  function Tables(s: State, events: seq<Event>): seq<Map> {
    seq(|events| + 1, i requires 0 <= i <= |events| => After(s, events, i).entries)
  }

  /** Snapshots and the file are the tables that the log says. */
  ghost predicate Dated(s: State, h: Seen, tables: seq<Map>, k: nat) {
    && |s.saving| == |h.starts| && h.onDisk <= k < |tables| && OnDisk(s) == tables[h.onDisk]
    && forall j :: 0 <= j < |s.saving| ==> h.starts[j] <= k && s.saving[j].table == tables[h.starts[j]]
  }

  lemma StepKeepsDated(s: State, e: Event, h: Seen, tables: seq<Map>, k: nat)
    requires Dated(s, h, tables, k) && k + 1 < |tables|
    requires tables[k] == s.entries && tables[k + 1] == Step(s, e).entries
    ensures Dated(Step(s, e), NextSeen(s, e, h, k), tables, k + 1)
  {
    hide Fired;
  }

  lemma {:induction false} SnapshotsAreTables(stored: Option<Map>, now: int, events: seq<Event>, k: nat)
    requires k <= |events|
    ensures var s := Opened(stored, now); Dated(After(s, events, k), SeenAfter(s, events, k), Tables(s, events), k)
  {
    var s := Opened(stored, now);
    if k == 0 {
    } else {
      SnapshotsAreTables(stored, now, events, k - 1);
      AfterStep(s, events, k - 1);
      hide Step, NextSeen, Dated;
      StepKeepsDated(After(s, events, k - 1), events[k - 1], SeenAfter(s, events, k - 1), Tables(s, events), k - 1);
    }
  }

  /** The file has the table as it was after those events. */
  lemma DiskIsTable(stored: Option<Map>, now: int, events: seq<Event>, k: nat)
    requires k <= |events|
    ensures var s := Opened(stored, now); var seen := SeenAfter(s, events, k).onDisk;
            seen <= k && OnDisk(After(s, events, k)) == After(s, events, seen).entries
  {
    SnapshotsAreTables(stored, now, events, k);
    hide After, SeenAfter;
  }

  /** No fire is recorded by the events from the `i`th to the one before the `k`th. */
  ghost predicate NoFire(events: seq<Event>, i: nat, k: nat) {
    forall f :: i <= f < k && f < |events| ==> !events[f].RecordFire?
  }

  lemma {:induction false} QuietKeepsEntries(s: State, events: seq<Event>, i: nat, k: nat)
    requires i <= k <= |events| && NoFire(events, i, k)
    ensures After(s, events, i).entries == After(s, events, k).entries
    decreases k
  {
    if i == k {
    } else {
      QuietKeepsEntries(s, events, i, k - 1);
      AfterStep(s, events, k - 1);
    }
  }

  /**
  A save that replaces the file of a clean store, or after which the store is marked
  clean, leaves a file that has seen every fire.
  */
  ghost predicate SeesEveryFire(s: State, events: seq<Event>, k: nat)
    requires k < |events|
  {
    && Possible(After(s, events, k), events[k])
    && (events[k].FileReplaced? || events[k].MarkedClean?)
    && !After(s, events, k + 1).dirty
    ==> NoFire(events, SeenAfter(s, events, k + 1).onDisk, k)
  }

  /** A clean store's file has seen every fire, if that is so of each such save. */
  lemma {:induction false} CleanHasSeen(stored: Option<Map>, now: int, events: seq<Event>, k: nat)
    requires k <= |events| && forall i :: 0 <= i < k ==> SeesEveryFire(Opened(stored, now), events, i)
    ensures var s := Opened(stored, now);
            !After(s, events, k).dirty ==> NoFire(events, SeenAfter(s, events, k).onDisk, k)
  {
    var s := Opened(stored, now);
    if k == 0 {
    } else {
      CleanHasSeen(stored, now, events, k - 1);
      AfterStep(s, events, k - 1);
      assert SeesEveryFire(s, events, k - 1);
      hide After, Opened, Run;
    }
  }

  /** So in every run, however saves overlap: when they see every fire, a clean store would be read back as it is. */
  lemma CleanIsSaved(stored: Option<Map>, now: int, events: seq<Event>, k: nat)
    requires k <= |events| && forall i :: 0 <= i < k ==> SeesEveryFire(Opened(stored, now), events, i)
    ensures OnDiskWhenClean(After(Opened(stored, now), events, k))
  {
    var s := Opened(stored, now);
    if !After(s, events, k).dirty {
      CleanHasSeen(stored, now, events, k);
      DiskIsTable(stored, now, events, k);
      QuietKeepsEntries(s, events, SeenAfter(s, events, k).onDisk, k);
    }
  }

  // ---- why that is necessary: a fire is never undone ----

  predicate Earlier(r: Runtime, r': Runtime) {
    && r'.dayAnchor.Some?
    && (r.dayAnchor.Some? ==>
          || r.dayAnchor.value < r'.dayAnchor.value
          || (r.dayAnchor == r'.dayAnchor && r.firesToday < r'.firesToday))
  }

  ghost predicate Grows(m: Map, m': Map) {
    forall name :: name in m ==> name in m' && (m[name] == m'[name] || Earlier(m[name], m'[name]))
  }

  predicate Grown(m: Map, m': Map, name: string) {
    name in m' && (name in m ==> Earlier(m[name], m'[name]))
  }

  /** The date does not run backwards and the counter is not at its limit. */
  predicate Raises(m: Map, e: Event) {
    e.RecordFire? && e.name in m && m[e.name].dayAnchor.Some? ==>
      || m[e.name].dayAnchor.value < e.today
      || (m[e.name].dayAnchor.value == e.today && m[e.name].firesToday < U32_MAX)
  }

  ghost predicate EveryFireRaises(s: State, events: seq<Event>) {
    forall k :: 0 <= k < |events| ==> Raises(After(s, events, k).entries, events[k])
  }

  lemma StepGrows(s: State, e: Event)
    requires Raises(s.entries, e)
    ensures Grows(s.entries, Step(s, e).entries)
    ensures e.RecordFire? ==> Grown(s.entries, Step(s, e).entries, e.name)
  {
  }

  lemma {:induction false} TableGrows(s: State, events: seq<Event>, i: nat, k: nat)
    requires EveryFireRaises(s, events) && i <= k <= |events|
    ensures Grows(After(s, events, i).entries, After(s, events, k).entries)
    decreases k
  {
    hide Step, Raises;
    if i == k {
    } else {
      TableGrows(s, events, i, k - 1);
      AfterStep(s, events, k - 1);
      StepGrows(After(s, events, k - 1), events[k - 1]);
      hide After, EveryFireRaises;
    }
  }

  /** A table before a fire is not the table at any time after it. */
  lemma FireIsNotUndone(s: State, events: seq<Event>, i: nat, fire: nat, k: nat)
    requires EveryFireRaises(s, events) && i <= fire < k <= |events| && events[fire].RecordFire?
    ensures After(s, events, i).entries != After(s, events, k).entries
  {
    TableGrows(s, events, i, fire);
    AfterStep(s, events, fire);
    StepGrows(After(s, events, fire), events[fire]);
    TableGrows(s, events, fire + 1, k);
    hide After, Step, EveryFireRaises;
    assert Grown(After(s, events, i).entries, After(s, events, k).entries, events[fire].name);
  }

  /** The file is current exactly when no fire has been recorded since the events it has seen. */
  lemma DiskIsCurrent(stored: Option<Map>, now: int, events: seq<Event>, k: nat)
    requires EveryFireRaises(Opened(stored, now), events) && k <= |events|
    ensures var s := Opened(stored, now);
            OnDisk(After(s, events, k)) == After(s, events, k).entries
            <==> NoFire(events, SeenAfter(s, events, k).onDisk, k)
  {
    var s := Opened(stored, now);
    var seen := SeenAfter(s, events, k).onDisk;
    DiskIsTable(stored, now, events, k);
    if NoFire(events, seen, k) {
      QuietKeepsEntries(s, events, seen, k);
    } else {
      var f :| seen <= f < k && events[f].RecordFire?;
      FireIsNotUndone(s, events, seen, f, k);
    }
  }

  /**
  A store that takes itself to be clean is on disk as it is, at every moment of a
  run, exactly when each save that replaces the file of a clean store, or after
  which the store is marked clean, leaves a file that has seen every fire.
  */
  lemma CleanCondition(stored: Option<Map>, now: int, events: seq<Event>)
    requires EveryFireRaises(Opened(stored, now), events)
    ensures var s := Opened(stored, now);
            (forall k :: 0 <= k <= |events| ==> OnDiskWhenClean(After(s, events, k)))
            <==> (forall k :: 0 <= k < |events| ==> SeesEveryFire(s, events, k))
  {
    var s := Opened(stored, now);
    if forall k :: 0 <= k < |events| ==> SeesEveryFire(s, events, k) {
      forall k | 0 <= k <= |events| ensures OnDiskWhenClean(After(s, events, k)) {
        CleanIsSaved(stored, now, events, k);
      }
    } else if forall k :: 0 <= k <= |events| ==> OnDiskWhenClean(After(s, events, k)) {
      forall k | 0 <= k < |events| ensures SeesEveryFire(s, events, k) {
        assert OnDiskWhenClean(After(s, events, k + 1));
        DiskIsCurrent(stored, now, events, k + 1);
      }
    }
  }

  // ---- when a save begins ----

  /** The last event before the `k`th that marked the store clean. */
  function LastMark(s: State, events: seq<Event>, k: nat): Option<nat>
    requires k <= |events|
  {
    if k == 0 then None
    else if events[k - 1].MarkedClean? && Possible(After(s, events, k - 1), events[k - 1]) then Some(k - 1)
    else LastMark(s, events, k - 1)
  }

  /** When the store was last marked clean, or else opened. */
  function MarkedAt(s: State, start: int, events: seq<Event>, k: nat): int
    requires k <= |events|
  {
    if k == 0 then start
    else if events[k - 1].MarkedClean? && Possible(After(s, events, k - 1), events[k - 1]) then events[k - 1].now
    else MarkedAt(s, start, events, k - 1)
  }

  /** The store is dirty exactly when a fire was recorded since it was opened or marked clean. */
  lemma {:induction false} DirtySinceFire(stored: Option<Map>, now: int, events: seq<Event>, k: nat)
    requires k <= |events|
    ensures var s := Opened(stored, now); var mark := LastMark(s, events, k); var here := After(s, events, k);
            && (mark.Some? ==> mark.value < k)
            && (here.dirty <==> !NoFire(events, if mark.Some? then mark.value else 0, k))
            && here.lastFlush == MarkedAt(s, now, events, k)
  {
    var s := Opened(stored, now);
    if k == 0 {
    } else {
      DirtySinceFire(stored, now, events, k - 1);
      AfterStep(s, events, k - 1);
      hide After, Opened, Run, Fired;
    }
  }

  /** Recording a fire begins a save exactly when the store was opened or marked clean five seconds ago or more. */
  lemma SavesAfterFiveSeconds(stored: Option<Map>, now: int, events: seq<Event>, k: nat)
    requires k < |events| && events[k].RecordFire?
    ensures var s := Opened(stored, now);
            After(s, events, k + 1).saving ==
              After(s, events, k).saving + if events[k].now - MarkedAt(s, now, events, k) >= 5 * 1_000_000_000
                                           then [Save(After(s, events, k + 1).entries, false)] else []
  {
    var s := Opened(stored, now);
    DirtySinceFire(stored, now, events, k);
    AfterStep(s, events, k);
    var saving := After(s, events, k).saving;
    assert saving + [] == saving;
    hide After, Opened, Run, Fired;
  }

  // ---- one save at a time ----

  ghost predicate OneAtATime(s: State, events: seq<Event>) {
    forall k :: 0 <= k <= |events| ==> |After(s, events, k).saving| <= 1
  }

  /** No fire is recorded between the snapshot of a save and its marking the store clean. */
  ghost predicate NoneDuring(s: State, events: seq<Event>, k: nat)
    requires k < |events|
  {
    events[k].MarkedClean? && Possible(After(s, events, k), events[k])
    && events[k].which < |SeenAfter(s, events, k).starts|
    ==> NoFire(events, SeenAfter(s, events, k).starts[events[k].which], k)
  }

  /** While a save is under way the store is dirty, and once it has replaced the file, the file is its snapshot. */
  ghost predicate Serial(s: State, h: Seen) {
    && |h.starts| == |s.saving| && (s.saving != [] ==> s.dirty)
    && (|s.saving| == 1 && s.saving[0].written ==> h.onDisk == h.starts[0])
  }

  lemma StepKeepsSerial(s: State, e: Event, h: Seen, k: nat)
    requires Serial(s, h) && |s.saving| <= 1 && |Step(s, e).saving| <= 1
    ensures Serial(Step(s, e), NextSeen(s, e, h, k))
  {
    hide Fired;
  }

  lemma {:induction false} SavesAreSerial(stored: Option<Map>, now: int, events: seq<Event>, k: nat)
    requires OneAtATime(Opened(stored, now), events) && k <= |events|
    ensures var s := Opened(stored, now); Serial(After(s, events, k), SeenAfter(s, events, k))
  {
    var s := Opened(stored, now);
    if k == 0 {
    } else {
      SavesAreSerial(stored, now, events, k - 1);
      AfterStep(s, events, k - 1);
      hide Step, NextSeen, Serial;
      StepKeepsSerial(After(s, events, k - 1), events[k - 1], SeenAfter(s, events, k - 1), k - 1);
    }
  }

  lemma SerialStep(s: State, e: Event, h: Seen, k: nat)
    requires Serial(s, h) && |s.saving| <= 1 && Possible(s, e)
    ensures e.FileReplaced? ==> Step(s, e).dirty
    ensures e.MarkedClean? ==> !Step(s, e).dirty && NextSeen(s, e, h, k).onDisk == h.starts[e.which]
  {
  }

  /** With one save at a time, that comes to this: no fire between the snapshot of a save and its marking the store. */
  lemma SerialCondition(stored: Option<Map>, now: int, events: seq<Event>)
    requires EveryFireRaises(Opened(stored, now), events) && OneAtATime(Opened(stored, now), events)
    ensures var s := Opened(stored, now);
            (forall k :: 0 <= k <= |events| ==> OnDiskWhenClean(After(s, events, k)))
            <==> (forall k :: 0 <= k < |events| ==> NoneDuring(s, events, k))
  {
    var s := Opened(stored, now);
    CleanCondition(stored, now, events);
    forall k | 0 <= k < |events| ensures SeesEveryFire(s, events, k) <==> NoneDuring(s, events, k) {
      SavesAreSerial(stored, now, events, k);
      AfterStep(s, events, k);
      var before := After(s, events, k);
      assert |before.saving| <= 1;
      if Possible(before, events[k]) {
        SerialStep(before, events[k], SeenAfter(s, events, k), k);
      }
      hide Step, NextSeen, Possible, After;
    }
  }

  // ---- what goes wrong ----

  /**
  The lock is not held while saving: a fire that is recorded meanwhile is marked as
  saved when the save ends, although the file does not have it.
  */
  lemma OverlapLosesFire()
    ensures var s1 := Step(Step(Opened(None, 0), RecordFire("a", 6, 0, FLUSH_INTERVAL)), RecordFire("b", 7, 0, 1));
            var s := Step(Step(s1, FileReplaced(0)), MarkedClean(0, 8));
            !s.dirty && "b" in s.entries && "b" !in OnDisk(s)
  {
    var s1 := Step(Opened(None, 0), RecordFire("a", 6, 0, FLUSH_INTERVAL));
    assert s1.saving == [] + [Save(s1.entries, false)] == [Save(s1.entries, false)];
    assert s1.entries.Keys == {"a"};
    assert "a" != "b";
  }

  /**
  Nor is it enough that no fire falls between a snapshot and its mark: of two saves
  under way the older one may replace the file last.
  */
  lemma OlderSaveLandsLast()
    ensures var s1 := Step(Opened(None, 0), RecordFire("a", 6, 0, FLUSH_INTERVAL));
            var s2 := Step(s1, RecordFire("b", 7, 0, FLUSH_INTERVAL));
            var s := Step(Step(Step(s2, FileReplaced(1)), FileReplaced(0)), MarkedClean(1, 8));
            !s.dirty && "b" in s.entries && "b" !in OnDisk(s)
  {
    var s1 := Step(Opened(None, 0), RecordFire("a", 6, 0, FLUSH_INTERVAL));
    assert s1.saving == [] + [Save(s1.entries, false)] == [Save(s1.entries, false)];
    assert s1.entries.Keys == {"a"};
    assert "a" != "b";
    var s2 := Step(s1, RecordFire("b", 7, 0, FLUSH_INTERVAL));
    assert s2.saving == [Save(s1.entries, false), Save(s2.entries, false)];
    hide Fired;
  }
}
