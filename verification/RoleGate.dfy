/**
The role gate under concurrency: requests wait for their role checks while
others come and go, sessions expire and are dropped, and the process restarts
from whatever snapshot reached the disk. What is proved speaks of the log of
events alone.
*/
module RoleGate {
  import opened Text
  import opened Sessions

  datatype Event =
    | Insert(id: string, csrf: seq<bv8>, user: NewSession, at: int)
    | Drop(id: string)
      /** A request arrives; the later clock reading decides whether its check is stale. */
    | Request(id: string, ttlSecs: nat, min: Role, refreshSecs: nat, at: int, later: int)
      /** The role check that the request at position `of` of the log waited for comes back. */
    | CheckDone(of: nat, outcome: Outcome, at: int)
      /** A save completes: the file holds the table as it was after `version` events. */
    | FileWritten(version: nat)
    | Restart

  datatype Waiting = Waiting(id: string, session: Session)

  /** The tables after each event so far, the last one current; the file; the requests that wait. */
  datatype State = State(tables: seq<Table>, file: Option<Table>, waiting: map<nat, Waiting>)

  datatype Reply = Nothing | Answer(a: Answer)

  function Current(s: State): Table
    requires s.tables != []
  {
    s.tables[|s.tables| - 1]
  }

  function Step(s: State, e: Event): (State, Reply)
    requires s.tables != []
  {
    var t := Current(s);
    match e
    case Insert(id, csrf, user, at) => (s.(tables := s.tables + [Inserted(t, id, csrf, user, at)]), Nothing)
    case Drop(id) => (s.(tables := s.tables + [t - {id}]), Nothing)
    case Request(id, ttl, min, refresh, at, later) =>
      var (t', a) := Arrive(t, id, ttl, min, refresh, at, later);
      var waiting := if a.Recheck? then s.waiting[|s.tables| - 1 := Waiting(id, a.session)] else s.waiting;
      (State(s.tables + [t'], s.file, waiting), Answer(a))
    case CheckDone(of, outcome, at) =>
      if of !in s.waiting then (s.(tables := s.tables + [t]), Nothing)
      else
        var w := s.waiting[of];
        var (t', a) := Resolve(t, w.id, w.session, outcome, at);
        (State(s.tables + [t'], s.file, s.waiting - {of}), Answer(a))
    case FileWritten(version) =>
      (State(s.tables + [t], if version < |s.tables| then Some(s.tables[version]) else s.file, s.waiting), Nothing)
    case Restart => (State(s.tables + [Restored(s.file)], s.file, map[]), Nothing)
  }

  function Run(log: seq<Event>): (s: State)
    ensures |s.tables| == |log| + 1
  {
    if log == [] then State([map[]], None, map[])
    else Step(Run(log[..|log| - 1]), log[|log| - 1]).0
  }

  function ReplyAt(log: seq<Event>, i: nat): Reply
    requires i < |log|
  {
    Step(Run(log[..i]), log[i]).1
  }

  function TableAt(log: seq<Event>, i: nat): Table
    requires i <= |log|
  {
    Current(Run(log[..i]))
  }

  // ---- what the log says ----

  /** The event inserted or touched the session. */
  ghost predicate SeenAt(log: seq<Event>, p: nat, id: string)
    requires p < |log|
  {
    match log[p]
    case Insert(i, _, _, _) => i == id
    case Request(i, _, _, _, _, _) => i == id && !ReplyAt(log, p).a.Unauthenticated?
    case _ => false
  }

  /** The event vouched for the session's role: its login, or a check that allowed it. */
  ghost predicate VouchedAt(log: seq<Event>, p: nat, id: string)
    requires p < |log|
  {
    match log[p]
    case Insert(i, _, _, _) => i == id
    case CheckDone(of, outcome, _) => outcome.Allow? && IsWaiting(log, p, of, id)
    case _ => false
  }

  ghost predicate IsWaiting(log: seq<Event>, p: nat, of: nat, id: string)
    requires p < |log|
  {
    of in Run(log[..p]).waiting && Run(log[..p]).waiting[of].id == id
  }

  /** Some earlier event, at time `t`, saw the session. */
  ghost predicate SeenBefore(log: seq<Event>, n: nat, id: string, t: int)
    requires n <= |log|
  {
    exists p: nat :: p < n && SeenAt(log, p, id) && log[p].at == t
  }

  /** Some earlier event of this process, at time `t`, vouched for the session's role. */
  ghost predicate VouchedBefore(log: seq<Event>, n: nat, id: string, t: int)
    requires n <= |log|
  {
    exists p: nat :: p < n && VouchedAt(log, p, id) && log[p].at == t && NoRestart(log, p, n)
  }

  ghost predicate NoRestart(log: seq<Event>, p: nat, n: nat)
    requires n <= |log|
  {
    forall k :: p < k < n ==> !log[k].Restart?
  }

  // ---- logs grow ----

  lemma SeenGrows(log: seq<Event>, n: nat, id: string, t: int)
    requires n < |log| && SeenBefore(log[..n], n, id, t)
    ensures SeenBefore(log, n + 1, id, t)
  {
    var p: nat :| p < n && SeenAt(log[..n], p, id) && log[..n][p].at == t;
    assert log[..n][..p] == log[..p];
    assert SeenAt(log, p, id);
  }

  lemma VouchedGrows(log: seq<Event>, n: nat, id: string, t: int)
    requires n < |log| && !log[n].Restart? && VouchedBefore(log[..n], n, id, t)
    ensures VouchedBefore(log, n + 1, id, t)
  {
    var p: nat :| p < n && VouchedAt(log[..n], p, id) && log[..n][p].at == t && NoRestart(log[..n], p, n);
    assert log[..n][..p] == log[..p];
    assert VouchedAt(log, p, id);
    forall k | p < k < n + 1 ensures !log[k].Restart? {
      if k < n {
        assert log[..n][k] == log[k];
      }
    }
  }

  // ---- the table against the log ----

  ghost predicate SeenTable(log: seq<Event>, t: Table) {
    forall id :: id in t ==> SeenBefore(log, |log|, id, t[id].lastSeen)
  }

  ghost predicate VouchedTable(log: seq<Event>, t: Table) {
    forall id :: id in t ==> t[id].lastRoleCheck == MIN_UTC || VouchedBefore(log, |log|, id, t[id].lastRoleCheck)
  }

  lemma {:induction false} TablesAreSeen(log: seq<Event>, i: nat)
    requires i <= |log|
    ensures SeenTable(log, TableAt(log, i))
    decreases |log|, i
  {
    if i < |log| {
      var n := |log| - 1;
      TablesAreSeen(log[..n], i);
      assert log[..n][..i] == log[..i];
      forall id | id in TableAt(log, i) ensures SeenBefore(log, |log|, id, TableAt(log, i)[id].lastSeen) {
        SeenGrows(log, n, id, TableAt(log, i)[id].lastSeen);
      }
    } else {
      assert log[..i] == log;
      if i > 0 {
        LatestIsSeen(log);
      }
    }
  }

  /** The table after the last event, from the tables before it. */
  lemma {:induction false} LatestIsSeen(log: seq<Event>)
    requires log != []
    ensures SeenTable(log, TableAt(log, |log|))
    decreases |log|, 0
  {
    var n := |log| - 1;
    var before := log[..n];
    assert log[..|log|] == log;
    var t, t' := TableAt(log, n), TableAt(log, |log|);
    FileIsOld(before);
    forall id | id in t' ensures SeenBefore(log, |log|, id, t'[id].lastSeen) {
      if SeenAt(log, n, id) && log[n].at == t'[id].lastSeen {
      } else if log[n].Restart? {
        var v: nat :| v <= n && Run(before).file == Some(TableAt(before, v));
        TablesAreSeen(before, v);
        SeenGrows(log, n, id, t'[id].lastSeen);
      } else {
        KeptSession(log, id);
        TablesAreSeen(before, n);
        assert before[..n] == before;
        SeenGrows(log, n, id, t'[id].lastSeen);
      }
    }
  }

  /** A session that the last event did not see was there before, last seen at the same time. */
  lemma KeptSession(log: seq<Event>, id: string)
    requires log != [] && !log[|log| - 1].Restart? && id in TableAt(log, |log|)
    requires !(SeenAt(log, |log| - 1, id) && log[|log| - 1].at == TableAt(log, |log|)[id].lastSeen)
    ensures var t := TableAt(log, |log| - 1);
            id in t && t[id].lastSeen == TableAt(log, |log|)[id].lastSeen
  {
    assert log[..|log|] == log;
  }

  lemma FileStep(s: State, e: Event)
    requires s.tables != []
    ensures Step(s, e).0.file == if e.FileWritten? && e.version < |s.tables| then Some(s.tables[e.version]) else s.file
  {
  }

  /** The file holds the table as it was after some earlier event. */
  lemma {:induction false} FileIsOld(log: seq<Event>)
    ensures Run(log).file.Some? ==> exists v: nat :: v <= |log| && Run(log).file == Some(TableAt(log, v))
  {
    if log == [] {
    } else {
      var n := |log| - 1;
      FileIsOld(log[..n]);
      FileStep(Run(log[..n]), log[n]);
      hide Step, TableAt;
      if log[n].FileWritten? && log[n].version <= n {
        var v := log[n].version;
        TablesAreKept(log[..n], v);
        SameTable(log, n, v);
        assert Run(log).file == Some(TableAt(log, v));
      } else if Run(log).file.Some? {
        var v: nat :| v <= n && Run(log[..n]).file == Some(TableAt(log[..n], v));
        SameTable(log, n, v);
        assert Run(log).file == Some(TableAt(log, v));
      }
    }
  }

  lemma SameTable(log: seq<Event>, n: nat, v: nat)
    requires v <= n <= |log|
    ensures TableAt(log[..n], v) == TableAt(log, v)
  {
    assert log[..n][..v] == log[..v];
  }

  lemma {:induction false} TablesAreKept(log: seq<Event>, v: nat)
    requires v <= |log|
    ensures Run(log).tables[v] == TableAt(log, v)
  {
    if v < |log| {
      var n := |log| - 1;
      TablesAreKept(log[..n], v);
      assert log[..n][..v] == log[..v];
    } else {
      assert log[..v] == log;
    }
  }

  lemma {:induction false} TableIsVouched(log: seq<Event>)
    ensures VouchedTable(log, TableAt(log, |log|))
  {
    assert log[..|log|] == log;
    if log == [] {
    } else {
      var n := |log| - 1;
      var before := log[..n];
      TableIsVouched(before);
      assert before[..n] == before;
      var t' := TableAt(log, |log|);
      forall id | id in t'
        ensures t'[id].lastRoleCheck == MIN_UTC || VouchedBefore(log, |log|, id, t'[id].lastRoleCheck)
      {
        if t'[id].lastRoleCheck != MIN_UTC && !(VouchedAt(log, n, id) && log[n].at == t'[id].lastRoleCheck) {
          KeptCheck(log, id);
          VouchedGrows(log, n, id, t'[id].lastRoleCheck);
        }
      }
    }
  }

  lemma KeptCheck(log: seq<Event>, id: string)
    requires log != [] && id in TableAt(log, |log|) && TableAt(log, |log|)[id].lastRoleCheck != MIN_UTC
    requires !(VouchedAt(log, |log| - 1, id) && log[|log| - 1].at == TableAt(log, |log|)[id].lastRoleCheck)
    ensures var t := TableAt(log, |log| - 1);
            !log[|log| - 1].Restart? && id in t && t[id].lastRoleCheck == TableAt(log, |log|)[id].lastRoleCheck
  {
    assert log[..|log|] == log;
  }

  // ---- requests that wait ----

  /** A request waits because it arrived, found its session, and its check was stale. */
  ghost predicate WaitsForCheck(log: seq<Event>, of: nat, w: Waiting) {
    && of < |log| && log[of].Request? && log[of].id == w.id
    && ReplyAt(log, of) == Answer(Recheck(w.session))
  }

  lemma {:induction false} WaitingArrived(log: seq<Event>, of: nat)
    requires of in Run(log).waiting
    ensures WaitsForCheck(log, of, Run(log).waiting[of])
  {
    var n := |log| - 1;
    if of == n {
      assert log[..n] == log[..of];
    }
    if of in Run(log[..n]).waiting && Run(log[..n]).waiting[of] == Run(log).waiting[of] {
      WaitingArrived(log[..n], of);
      assert log[..n][..of] == log[..of];
    }
  }

  /** The log shows that a request waits: it found its check stale, and neither a result nor a restart came since. */
  ghost predicate StillWaits(log: seq<Event>, of: nat) {
    && of < |log| && log[of].Request? && ReplyAt(log, of).a.Recheck?
    && forall k :: of < k < |log| ==> !log[k].Restart? && !(log[k].CheckDone? && log[k].of == of)
  }

  lemma {:induction false} WaitingIsLogged(log: seq<Event>, of: nat)
    ensures of in Run(log).waiting <==> StillWaits(log, of)
  {
    if log == [] {
    } else {
      var n := |log| - 1;
      WaitingIsLogged(log[..n], of);
      WaitingStep(Run(log[..n]), log[n], of);
      WaitsStep(log, of);
    }
  }

  lemma WaitingStep(s: State, e: Event, of: nat)
    requires s.tables != []
    ensures of in Step(s, e).0.waiting <==>
            || (e.Request? && of == |s.tables| - 1 && Step(s, e).1.a.Recheck?)
            || (of in s.waiting && !e.Restart? && !(e.CheckDone? && e.of == of))
  {
  }

  lemma WaitsStep(log: seq<Event>, of: nat)
    requires log != []
    ensures var n := |log| - 1;
            StillWaits(log, of) <==>
            || (log[n].Request? && of == n && ReplyAt(log, n).a.Recheck?)
            || (StillWaits(log[..n], of) && !log[n].Restart? && !(log[n].CheckDone? && log[n].of == of))
  {
    var n := |log| - 1;
    if of < n {
      assert log[..n][..of] == log[..of];
      assert forall k :: of < k < n ==> log[..n][k] == log[k];
    }
  }

  // ---- the gate ----

  /** The request whose admission the event decides. */
  function RequestOf(log: seq<Event>, i: nat): nat
    requires i < |log|
  {
    if log[i].CheckDone? then log[i].of else i
  }

  ghost predicate AdmittedAt(log: seq<Event>, i: nat)
    requires i < |log|
  {
    ReplyAt(log, i).Answer? && ReplyAt(log, i).a.Admitted?
  }

  /**
  Every admitted request came with a session of at least the role demanded, within
  the time to live of an earlier sight of that session. Its role was vouched for no
  longer ago than the refresh interval, by this very process, or else was checked for
  this request with a result other than a denial.
  */
  lemma AdmissionIsJustified(log: seq<Event>, i: nat)
    requires i < |log| && AdmittedAt(log, i)
    ensures var r := RequestOf(log, i);
            && r <= i && log[r].Request?
            && Rank(ReplyAt(log, i).a.session.role) >= Rank(log[r].min)
            && SeenInTime(log, r)
            && (if r == i then Sane(log[r]) ==> CheckedInTime(log, r) else !log[i].outcome.Deny?)
  {
    var r := RequestOf(log, i);
    if log[i].CheckDone? {
      WaitingArrived(log[..i], r);
      assert log[..i][..r] == log[..r];
    }
    RequestIsSeen(log, r);
    if r == i && Sane(log[r]) {
      RequestIsChecked(log, r);
    }
  }

  ghost predicate SeenInTime(log: seq<Event>, r: nat)
    requires r < |log| && log[r].Request?
  {
    exists p: nat :: p < r && SeenAt(log, p, log[r].id) && log[r].at - log[p].at <= log[r].ttlSecs * SECOND
  }

  ghost predicate CheckedInTime(log: seq<Event>, r: nat)
    requires r < |log| && log[r].Request?
  {
    exists p: nat :: p < r && VouchedAt(log, p, log[r].id) && NoRestart(log, p, r)
                  && log[r].later - log[p].at <= log[r].refreshSecs * SECOND
  }

  lemma RequestIsSeen(log: seq<Event>, r: nat)
    requires r < |log| && log[r].Request? && !ReplyAt(log, r).a.Unauthenticated?
    ensures SeenInTime(log, r)
  {
    var before := log[..r];
    TablesAreSeen(before, r);
    assert before[..r] == before;
    var t := TableAt(log, r);
    var id := log[r].id;
    var p: nat :| p < r && SeenAt(before, p, id) && before[p].at == t[id].lastSeen;
    assert before[..p] == log[..p];
    assert SeenAt(log, p, id);
  }

  /** The clock is past 1970 and the refresh interval within the hour that validation allows. */
  ghost predicate Sane(e: Event)
    requires e.Request?
  {
    e.later >= 0 && e.refreshSecs <= 3600
  }

  lemma RequestIsChecked(log: seq<Event>, r: nat)
    requires r < |log| && log[r].Request? && ReplyAt(log, r).a.Admitted?
    requires Sane(log[r])
    ensures CheckedInTime(log, r)
  {
    var before := log[..r];
    TableIsVouched(before);
    assert before[..r] == before;
    var t := TableAt(log, r);
    var id := log[r].id;
    assert t[id].lastRoleCheck != MIN_UTC;
    var p: nat :| p < r && VouchedAt(before, p, id) && before[p].at == t[id].lastRoleCheck && NoRestart(before, p, r);
    assert before[..p] == log[..p];
    assert VouchedAt(log, p, id);
    forall k | p < k < r ensures !log[k].Restart? {
      assert before[k] == log[k];
    }
  }

  /**
  A session restored by a restart is let in without a role check only after something
  vouched for its role since then, however fresh the stored check was.
  */
  lemma RestoredIsRechecked(log: seq<Event>, k: nat, r: nat)
    requires k < r < |log| && log[k].Restart? && log[r].Request? && Sane(log[r])
    requires ReplyAt(log, r).a.Admitted?
    ensures exists p: nat :: k < p < r && VouchedAt(log, p, log[r].id)
  {
    RequestIsChecked(log, r);
    var p: nat :| p < r && VouchedAt(log, p, log[r].id) && NoRestart(log, p, r);
    assert p != k && !(p < k < r);
  }

  /** The event took the session out of the table. */
  ghost predicate RemovedAt(log: seq<Event>, p: nat, id: string)
    requires p < |log|
  {
    match log[p]
    case Drop(i) => i == id
    case Request(i, ttl, _, _, _, _) => i == id && ttl <= MAX_TTL_SECS && ReplyAt(log, p).a.Unauthenticated?
    case CheckDone(of, outcome, _) => outcome.Deny? && IsWaiting(log, p, of, id)
    case _ => false
  }

  lemma RemovalRemoves(log: seq<Event>, p: nat, id: string)
    requires p < |log| && RemovedAt(log, p, id)
    ensures id !in TableAt(log, p + 1)
  {
    assert log[..p + 1][..p] == log[..p];
  }

  lemma AbsentStays(s: State, e: Event, id: string)
    requires s.tables != [] && id !in Current(s)
    requires !e.Restart? && !(e.Insert? && e.id == id)
    ensures id !in Current(Step(s, e).0)
  {
  }

  lemma {:induction false} StaysRemoved(log: seq<Event>, p: nat, n: nat, id: string)
    requires p < n <= |log| && RemovedAt(log, p, id)
    requires forall k :: p < k < n ==> !log[k].Restart? && !(log[k].Insert? && log[k].id == id)
    ensures id !in TableAt(log, n)
    decreases n
  {
    if n == p + 1 {
      RemovalRemoves(log, p, id);
    } else {
      StaysRemoved(log, p, n - 1, id);
      assert log[..n][..n - 1] == log[..n - 1];
      AbsentStays(Run(log[..n - 1]), log[n - 1], id);
    }
  }

  /** A session that was removed opens no door, until it is inserted again or the process restarts. */
  lemma RemovedIsShut(log: seq<Event>, p: nat, r: nat)
    requires p < r < |log| && log[r].Request? && RemovedAt(log, p, log[r].id)
    requires forall k :: p < k < r ==> !log[k].Restart? && !(log[k].Insert? && log[k].id == log[r].id)
    ensures ReplyAt(log, r) == Answer(Unauthenticated)
  {
    StaysRemoved(log, p, r, log[r].id);
  }

  /** The event decides on a request that came with this session id. */
  ghost predicate Decides(log: seq<Event>, i: nat, id: string)
    requires i < |log|
  {
    var r := RequestOf(log, i);
    r < |log| && log[r].Request? && log[r].id == id
  }

  /**
  After a removal, with no insertion and no restart since, the session is let in again
  exactly through a request that was waiting for its role check before the removal and
  whose check is not a denial: the request goes on with the session as it found it.
  */
  lemma AdmittedAfterRemoval(log: seq<Event>, p: nat, i: nat, id: string)
    requires p < i < |log| && RemovedAt(log, p, id) && Decides(log, i, id)
    requires forall k :: p < k < i ==> !log[k].Restart? && !(log[k].Insert? && log[k].id == id)
    ensures AdmittedAt(log, i) <==>
            log[i].CheckDone? && log[i].of < p && StillWaits(log[..i], log[i].of) && !log[i].outcome.Deny?
  {
    if log[i].CheckDone? {
      var of := log[i].of;
      WaitingIsLogged(log[..i], of);
      if StillWaits(log[..i], of) {
        assert log[..i][..of] == log[..of];
        WaitedBefore(log, p, of);
      }
    } else {
      RemovedIsShut(log, p, i);
    }
  }

  /** What waits when a session is gone has waited since before it went. */
  lemma WaitedBefore(log: seq<Event>, p: nat, of: nat)
    requires p < |log| && of < |log| && log[of].Request? && RemovedAt(log, p, log[of].id)
    requires forall k :: p < k < of ==> !log[k].Restart? && !(log[k].Insert? && log[k].id == log[of].id)
    requires ReplyAt(log, of).a.Recheck?
    ensures of < p
  {
    if p < of {
      RemovedIsShut(log, p, of);
    }
  }

  // ---- two such runs ----

  const ID: string := "s"

  function SomeMod(): NewSession {
    NewSession("1", "eve", Mod, None, false)
  }

  /** A request a nanosecond after the login, when checks are refreshed at once. */
  function Arrives(): Event {
    Request(ID, 60, Mod, 0, 1, 1)
  }

  function LoggedIn(lastSeen: int): Session {
    Session("1", "eve", Mod, 0, lastSeen, 0, [], None, false)
  }

  function Login(): Event {
    Insert(ID, [], SomeMod(), 0)
  }

  lemma OneIsIn()
    ensures Run([Login()]) == State([map[], map[ID := LoggedIn(0)]], None, map[])
  {
    assert [Login()][..0] == [];
    assert [map[]] + [map[ID := LoggedIn(0)]] == [map[], map[ID := LoggedIn(0)]];
  }

  lemma OneWaits()
    ensures var s := Run([Login(), Arrives()]);
            s.tables == [map[], map[ID := LoggedIn(0)], map[ID := LoggedIn(1)]] && s.waiting == map[1 := Waiting(ID, LoggedIn(1))]
  {
    OneIsIn();
    assert [Login(), Arrives()][..1] == [Login()];
    var s := Run([Login()]);
    var (t, a) := Arrive(Current(s), ID, 60, Mod, 0, 1, 1);
    assert t == map[ID := LoggedIn(1)] && a == Recheck(LoggedIn(1));
    assert s.tables + [t] == [map[], map[ID := LoggedIn(0)], map[ID := LoggedIn(1)]];
  }

  /** A request waits for its role check, its user logs out, the check fails: the request is let in. */
  lemma LogoutDoesNotStopIt()
    ensures var log := [Login(), Arrives(), Drop(ID), CheckDone(1, Error, 2)];
            RemovedAt(log, 2, ID) && AdmittedAt(log, 3)
  {
    var log := [Login(), Arrives(), Drop(ID), CheckDone(1, Error, 2)];
    OneWaits();
    assert log[..2] == [Login(), Arrives()];
    assert log[..3][..2] == log[..2];
    assert Run(log[..3]) == Step(Run(log[..2]), Drop(ID)).0;
  }

  /** Of two requests that wait, one is denied, which removes the session: the other is let in. */
  lemma DenialDoesNotStopIt()
    ensures var log := [Login(), Arrives(), Arrives(), CheckDone(1, Deny, 2), CheckDone(2, Error, 2)];
            RemovedAt(log, 3, ID) && AdmittedAt(log, 4)
  {
    var log := [Login(), Arrives(), Arrives(), CheckDone(1, Deny, 2), CheckDone(2, Error, 2)];
    OneWaits();
    assert log[..2] == [Login(), Arrives()];
    assert log[..3][..2] == log[..2] && log[..4][..3] == log[..3];
    assert Run(log[..3]) == Step(Run(log[..2]), Arrives()).0;
    assert Run(log[..4]) == Step(Run(log[..3]), CheckDone(1, Deny, 2)).0;
  }
}
