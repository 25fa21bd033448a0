/**
The gate told from the log alone: which sessions there are, what they hold, and how
each request is answered, as long as the process is not restarted.
*/
module GateLog {
  import opened Text
  import opened Sessions
  import opened RoleGate

  ghost predicate OneProcess(log: seq<Event>, n: nat)
    requires n <= |log|
  {
    forall k :: 0 <= k < n ==> !log[k].Restart?
  }

  /** The session was seen at `p`, and up to `n` neither seen again nor removed. */
  ghost predicate LastSight(log: seq<Event>, p: nat, n: nat, id: string)
    requires n <= |log|
  {
    p < n && SeenAt(log, p, id) && forall k :: p < k < n ==> !SeenAt(log, k, id) && !RemovedAt(log, k, id)
  }

  ghost predicate LastInsert(log: seq<Event>, q: nat, n: nat, id: string)
    requires n <= |log|
  {
    q < n && log[q].Insert? && log[q].id == id && forall k :: q < k < n ==> !(log[k].Insert? && log[k].id == id)
  }

  ghost predicate LastVouch(log: seq<Event>, v: nat, n: nat, id: string)
    requires n <= |log|
  {
    v < n && VouchedAt(log, v, id) && forall k :: v < k < n ==> !VouchedAt(log, k, id)
  }

  /** The session as the log has it: made at `q`, last seen at `p`, last vouched for at `v`. */
  function Told(log: seq<Event>, p: nat, q: nat, v: nat): Session
    requires p < |log| && q < |log| && v < |log|
    requires log[p].Insert? || log[p].Request?
    requires log[q].Insert? && (log[v].Insert? || log[v].CheckDone?)
  {
    var u := log[q].user;
    Session(u.userId, u.login, u.role, log[q].at, log[p].at, log[v].at, log[q].csrf, u.avatar, u.isBroadcaster)
  }

  ghost predicate SessionIs(log: seq<Event>, n: nat, id: string, p: nat, q: nat, v: nat)
    requires n <= |log|
  {
    && LastSight(log, p, n, id) && LastInsert(log, q, n, id) && LastVouch(log, v, n, id)
    && id in TableAt(log, n) && TableAt(log, n)[id] == Told(log, p, q, v)
  }

  /** What the event after a prefix does to one session. */
  lemma OneStep(log: seq<Event>, n: nat, id: string)
    requires n < |log| && !log[n].Restart?
    ensures var t, t' := TableAt(log, n), TableAt(log, n + 1);
            && (SeenAt(log, n, id) ==> id in t' && t'[id].lastSeen == log[n].at)
            && (RemovedAt(log, n, id) ==> id !in t')
            && (!SeenAt(log, n, id) && !RemovedAt(log, n, id) ==> (id in t' <==> id in t))
            && (!SeenAt(log, n, id) && id in t' ==> t'[id].lastSeen == t[id].lastSeen)
            && (SeenAt(log, n, id) && !log[n].Insert? ==> id in t)
  {
    assert log[..n + 1][..n] == log[..n];
  }

  lemma OneStepKeeps(log: seq<Event>, n: nat, id: string)
    requires n < |log| && !log[n].Restart? && id in TableAt(log, n + 1)
    ensures var t, t' := TableAt(log, n), TableAt(log, n + 1);
            if log[n].Insert? && log[n].id == id then
              t'[id] == Session(log[n].user.userId, log[n].user.login, log[n].user.role, log[n].at, log[n].at, log[n].at,
                                log[n].csrf, log[n].user.avatar, log[n].user.isBroadcaster)
            else
              && id in t
              && t'[id] == t[id].(lastSeen := t'[id].lastSeen, lastRoleCheck := t'[id].lastRoleCheck)
              && t'[id].lastRoleCheck == if VouchedAt(log, n, id) then log[n].at else t[id].lastRoleCheck
  {
    assert log[..n + 1][..n] == log[..n];
  }

  /** A session that is there is the one that the log tells of. */
  lemma {:induction false} PresentIsTold(log: seq<Event>, n: nat, id: string) returns (p: nat, q: nat, v: nat)
    requires n <= |log| && OneProcess(log, n) && id in TableAt(log, n)
    ensures SessionIs(log, n, id, p, q, v)
    decreases n
  {
    if n == 0 {
      assert false;
    } else {
      var k := n - 1;
      OneStep(log, k, id);
      OneStepKeeps(log, k, id);
      if log[k].Insert? && log[k].id == id {
        p, q, v := k, k, k;
      } else {
        p, q, v := PresentIsTold(log, k, id);
        hide TableAt, SeenAt, RemovedAt, VouchedAt;
        p := if SeenAt(log, k, id) then k else p;
        v := if VouchedAt(log, k, id) then k else v;
        WhoSees(log, k, id);
      }
    }
  }

  lemma WhoSees(log: seq<Event>, k: nat, id: string)
    requires k < |log|
    ensures SeenAt(log, k, id) ==> log[k].Insert? || log[k].Request?
    ensures VouchedAt(log, k, id) ==> log[k].Insert? || log[k].CheckDone?
  {
  }

  /** And one that was seen and not removed since is there. */
  lemma {:induction false} SeenIsPresent(log: seq<Event>, p: nat, n: nat, id: string)
    requires n <= |log| && OneProcess(log, n) && LastSight(log, p, n, id)
    ensures id in TableAt(log, n)
    decreases n
  {
    OneStep(log, n - 1, id);
    if p == n - 1 {
    } else {
      SeenIsPresent(log, p, n - 1, id);
    }
  }

  /** A session is in the table exactly when it was seen and has not been removed since. */
  lemma PresentByLog(log: seq<Event>, n: nat, id: string)
    requires n <= |log| && OneProcess(log, n)
    ensures id in TableAt(log, n) <==> exists p: nat :: LastSight(log, p, n, id)
  {
    if id in TableAt(log, n) {
      var p, q, v := PresentIsTold(log, n, id);
      assert LastSight(log, p, n, id);
    }
    if p: nat :| LastSight(log, p, n, id) {
      SeenIsPresent(log, p, n, id);
    }
  }

  /** A session that was seen, is not removed, and is young enough at the time of the request. */
  ghost predicate LiveAt(log: seq<Event>, r: nat)
    requires r < |log| && log[r].Request?
  {
    log[r].ttlSecs <= MAX_TTL_SECS
    && exists p: nat :: LastSight(log, p, r, log[r].id) && log[r].at - log[p].at <= log[r].ttlSecs * SECOND
  }

  /** A request is turned away exactly when its session is not live. */
  lemma TurnedAwayByLog(log: seq<Event>, r: nat)
    requires r < |log| && OneProcess(log, r) && log[r].Request?
    ensures ReplyAt(log, r) == Answer(Unauthenticated) <==> !LiveAt(log, r)
  {
    var id := log[r].id;
    PresentByLog(log, r, id);
    if id in TableAt(log, r) {
      var p, q, v := PresentIsTold(log, r, id);
      OneLastSight(log, p, r, id);
    }
  }

  lemma OneLastSight(log: seq<Event>, p: nat, n: nat, id: string)
    requires n <= |log| && LastSight(log, p, n, id)
    ensures forall x: nat :: LastSight(log, x, n, id) ==> x == p
  {
  }

  /**
  Otherwise the role given at the last login decides, and the time since something
  last vouched for it: refused, checked anew, or let in.
  */
  lemma AnsweredByLog(log: seq<Event>, r: nat) returns (p: nat, q: nat, v: nat)
    requires r < |log| && OneProcess(log, r) && log[r].Request? && LiveAt(log, r)
    ensures LastSight(log, p, r, log[r].id) && LastInsert(log, q, r, log[r].id) && LastVouch(log, v, r, log[r].id)
    ensures ReplyAt(log, r).Answer? &&
            var a := ReplyAt(log, r).a; var seen := Told(log, p, q, v).(lastSeen := log[r].at);
            a == if !Suffices(log[q].user.role, log[r].min) then Forbidden
                 else if log[r].later - log[v].at > log[r].refreshSecs * SECOND then Recheck(seen)
                 else Admitted(seen)
  {
    var id := log[r].id;
    PresentByLog(log, r, id);
    p, q, v := PresentIsTold(log, r, id);
    OneLastSight(log, p, r, id);
    RolesAreOrdered(log[q].user.role, log[r].min);
  }

  // ---- restarts ----

  /** The save that last reached the disk, of the table after so many events; none if there was none. */
  function Saved(log: seq<Event>, n: nat): Option<nat>
    requires n <= |log|
  {
    if n == 0 then None
    else if log[n - 1].FileWritten? && log[n - 1].version <= n - 1 then Some(log[n - 1].version)
    else Saved(log, n - 1)
  }

  lemma {:induction false} SavedIsPast(log: seq<Event>, n: nat)
    requires n <= |log|
    ensures Saved(log, n).Some? ==> Saved(log, n).value < n
  {
    if n == 0 {
    } else {
      SavedIsPast(log, n - 1);
    }
  }

  /** The file holds the table that was saved last. */
  lemma {:induction false} FileIsLastSaved(log: seq<Event>, n: nat)
    requires n <= |log|
    ensures var v := Saved(log, n);
            Run(log[..n]).file == if v.Some? && v.value <= n then Some(TableAt(log, v.value)) else None
    decreases n
  {
    if n == 0 {
      assert log[..0] == [];
    } else {
      FileIsLastSaved(log, n - 1);
      SavedIsPast(log, n - 1);
      SavedIsPast(log, n);
      assert log[..n][..n - 1] == log[..n - 1];
      FileStep(Run(log[..n - 1]), log[n - 1]);
      if log[n - 1].FileWritten? && log[n - 1].version <= n - 1 {
        var v := log[n - 1].version;
        TablesAreKept(log[..n - 1], v);
        SameTable(log, n - 1, v);
      }
      hide Step, TableAt;
    }
  }

  /**
  A restart brings back the sessions that were saved last, all of them and no others,
  with everything but their role checks.
  */
  lemma RestartRestores(log: seq<Event>, k: nat)
    requires k < |log| && log[k].Restart?
    ensures var t := TableAt(log, k + 1);
            match Saved(log, k)
            case None => t == map[]
            case Some(v) =>
              v < k && var t' := TableAt(log, v);
              t.Keys == t'.Keys && forall id :: id in t ==> t[id] == t'[id].(lastRoleCheck := MIN_UTC)
  {
    FileIsLastSaved(log, k);
    SavedIsPast(log, k);
    assert log[..k + 1][..k] == log[..k];
  }
}
