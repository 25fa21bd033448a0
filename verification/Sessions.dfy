/**
The table of dashboard sessions and the gate that every request passes. Times are
nanoseconds since the Unix epoch; each operation is a function on tables, which
the class performs on its map.
*/
module Sessions {
  import opened Text

  const SECOND: nat := 1_000_000_000
  /** `DateTime::<Utc>::MIN_UTC`: midnight of 1 January of the year -262143. */
  const MIN_UTC: int := -8_334_601_228_800 * SECOND
  /** The longest whole-second duration that the calendar library, which counts 64-bit milliseconds, represents. */
  const MAX_TTL_SECS: nat := 0x7FFF_FFFF_FFFF_FFFF / 1000

  datatype Role = Viewer | Mod | Owner

  function Rank(r: Role): nat {
    match r
    case Viewer => 0
    case Mod => 1
    case Owner => 2
  }

  datatype Session = Session(userId: string, login: string, role: Role, issuedAt: int, lastSeen: int,
                             lastRoleCheck: int, csrf: seq<bv8>, avatar: Option<string>, isBroadcaster: bool)

  datatype NewSession = NewSession(userId: string, login: string, role: Role, avatar: Option<string>, isBroadcaster: bool)

  type Table = map<string, Session>

  // ---- operations on the table ----

  /** Sessions read back from disk, or nothing when the file is missing or unreadable; all must be checked anew. */
  function Restored(stored: Option<Table>): Table {
    if stored.None? then map[]
    else map id | id in stored.value :: stored.value[id].(lastRoleCheck := MIN_UTC)
  }

  function Inserted(t: Table, id: string, csrf: seq<bv8>, n: NewSession, now: int): Table {
    t[id := Session(n.userId, n.login, n.role, now, now, now, csrf, n.avatar, n.isBroadcaster)]
  }

  /** Looks a session up and slides its expiry, or drops it when it has expired. */
  function Touched(t: Table, id: string, ttlSecs: nat, now: int): (Table, Option<Session>) {
    if ttlSecs > MAX_TTL_SECS || id !in t then (t, None)
    else if now - t[id].lastSeen > ttlSecs * SECOND then (t - {id}, None)
    else
      var s := t[id].(lastSeen := now);
      (t[id := s], Some(s))
  }

  function Checked(t: Table, id: string, now: int): Table {
    if id in t then t[id := t[id].(lastRoleCheck := now)] else t
  }

  // ---- the gate ----

  datatype Outcome = Allow | Deny | Error

  datatype Answer = Unauthenticated | Forbidden | Recheck(session: Session) | Admitted(session: Session)

  /** What the check of a role depends on; `helix` is the moderator lookup's answer, if it gives one. */
  datatype RoleEnv = RoleEnv(owner: Option<string>, hiddenAdmins: seq<string>, broadcasterId: string,
                             allowlist: seq<string>, helix: Option<bool>)

  function CheckRole(s: Session, env: RoleEnv): Outcome {
    match s.role
    case Owner => if env.owner == Some(s.userId) then Allow else Deny
    case Mod =>
      if s.userId in env.hiddenAdmins || s.userId == env.broadcasterId then Allow
      else if env.helix.None? then Error
      else if env.helix.value then Allow else Deny
    case Viewer => if s.userId in env.allowlist then Allow else Deny
  }

  predicate CheckIsStale(s: Session, refreshSecs: nat, now: int) {
    (if now > s.lastRoleCheck then now - s.lastRoleCheck else 0) > refreshSecs * SECOND
  }

  /** The request up to the point where it may have to wait for a role check. */
  function Arrive(t: Table, id: string, ttlSecs: nat, min: Role, refreshSecs: nat, now: int, later: int): (Table, Answer) {
    var (t', found) := Touched(t, id, ttlSecs, now);
    match found
    case None => (t', Unauthenticated)
    case Some(s) =>
      if Rank(s.role) < Rank(min) then (t', Forbidden)
      else if CheckIsStale(s, refreshSecs, later) then (t', Recheck(s))
      else (t', Admitted(s))
  }

  /** What the result of the role check does; an error admits on the old check. */
  function Resolve(t: Table, id: string, s: Session, outcome: Outcome, now: int): (Table, Answer) {
    match outcome
    case Allow => (Checked(t, id, now), Admitted(s))
    case Deny => (t - {id}, Forbidden)
    case Error => (t, Admitted(s))
  }

  /** One request, from its arrival to its answer, that nothing else interleaves with. */
  function Required(t: Table, id: string, min: Role, ttlSecs: nat, refreshSecs: nat, env: RoleEnv,
                    now: int, later: int, last: int): (Table, Answer) {
    var (t', a) := Arrive(t, id, ttlSecs, min, refreshSecs, now, later);
    if a.Recheck? then Resolve(t', id, a.session, CheckRole(a.session, env), last) else (t', a)
  }

  // ---- what the gate decides ----

  /** Everyone is a viewer, and an owner is everything. */
  predicate Suffices(role: Role, min: Role) {
    min.Viewer? || role.Owner? || role == min
  }

  lemma RolesAreOrdered(role: Role, min: Role)
    ensures Rank(role) >= Rank(min) <==> Suffices(role, min)
  {
  }

  /** The role is known to have been taken away. */
  predicate StruckOff(s: Session, env: RoleEnv) {
    || (s.role == Viewer && s.userId !in env.allowlist)
    || (s.role == Owner && env.owner != Some(s.userId))
    || (s.role == Mod && s.userId !in env.hiddenAdmins && s.userId != env.broadcasterId && env.helix == Some(false))
  }

  /** The role is known to be held; for a moderator the lookup may tell neither. */
  predicate StillHolds(s: Session, env: RoleEnv) {
    || (s.role == Viewer && s.userId in env.allowlist)
    || (s.role == Owner && env.owner == Some(s.userId))
    || (s.role == Mod && (s.userId in env.hiddenAdmins || s.userId == env.broadcasterId || env.helix == Some(true)))
  }

  predicate InForce(t: Table, id: string, ttlSecs: nat, now: int) {
    ttlSecs <= MAX_TTL_SECS && id in t && t[id].lastSeen + ttlSecs * SECOND >= now
  }

  /** A request without a session in force is turned away, and the expired session is gone. */
  lemma NoSessionNoEntry(t: Table, id: string, min: Role, ttlSecs: nat, refreshSecs: nat, env: RoleEnv,
                         now: int, later: int, last: int)
    requires !InForce(t, id, ttlSecs, now)
    ensures var r := Required(t, id, min, ttlSecs, refreshSecs, env, now, later, last);
            r.1 == Unauthenticated && r.0 == if ttlSecs <= MAX_TTL_SECS then t - {id} else t
  {
    assert id !in t ==> t - {id} == t;
  }

  /** With one in force, the role decides, and when the last check is recent, nothing else; the session is seen now. */
  lemma RecentCheckSuffices(t: Table, id: string, min: Role, ttlSecs: nat, refreshSecs: nat, env: RoleEnv,
                            now: int, later: int, last: int)
    requires InForce(t, id, ttlSecs, now)
    requires !Suffices(t[id].role, min) || later - t[id].lastRoleCheck <= refreshSecs * SECOND
    ensures var r := Required(t, id, min, ttlSecs, refreshSecs, env, now, later, last);
            var seen := t[id].(lastSeen := now);
            r.0 == t[id := seen] && r.1 == if Suffices(t[id].role, min) then Admitted(seen) else Forbidden
  {
    RolesAreOrdered(t[id].role, min);
  }

  /**
  When the last check is stale, the role is checked anew: the request is refused and
  the session removed exactly when the role is known to have been taken away, and the
  check is recorded exactly when the role is known to be held.
  */
  lemma StaleCheckDecides(t: Table, id: string, min: Role, ttlSecs: nat, refreshSecs: nat, env: RoleEnv,
                          now: int, later: int, last: int)
    requires InForce(t, id, ttlSecs, now)
    requires Suffices(t[id].role, min) && later - t[id].lastRoleCheck > refreshSecs * SECOND
    ensures var r := Required(t, id, min, ttlSecs, refreshSecs, env, now, later, last);
            var seen := t[id].(lastSeen := now);
            if StruckOff(t[id], env) then r == (t - {id}, Forbidden)
            else r == (t[id := if StillHolds(t[id], env) then seen.(lastRoleCheck := last) else seen], Admitted(seen))
  {
    RolesAreOrdered(t[id].role, min);
    var seen := t[id].(lastSeen := now);
    assert t[id := seen] - {id} == t - {id};
    assert t[id := seen][id := seen.(lastRoleCheck := last)] == t[id := seen.(lastRoleCheck := last)];
  }

  /** What a session is made of: the user it was made for, one instant thrice, and its secret; the others stay. */
  lemma InsertedIsUsers(t: Table, id: string, csrf: seq<bv8>, n: NewSession, now: int)
    ensures var t' := Inserted(t, id, csrf, n, now);
            && t'.Keys == t.Keys + {id} && (forall x :: x in t && x != id ==> t'[x] == t[x])
            && NewSession(t'[id].userId, t'[id].login, t'[id].role, t'[id].avatar, t'[id].isBroadcaster) == n
            && t'[id].csrf == csrf && now == t'[id].issuedAt == t'[id].lastSeen == t'[id].lastRoleCheck
  {
  }

  /** A restart brings every session of the file back, with nothing changed but the role check. */
  lemma RestoredIsTheSame(stored: Table)
    ensures var t := Restored(Some(stored));
            && t.Keys == stored.Keys && Restored(None) == map[]
            && (forall id :: id in t ==> t[id] == stored[id].(lastRoleCheck := t[id].lastRoleCheck))
            && (forall id :: id in t ==> t[id].lastRoleCheck == MIN_UTC)
  {
  }

  class SessionTable {
    var inner: Table

    constructor Load(stored: Option<Table>)
      ensures inner == Restored(stored)
    {
      inner := if stored.None? then map[] else map id | id in stored.value :: stored.value[id].(lastRoleCheck := MIN_UTC);
    }

    method InsertAt(id: string, csrf: seq<bv8>, n: NewSession, now: int)
      modifies this
      ensures inner == Inserted(old(inner), id, csrf, n, now)
    {
      inner := inner[id := Session(n.userId, n.login, n.role, now, now, now, csrf, n.avatar, n.isBroadcaster)];
    }

    method GetAndTouch(id: string, ttlSecs: nat, now: int) returns (r: Option<Session>)
      modifies this
      ensures (inner, r) == Touched(old(inner), id, ttlSecs, now)
    {
      if ttlSecs > MAX_TTL_SECS {
        return None;
      }
      if id !in inner {
        return None;
      }
      var session := inner[id];
      if now - session.lastSeen > ttlSecs * SECOND {
        inner := inner - {id};
        return None;
      }
      session := session.(lastSeen := now);
      inner := inner[id := session];
      r := Some(session);
    }

    method DropSession(id: string)
      modifies this
      ensures inner == old(inner) - {id}
    {
      inner := inner - {id};
    }

    method RecordRoleCheck(id: string, now: int)
      modifies this
      ensures inner == Checked(old(inner), id, now)
    {
      if id in inner {
        inner := inner[id := inner[id].(lastRoleCheck := now)];
      }
    }

    /** One request that nothing else interleaves with. The clock is read up to three times. */
    method RequireRole(cookie: Option<string>, min: Role, ttlSecs: nat, refreshSecs: nat, env: RoleEnv,
                       now: int, later: int, last: int) returns (r: Answer)
      modifies this
      ensures cookie.None? ==> r == Unauthenticated && inner == old(inner)
      ensures cookie.Some? ==>
                (inner, r) == Required(old(inner), cookie.value, min, ttlSecs, refreshSecs, env, now, later, last)
      ensures cookie.Some? && InForce(old(inner), cookie.value, ttlSecs, now)
                && Suffices(old(inner[cookie.value]).role, min)
                && later - old(inner[cookie.value]).lastRoleCheck > refreshSecs * SECOND ==>
                (r == Forbidden && cookie.value !in inner <==> StruckOff(old(inner[cookie.value]), env))
      ensures !r.Recheck?
    {
      if cookie.None? {
        return Unauthenticated;
      }
      var id := cookie.value;
      ghost var before := inner;
      if InForce(before, id, ttlSecs, now) && Suffices(before[id].role, min)
         && later - before[id].lastRoleCheck > refreshSecs * SECOND {
        StaleCheckDecides(before, id, min, ttlSecs, refreshSecs, env, now, later, last);
      }
      var found := GetAndTouch(id, ttlSecs, now);
      if found.None? {
        return Unauthenticated;
      }
      var session := found.value;
      if Rank(session.role) < Rank(min) {
        return Forbidden;
      }
      var elapsed := if later > session.lastRoleCheck then later - session.lastRoleCheck else 0;
      if elapsed > refreshSecs * SECOND {
        var outcome := CheckRole(session, env);
        match outcome {
          case Allow => RecordRoleCheck(id, last);
          case Deny =>
            DropSession(id);
            return Forbidden;
          case Error =>
        }
      }
      r := Admitted(session);
    }
  }
}
