/**
The ping actor told from its commands and replies: when a trigger fires, what is
refused and why, and what each ping holds.
*/
module PingLog {
  import opened Letters
  import opened Sets
  import opened Text
  import opened Ping
  import opened PingTheorems

  // ---- when a trigger fires ----

  /** Event `f` fired the ping, and up to `n` nothing fired it again or removed it. */
  ghost predicate LastFire(s: State, events: seq<Event>, f: nat, n: nat, name: string)
    requires n <= |events|
  {
    && f < n && FiredAt(s, events, f, name)
    && forall m :: f < m < n ==> !FiredAt(s, events, m, name) && !RemovedAt(s, events, m, name)
  }

  /** What an event does to the memory of one ping's last trigger. */
  lemma MemoryStep(s: State, e: Event, name: string)
    requires s.lastTriggered.Keys <= s.pings.Keys
    ensures var s' := Step(s, e).0;
            var fired := e.cmd.Trigger? && e.cmd.name == name && Step(s, e).1.decision.Fire?;
            var removed := e.cmd == Delete(name) && name in s.pings;
            && s'.lastTriggered.Keys <= s'.pings.Keys
            && (fired ==> name in s'.lastTriggered && s'.lastTriggered[name] == e.env.recordAt)
            && (removed ==> name !in s'.lastTriggered)
            && (!fired && !removed ==> (name in s'.lastTriggered <==> name in s.lastTriggered))
            && (!fired && name in s'.lastTriggered ==>
                  name in s.lastTriggered && s'.lastTriggered[name] == s.lastTriggered[name])
  {
  }

  lemma {:induction false} RemembersStored(s: State, events: seq<Event>, n: nat, name: string)
    requires n <= |events| && s.lastTriggered == map[]
    ensures Run(s, events[..n]).lastTriggered.Keys <= Run(s, events[..n]).pings.Keys
  {
    if n == 0 {
      assert events[..0] == [];
    } else {
      RemembersStored(s, events, n - 1, name);
      assert events[..n][..n - 1] == events[..n - 1];
      MemoryStep(Run(s, events[..n - 1]), events[n - 1], name);
    }
  }

  lemma LoggedStep(s: State, events: seq<Event>, k: nat, name: string)
    requires k < |events| && s.lastTriggered == map[]
    ensures var before, after := Run(s, events[..k]), Run(s, events[..k + 1]);
            if FiredAt(s, events, k, name) then
              name in after.lastTriggered && after.lastTriggered[name] == events[k].env.recordAt
            else if RemovedAt(s, events, k, name) then name !in after.lastTriggered
            else
              && (name in after.lastTriggered <==> name in before.lastTriggered)
              && (name in before.lastTriggered ==> after.lastTriggered[name] == before.lastTriggered[name])
  {
    RemembersStored(s, events, k, name);
    assert events[..k + 1][..k] == events[..k];
    MemoryStep(Run(s, events[..k]), events[k], name);
    hide Step;
  }

  /** The last fire, searched for from the end. */
  ghost function LatestFire(s: State, events: seq<Event>, n: nat, name: string): Option<nat>
    requires n <= |events|
  {
    if n == 0 || RemovedAt(s, events, n - 1, name) then None
    else if FiredAt(s, events, n - 1, name) then Some(n - 1)
    else LatestFire(s, events, n - 1, name)
  }

  lemma {:induction false} LatestIsLast(s: State, events: seq<Event>, n: nat, name: string, f: nat)
    requires n <= |events|
    ensures LastFire(s, events, f, n, name) <==> LatestFire(s, events, n, name) == Some(f)
    decreases n
  {
    hide FiredAt, RemovedAt;
    if n == 0 {
    } else {
      LatestIsLast(s, events, n - 1, name, f);
      NotBoth(s, events, n - 1, name);
    }
  }

  lemma NotBoth(s: State, events: seq<Event>, k: nat, name: string)
    requires k < |events|
    ensures !(FiredAt(s, events, k, name) && RemovedAt(s, events, k, name))
  {
    hide Run, Step;
  }

  lemma {:induction false} MemoryIsLatest(s: State, events: seq<Event>, n: nat, name: string)
    requires n <= |events| && s.lastTriggered == map[]
    ensures var now, f := Run(s, events[..n]), LatestFire(s, events, n, name);
            if f.None? then name !in now.lastTriggered
            else f.value < n && name in now.lastTriggered && now.lastTriggered[name] == events[f.value].env.recordAt
    decreases n
  {
    if n == 0 {
      assert events[..0] == [];
    } else {
      MemoryIsLatest(s, events, n - 1, name);
      LoggedStep(s, events, n - 1, name);
      NotBoth(s, events, n - 1, name);
      hide Run, FiredAt, RemovedAt;
    }
  }

  /** What is remembered of a ping is its last fire since the start, unless it was removed since. */
  lemma MemoryIsLastFire(s: State, events: seq<Event>, n: nat, name: string)
    requires n <= |events| && s.lastTriggered == map[]
    ensures var now := Run(s, events[..n]);
            && (name in now.lastTriggered <==> exists f: nat :: LastFire(s, events, f, n, name))
            && forall f: nat :: LastFire(s, events, f, n, name) ==> now.lastTriggered[name] == events[f].env.recordAt
  {
    MemoryIsLatest(s, events, n, name);
    forall f: nat ensures LastFire(s, events, f, n, name) <==> LatestFire(s, events, n, name) == Some(f) {
      LatestIsLast(s, events, n, name, f);
    }
    hide Run, LastFire, LatestFire;
    var latest := LatestFire(s, events, n, name);
    assert latest.Some? ==> LastFire(s, events, latest.value, n, name);
  }

  /** The ping's own cooldown in seconds, or else the default, as the trigger at `i` finds it. */
  function RestNeeded(p: Ping, cmd: Command): nat
    requires cmd.Trigger?
  {
    match p.cooldown
    case Some(secs) => secs * 1_000_000_000
    case None => cmd.default
  }

  /** Time since an earlier fire; a clock that has gone backwards counts as none. */
  function Since(e: Event, f: Event): nat {
    if e.env.checkAt > f.env.recordAt then e.env.checkAt - f.env.recordAt else 0
  }

  /** There was no fire of the ping since start, creation or removal, or it is long enough ago. */
  ghost predicate Rested(s: State, events: seq<Event>, i: nat, p: Ping)
    requires i < |events| && events[i].cmd.Trigger?
  {
    forall f: nat :: LastFire(s, events, f, i, events[i].cmd.name) ==> Since(events[i], events[f]) >= RestNeeded(p, events[i].cmd)
  }

  /** The sender may trigger the ping: it is open to everyone, or they are a member. */
  predicate Permitted(s: State, cmd: Command)
    requires cmd.Trigger?
  {
    cmd.public || (cmd.name in s.pings && cmd.sender in s.pings[cmd.name].members)
  }

  /** Whether the ping is still on cooldown, told from the log. */
  lemma RemainingByLog(s: State, events: seq<Event>, i: nat)
    requires i < |events| && s.lastTriggered == map[] && events[i].cmd.Trigger?
    requires events[i].cmd.name in Run(s, events[..i]).pings
    ensures var now := Run(s, events[..i]); var cmd := events[i].cmd; var p := now.pings[cmd.name];
            var left := Remaining(now, cmd.name, cmd.default, events[i].env.checkAt);
            && (left.None? <==> Rested(s, events, i, p))
            && forall f: nat :: left.Some? && LastFire(s, events, f, i, cmd.name) ==>
                 left.value == RestNeeded(p, cmd) - Since(events[i], events[f])
  {
    MemoryIsLastFire(s, events, i, events[i].cmd.name);
  }

  /**
  A trigger fires exactly when its sender is permitted, the ping is stored, has
  somebody to address and has rested; otherwise it changes nothing.
  */
  lemma FiresExactly(s: State, events: seq<Event>, i: nat)
    requires i < |events| && s.lastTriggered == map[] && events[i].cmd.Trigger?
    requires ListsItsMembers(Run(s, events[..i]), events[i])
    ensures var now := Run(s, events[..i]); var cmd := events[i].cmd;
            && ReplyAt(s, events, i).Decided?
            && (ReplyAt(s, events, i).decision.Fire? <==>
                  && Permitted(now, cmd) && cmd.name in now.pings
                  && Addressed(now.pings[cmd.name], cmd.sender) != {} && Rested(s, events, i, now.pings[cmd.name]))
            && (!ReplyAt(s, events, i).decision.Fire? ==> Run(s, events[..i + 1]) == now)
  {
    var now := Run(s, events[..i]);
    var cmd := events[i].cmd;
    assert events[..i + 1][..i] == events[..i];
    if cmd.name in now.pings {
      RemainingByLog(s, events, i);
      RenderedAddresses(now, cmd.name, cmd.sender, events[i].env.members);
    }
    hide Remaining, Rendered, Run, Rested;
  }

  /** And it is answered with the time left exactly when it is permitted and the ping has not rested. */
  lemma CooldownIsTimeLeft(s: State, events: seq<Event>, i: nat)
    requires i < |events| && s.lastTriggered == map[] && events[i].cmd.Trigger?
    ensures var now := Run(s, events[..i]); var cmd := events[i].cmd; var d := ReplyAt(s, events, i).decision;
            && (d.OnCooldown? <==>
                  Permitted(now, cmd) && cmd.name in now.pings && !Rested(s, events, i, now.pings[cmd.name]))
            && forall f: nat :: d.OnCooldown? && LastFire(s, events, f, i, cmd.name) ==>
                 d.remaining == RestNeeded(now.pings[cmd.name], cmd) - Since(events[i], events[f])
  {
    var now := Run(s, events[..i]);
    if events[i].cmd.name in now.pings {
      RemainingByLog(s, events, i);
    }
    hide Remaining, Rendered, Run, Rested;
  }

  // ---- what is refused ----

  const DIGITS: string := "0123456789"

  predicate MayBeInName(c: char) {
    c in UPPER || c in LOWER || c in DIGITS || c == '-' || c == '_'
  }

  lemma InDigits(c: char)
    ensures c in DIGITS <==> IsDigit(c)
  {
    assert |DIGITS| == 10 && forall k :: 0 <= k < 10 ==> DIGITS[k] == '0' + k as char;
    if IsDigit(c) {
      assert DIGITS[c as int - '0' as int] == c;
    }
  }

  lemma NameCharLowered(c: char)
    ensures IsNameChar(AsciiLower([c])[0]) <==> MayBeInName(c)
  {
    InUpper(c);
    InLower(c);
    InDigits(c);
  }

  lemma NameLowered(name: string)
    ensures ValidName(AsciiLower(name)) <==> name != "" && forall i :: 0 <= i < |name| ==> MayBeInName(name[i])
  {
    forall i | 0 <= i < |name| ensures IsNameChar(AsciiLower(name)[i]) <==> MayBeInName(name[i]) {
      NameCharLowered(name[i]);
    }
    assert |AsciiLower(name)| == |name|;
  }

  /** The first reason to refuse a change, if there is one; names are compared without regard to case when creating. */
  function Reason(s: State, e: Event): Option<Refusal> {
    match e.cmd
    case Create(name, template, _, _) =>
      if name == "" || exists i :: 0 <= i < |name| && !MayBeInName(name[i]) then Some(BadName)
      else if exists i :: 0 <= i < |template| && IsControl(template[i]) then Some(BadTemplate)
      else if AsciiLower(name) in s.pings then Some(Exists)
      else None
    case Delete(name) => if name in s.pings then None else Some(Unknown)
    case Edit(name, template) =>
      if exists i :: 0 <= i < |template| && IsControl(template[i]) then Some(BadTemplate)
      else if name in s.pings then None else Some(Unknown)
    case Add(name, user) =>
      if name !in s.pings then Some(Unknown)
      else if e.env.lower(user) in s.pings[name].members then Some(AlreadyMember) else None
    case Remove(name, user) =>
      if name !in s.pings then Some(Unknown)
      else if e.env.lower(user) in s.pings[name].members then None else Some(NotMember)
    case _ => None
  }

  predicate Changes(cmd: Command) {
    cmd.Create? || cmd.Delete? || cmd.Edit? || cmd.Add? || cmd.Remove?
  }

  /** A change is refused, for the first reason there is, exactly when there is one, and then changes nothing. */
  lemma RefusedForReason(s: State, e: Event)
    requires Changes(e.cmd)
    ensures Step(s, e).1 == Done(match Reason(s, e)
                                 case Some(why) => Refused(why)
                                 case None => if e.env.saveOk then Ok else SaveFailed)
    ensures Reason(s, e).Some? ==> Step(s, e).0 == s
  {
    if e.cmd.Create? {
      NameLowered(e.cmd.name);
    }
  }

  /** The questions agree with each other and change nothing. */
  lemma AnswersAgree(s: State, env: Env, name: string, user: string)
    ensures var one := Step(s, Event(GetOne(name), env)); var all := Step(s, Event(Snapshot, env));
            var theirs := Step(s, Event(ListFor(user), env)); var asked := Step(s, Event(AskMember(name, user), env));
            && one.0 == all.0 == theirs.0 == asked.0 == s
            && one.1 == View(if name in all.1.pings then Some(all.1.pings[name]) else None)
            && (asked.1.member <==> one.1.ping.Some? && user in one.1.ping.value.members)
            && (name in theirs.1.names <==> asked.1.member)
            && all.1.pings == s.pings
  {
  }

  // ---- what a ping holds ----

  predicate Accepted(r: Reply) {
    r.Done? && !r.outcome.Refused?
  }

  /** A ping as the commands that were accepted, and the triggers that fired, made it. */
  ghost function Told(s: State, events: seq<Event>, name: string): Option<Ping> {
    if events == [] then
      if name in s.pings then Some(s.pings[name]) else None
    else
      var n := |events| - 1;
      var e, r := events[n], ReplyAt(s, events, n);
      var told := Told(s, events[..n], name);
      match e.cmd
      case Create(other, template, author, cooldown) =>
        if Accepted(r) && AsciiLower(other) == name then Some(Ping(template, {}, cooldown, author, None, 0)) else told
      case Delete(other) => if other == name then None else told
      case Edit(other, template) => if Accepted(r) && other == name then TellTemplate(told, template) else told
      case Add(other, user) =>
        if Accepted(r) && other == name then TellMembers(told, {e.env.lower(user)}, {}) else told
      case Remove(other, user) =>
        if Accepted(r) && other == name then TellMembers(told, {}, {e.env.lower(user)}) else told
      case Trigger(other, _, _, _) =>
        if r.Decided? && r.decision.Fire? && other == name then TellFire(told, e.env.utc) else told
      case _ => told
  }

  function TellTemplate(told: Option<Ping>, template: string): Option<Ping> {
    match told
    case None => None
    case Some(p) => Some(p.(template := template))
  }

  function TellMembers(told: Option<Ping>, joined: set<string>, left: set<string>): Option<Ping> {
    match told
    case None => None
    case Some(p) => Some(p.(members := p.members + joined - left))
  }

  function TellFire(told: Option<Ping>, utc: int): Option<Ping> {
    match told
    case None => None
    case Some(p) =>
      Some(p.(lastFiredAt := Some(utc), fireCount := if p.fireCount < U64_MAX then p.fireCount + 1 else p.fireCount))
  }

  /** Every ping at every moment is what the log tells, and there is none but those. */
  lemma {:induction false} PingsAreTold(s: State, events: seq<Event>, name: string)
    ensures Told(s, events, name) == if name in Run(s, events).pings then Some(Run(s, events).pings[name]) else None
  {
    if events == [] {
    } else {
      var n := |events| - 1;
      PingsAreTold(s, events[..n], name);
      PingStep(Run(s, events[..n]), events[n], name);
      hide Step;
    }
  }

  /** What an event does to one ping. */
  lemma PingStep(s: State, e: Event, name: string)
    ensures var s', r := Step(s, e).0, Step(s, e).1;
            var told := if name in s.pings then Some(s.pings[name]) else None;
            var told' := if name in s'.pings then Some(s'.pings[name]) else None;
            told' ==
            match e.cmd
            case Create(other, template, author, cooldown) =>
              if Accepted(r) && AsciiLower(other) == name then Some(Ping(template, {}, cooldown, author, None, 0)) else told
            case Delete(other) => if other == name then None else told
            case Edit(other, template) => if Accepted(r) && other == name then TellTemplate(told, template) else told
            case Add(other, user) =>
              if Accepted(r) && other == name then TellMembers(told, {e.env.lower(user)}, {}) else told
            case Remove(other, user) =>
              if Accepted(r) && other == name then TellMembers(told, {}, {e.env.lower(user)}) else told
            case Trigger(other, _, _, _) =>
              if r.Decided? && r.decision.Fire? && other == name then TellFire(told, e.env.utc) else told
            case _ => told
  {
    if e.cmd.Add? && e.cmd.name == name && name in s.pings {
      assert s.pings[name].members + {e.env.lower(e.cmd.user)} - {} == s.pings[name].members + {e.env.lower(e.cmd.user)};
    }
    if e.cmd.Remove? && e.cmd.name == name && name in s.pings {
      assert s.pings[name].members + {} - {e.env.lower(e.cmd.user)} == s.pings[name].members - {e.env.lower(e.cmd.user)};
    }
  }
}
