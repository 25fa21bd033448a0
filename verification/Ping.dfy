/**
The ping manager and the actor that owns it. Each operation is a function from
the state before to the state after; the class performs it on its fields.
Clocks are read in nanoseconds, and whether a save reaches the disk is decided
by the environment.
*/
module Ping {
  import opened Text
  import opened Sets
  import Template

  const SECOND: nat := 1_000_000_000
  const U64_MAX: nat := 0xFFFF_FFFF_FFFF_FFFF

  datatype Ping = Ping(template: string, members: set<string>, cooldown: Option<nat>,
                       createdBy: string, lastFiredAt: Option<int>, fireCount: nat)

  /** The stored pings, and when each was last triggered since the start. */
  datatype State = State(pings: map<string, Ping>, lastTriggered: map<string, int>)

  datatype Refusal = BadName | BadTemplate | Exists | Unknown | AlreadyMember | NotMember

  datatype Outcome = Ok | SaveFailed | Refused(why: Refusal)

  datatype Decision = Skip | OnCooldown(remaining: int) | Fire(text: string)

  // ---- single operations ----

  predicate IsNameChar(c: char) {
    'a' <= c <= 'z' || 'A' <= c <= 'Z' || IsDigit(c) || c == '-' || c == '_'
  }

  predicate ValidName(name: string) {
    name != "" && forall i :: 0 <= i < |name| ==> IsNameChar(name[i])
  }

  predicate ValidTemplate(t: string) {
    forall i :: 0 <= i < |t| ==> !IsControl(t[i])
  }

  /** What is said after a change, which stays in memory even when it could not be saved. */
  function Saved(saveOk: bool): Outcome {
    if saveOk then Ok else SaveFailed
  }

  function Created(s: State, name: string, template: string, createdBy: string, cooldown: Option<nat>, saveOk: bool)
    : (State, Outcome)
  {
    var n := AsciiLower(name);
    if !ValidName(n) then (s, Refused(BadName))
    else if !ValidTemplate(template) then (s, Refused(BadTemplate))
    else if n in s.pings then (s, Refused(Exists))
    else (s.(pings := s.pings[n := Ping(template, {}, cooldown, createdBy, None, 0)]), Saved(saveOk))
  }

  function Deleted(s: State, name: string, saveOk: bool): (State, Outcome) {
    if name !in s.pings then (s, Refused(Unknown))
    else (State(s.pings - {name}, s.lastTriggered - {name}), Saved(saveOk))
  }

  function Edited(s: State, name: string, template: string, saveOk: bool): (State, Outcome) {
    if !ValidTemplate(template) then (s, Refused(BadTemplate))
    else if name !in s.pings then (s, Refused(Unknown))
    else (s.(pings := s.pings[name := s.pings[name].(template := template)]), Saved(saveOk))
  }

  /** `lower` is Unicode lower-casing. */
  function MemberAdded(s: State, name: string, user: string, lower: string -> string, saveOk: bool): (State, Outcome) {
    if name !in s.pings then (s, Refused(Unknown))
    else
      var p := s.pings[name];
      if lower(user) in p.members then (s, Refused(AlreadyMember))
      else (s.(pings := s.pings[name := p.(members := p.members + {lower(user)})]), Saved(saveOk))
  }

  function MemberRemoved(s: State, name: string, user: string, lower: string -> string, saveOk: bool): (State, Outcome) {
    if name !in s.pings then (s, Refused(Unknown))
    else
      var p := s.pings[name];
      if lower(user) !in p.members then (s, Refused(NotMember))
      else (s.(pings := s.pings[name := p.(members := p.members - {lower(user)})]), Saved(saveOk))
  }

  predicate IsMember(s: State, name: string, user: string) {
    name in s.pings && user in s.pings[name].members
  }

  /** The ping's own cooldown, in seconds, or else the default. */
  function Cooldown(p: Ping, default: nat): nat {
    if p.cooldown.Some? then p.cooldown.value * SECOND else default
  }

  function Remaining(s: State, name: string, default: nat, now: int): Option<int> {
    if name !in s.pings || name !in s.lastTriggered then None
    else
      var elapsed := if now > s.lastTriggered[name] then now - s.lastTriggered[name] else 0;
      var cooldown := Cooldown(s.pings[name], default);
      if elapsed < cooldown then Some(cooldown - elapsed) else None
  }

  function Recorded(s: State, name: string, now: int, utc: int): State {
    if name !in s.pings then s
    else
      var p := s.pings[name];
      var count := if p.fireCount < U64_MAX then p.fireCount + 1 else p.fireCount;
      State(s.pings[name := p.(lastFiredAt := Some(utc), fireCount := count)], s.lastTriggered[name := now])
  }

  /** The order in which the set of a ping's members is iterated. */
  ghost predicate ListsMembers(s: State, name: string, members: seq<string>) {
    name in s.pings ==> Elems(members) == s.pings[name].members && !Repeats(members)
  }

  /** Whom a ping addresses: its members, but not the sender if the template names them itself. */
  function Addressed(p: Ping, sender: string): set<string> {
    if Contains(p.template, Template.SENDER) then p.members - {sender} else p.members
  }

  /** The template, filled in with a mention of everyone addressed, each once, in some order. */
  ghost predicate Addresses(p: Ping, sender: string, text: string) {
    exists listed :: && Elems(listed) == Addressed(p, sender) && !Repeats(listed)
                     && text == Template.FillIn(p.template, Template.JoinMentions(listed), sender)
  }

  function Rendered(s: State, name: string, sender: string, members: seq<string>): Option<string> {
    if name !in s.pings then None else Template.Render(s.pings[name].template, members, sender)
  }

  /**
  What a command gets from outside: whether a save succeeds, two clock readings, to
  check the cooldown and to record the fire, the order of a set, and lower-casing.
  */
  datatype Env = Env(saveOk: bool, checkAt: int, recordAt: int, utc: int, members: seq<string>,
                     lower: string -> string)

  function Triggered(s: State, name: string, sender: string, default: nat, public: bool, env: Env): (State, Decision) {
    if !public && !IsMember(s, name, sender) then (s, Skip)
    else
      match Remaining(s, name, default, env.checkAt)
      case Some(left) => (s, OnCooldown(left))
      case None =>
        match Rendered(s, name, sender, env.members)
        case None => (s, Skip)
        case Some(text) => (Recorded(s, name, env.recordAt, env.utc), Fire(text))
  }

  /** A ping that fires addresses exactly its stored members, and one with nobody to address does not fire. */
  lemma RenderedAddresses(s: State, name: string, sender: string, members: seq<string>)
    requires name in s.pings && ListsMembers(s, name, members)
    ensures var r := Rendered(s, name, sender, members); var p := s.pings[name];
            if Addressed(p, sender) == {} then r == None else r.Some? && Addresses(p, sender, r.value)
  {
    var p := s.pings[name];
    var skip := Contains(p.template, Template.SENDER);
    var listed := Template.Mentioned(members, sender, skip);
    Template.MentionedMembers(members, sender, skip);
    Template.JoinedMentions(listed);
    forall x ensures x in Addressed(p, sender) <==> x in listed {
      assert x in p.members <==> x in Elems(members);
    }
    assert Elems(listed) == Addressed(p, sender);
    assert listed != [] ==> listed[0] in Elems(listed);
  }

  /** Loading drops pings whose template would not be accepted today. */
  function Loaded(pings: map<string, Ping>): State {
    State(map n | n in pings && ValidTemplate(pings[n].template) :: pings[n], map[])
  }

  class PingManager {
    var pings: map<string, Ping>
    var lastTriggered: map<string, int>

    function Now(): State
      reads this
    {
      State(pings, lastTriggered)
    }

    constructor Load(stored: map<string, Ping>)
      ensures Now() == Loaded(stored)
    {
      pings := map n | n in stored && ValidTemplate(stored[n].template) :: stored[n];
      lastTriggered := map[];
    }

    method CreatePing(name: string, template: string, createdBy: string, cooldown: Option<nat>, saveOk: bool)
      returns (r: Outcome)
      modifies this
      ensures (Now(), r) == Created(old(Now()), name, template, createdBy, cooldown, saveOk)
    {
      var n := AsciiLower(name);
      if n == "" {
        return Refused(BadName);
      }
      if exists i :: 0 <= i < |n| && !IsNameChar(n[i]) {
        return Refused(BadName);
      }
      if !ValidTemplate(template) {
        return Refused(BadTemplate);
      }
      if n in pings {
        return Refused(Exists);
      }
      pings := pings[n := Ping(template, {}, cooldown, createdBy, None, 0)];
      r := Saved(saveOk);
    }

    method DeletePing(name: string, saveOk: bool) returns (r: Outcome)
      modifies this
      ensures (Now(), r) == Deleted(old(Now()), name, saveOk)
    {
      if name !in pings {
        return Refused(Unknown);
      }
      pings := pings - {name};
      lastTriggered := lastTriggered - {name};
      r := Saved(saveOk);
    }

    method EditTemplate(name: string, template: string, saveOk: bool) returns (r: Outcome)
      modifies this
      ensures (Now(), r) == Edited(old(Now()), name, template, saveOk)
    {
      if !ValidTemplate(template) {
        return Refused(BadTemplate);
      }
      if name !in pings {
        return Refused(Unknown);
      }
      pings := pings[name := pings[name].(template := template)];
      r := Saved(saveOk);
    }

    method AddMember(name: string, user: string, lower: string -> string, saveOk: bool) returns (r: Outcome)
      modifies this
      ensures (Now(), r) == MemberAdded(old(Now()), name, user, lower, saveOk)
    {
      if name !in pings {
        return Refused(Unknown);
      }
      var p := pings[name];
      var member := lower(user);
      if member in p.members {
        return Refused(AlreadyMember);
      }
      pings := pings[name := p.(members := p.members + {member})];
      r := Saved(saveOk);
    }

    method RemoveMember(name: string, user: string, lower: string -> string, saveOk: bool) returns (r: Outcome)
      modifies this
      ensures (Now(), r) == MemberRemoved(old(Now()), name, user, lower, saveOk)
    {
      if name !in pings {
        return Refused(Unknown);
      }
      var p := pings[name];
      var member := lower(user);
      if member !in p.members {
        return Refused(NotMember);
      }
      pings := pings[name := p.(members := p.members - {member})];
      r := Saved(saveOk);
    }

    method RecordTrigger(name: string, now: int, utc: int)
      modifies this
      ensures Now() == Recorded(old(Now()), name, now, utc)
    {
      if name !in pings {
        return;
      }
      var p := pings[name];
      lastTriggered := lastTriggered[name := now];
      p := p.(lastFiredAt := Some(utc));
      p := p.(fireCount := if p.fireCount < U64_MAX then p.fireCount + 1 else p.fireCount);
      pings := pings[name := p];
    }

    method TryRecordTrigger(name: string, sender: string, default: nat, public: bool, env: Env) returns (d: Decision)
      requires ListsMembers(Now(), name, env.members)
      modifies this
      ensures (Now(), d) == Triggered(old(Now()), name, sender, default, public, env)
      ensures d.Fire? ==> name in old(pings) && Addresses(old(pings[name]), sender, d.text)
    {
      if !public && !IsMember(Now(), name, sender) {
        return Skip;
      }
      var remaining := Remaining(Now(), name, default, env.checkAt);
      if remaining.Some? {
        return OnCooldown(remaining.value);
      }
      var rendered := Rendered(Now(), name, sender, env.members);
      if rendered.None? {
        return Skip;
      }
      RenderedAddresses(Now(), name, sender, env.members);
      RecordTrigger(name, env.recordAt, env.utc);
      d := Fire(rendered.value);
    }
  }

  // ---- the actor ----

  datatype Command =
    | Create(name: string, template: string, createdBy: string, cooldown: Option<nat>)
    | Delete(name: string)
    | Edit(name: string, template: string)
    | Add(name: string, user: string)
    | Remove(name: string, user: string)
    | Trigger(name: string, sender: string, default: nat, public: bool)
    | Snapshot
    | GetOne(name: string)
    | ListFor(user: string)
    | AskMember(name: string, user: string)

  datatype Event = Event(cmd: Command, env: Env)

  datatype Reply =
    | Done(outcome: Outcome)
    | Decided(decision: Decision)
    | Views(pings: map<string, Ping>)
    | View(ping: Option<Ping>)
    | Names(names: set<string>)
    | Membership(member: bool)

  function Step(s: State, e: Event): (State, Reply) {
    match e.cmd
    case Create(name, template, author, cooldown) =>
      var r := Created(s, name, template, author, cooldown, e.env.saveOk); (r.0, Done(r.1))
    case Delete(name) => var r := Deleted(s, name, e.env.saveOk); (r.0, Done(r.1))
    case Edit(name, template) => var r := Edited(s, name, template, e.env.saveOk); (r.0, Done(r.1))
    case Add(name, user) => var r := MemberAdded(s, name, user, e.env.lower, e.env.saveOk); (r.0, Done(r.1))
    case Remove(name, user) => var r := MemberRemoved(s, name, user, e.env.lower, e.env.saveOk); (r.0, Done(r.1))
    case Trigger(name, sender, default, public) =>
      var r := Triggered(s, name, sender, default, public, e.env); (r.0, Decided(r.1))
    case Snapshot => (s, Views(s.pings))
    case GetOne(name) => (s, View(if name in s.pings then Some(s.pings[name]) else None))
    case ListFor(user) => (s, Names(set n | n in s.pings && user in s.pings[n].members))
    case AskMember(name, user) => (s, Membership(IsMember(s, name, user)))
  }

  /** The state after each prefix of a run is what the events, in order, make of the first. */
  function Run(s: State, events: seq<Event>): State {
    if events == [] then s else Step(Run(s, events[..|events| - 1]), events[|events| - 1]).0
  }

  function ReplyAt(s: State, events: seq<Event>, i: nat): Reply
    requires i < |events|
  {
    Step(Run(s, events[..i]), events[i]).1
  }

  /** Each trigger finds the members that are stored at its time, in some order. */
  ghost predicate ListsItsMembers(s: State, e: Event) {
    e.cmd.Trigger? ==> ListsMembers(s, e.cmd.name, e.env.members)
  }

  /** The actor serves its commands one by one; before each, the names it has published are those stored. */
  method RunPingActor(manager: PingManager, events: seq<Event>)
    returns (replies: seq<Reply>, published: seq<set<string>>)
    requires forall i :: 0 <= i < |events| ==> ListsItsMembers(Run(manager.Now(), events[..i]), events[i])
    modifies manager
    ensures manager.Now() == Run(old(manager.Now()), events)
    ensures |replies| == |events| && forall i :: 0 <= i < |events| ==> replies[i] == ReplyAt(old(manager.Now()), events, i)
    ensures |published| == |events| + 1
    ensures forall i :: 0 <= i <= |events| ==> published[i] == Run(old(manager.Now()), events[..i]).pings.Keys
  {
    ghost var start := manager.Now();
    var names := manager.pings.Keys;
    replies, published := [], [names];
    for k := 0 to |events|
      invariant manager.Now() == Run(start, events[..k])
      invariant |replies| == k && forall i :: 0 <= i < k ==> replies[i] == ReplyAt(start, events, i)
      invariant |published| == k + 1
      invariant forall i :: 0 <= i <= k ==> published[i] == Run(start, events[..i]).pings.Keys
      invariant names == manager.pings.Keys
    {
      var reply;
      reply, names := Serve(manager, events[k], names);
      replies, published := replies + [reply], published + [names];
      assert events[..k + 1][..k] == events[..k];
    }
    assert events[..|events|] == events;
  }

  /** One turn of the actor's loop; only creating and deleting publish the names anew. */
  method Serve(manager: PingManager, e: Event, names: set<string>) returns (reply: Reply, names': set<string>)
    requires names == manager.pings.Keys && ListsItsMembers(manager.Now(), e)
    modifies manager
    ensures (manager.Now(), reply) == Step(old(manager.Now()), e)
    ensures names' == manager.pings.Keys
  {
    names' := names;
    match e.cmd {
      case Create(name, template, author, cooldown) =>
        var r := manager.CreatePing(name, template, author, cooldown, e.env.saveOk);
        reply := Done(r);
        names' := manager.pings.Keys;
      case Delete(name) =>
        var r := manager.DeletePing(name, e.env.saveOk);
        reply := Done(r);
        names' := manager.pings.Keys;
      case Edit(name, template) =>
        var r := manager.EditTemplate(name, template, e.env.saveOk);
        reply := Done(r);
      case Add(name, user) =>
        var r := manager.AddMember(name, user, e.env.lower, e.env.saveOk);
        reply := Done(r);
      case Remove(name, user) =>
        var r := manager.RemoveMember(name, user, e.env.lower, e.env.saveOk);
        reply := Done(r);
      case Trigger(name, sender, default, public) =>
        var d := manager.TryRecordTrigger(name, sender, default, public, e.env);
        reply := Decided(d);
      case Snapshot => reply := Views(manager.pings);
      case GetOne(name) => reply := View(if name in manager.pings then Some(manager.pings[name]) else None);
      case ListFor(user) => reply := Names(set n | n in manager.pings && user in manager.pings[n].members);
      case AskMember(name, user) => reply := Membership(IsMember(manager.Now(), name, user));
    }
  }
}
