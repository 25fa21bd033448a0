/**
What holds in every run of the ping actor, whatever commands come and whichever
saves fail.
*/
module PingTheorems {
  import opened Text
  import opened Ping

  /** The clock never runs backwards, within a command or from one to the next. */
  ghost predicate WellTimed(events: seq<Event>) {
    && (forall i :: 0 <= i < |events| ==> events[i].env.checkAt <= events[i].env.recordAt)
    && (forall i, j :: 0 <= i < j < |events| ==> events[i].env.recordAt <= events[j].env.checkAt)
  }

  // ---- what every command keeps ----

  ghost predicate Healthy(s: State) {
    && s.lastTriggered.Keys <= s.pings.Keys
    && forall n :: n in s.pings ==> ValidTemplate(s.pings[n].template) && s.pings[n].fireCount <= U64_MAX
  }

  lemma LoadedIsHealthy(stored: map<string, Ping>)
    requires forall n :: n in stored ==> stored[n].fireCount <= U64_MAX
    ensures Healthy(Loaded(stored))
    ensures forall n :: n in Loaded(stored).pings <==> n in stored && ValidTemplate(stored[n].template)
  {
  }

  lemma StepKeepsHealthy(s: State, e: Event)
    requires Healthy(s)
    ensures Healthy(Step(s, e).0)
  {
  }

  lemma {:induction false} RunKeepsHealthy(s: State, events: seq<Event>)
    requires Healthy(s)
    ensures Healthy(Run(s, events))
  {
    if events == [] {
    } else {
      RunKeepsHealthy(s, events[..|events| - 1]);
      StepKeepsHealthy(Run(s, events[..|events| - 1]), events[|events| - 1]);
    }
  }

  /** Saving only decides the answer: the run goes on as if every save had succeeded. */
  lemma {:induction false} SavesDoNotMatter(s: State, events: seq<Event>, events': seq<Event>)
    requires |events'| == |events|
    requires forall i :: 0 <= i < |events| ==>
               events'[i] == events[i].(env := events[i].env.(saveOk := events'[i].env.saveOk))
    ensures Run(s, events') == Run(s, events)
  {
    if events == [] {
    } else {
      var n := |events| - 1;
      SavesDoNotMatter(s, events[..n], events'[..n]);
      StepIgnoresSave(Run(s, events[..n]), events[n], events'[n].env.saveOk);
    }
  }

  lemma StepIgnoresSave(s: State, e: Event, ok: bool)
    ensures Step(s, e.(env := e.env.(saveOk := ok))).0 == Step(s, e).0
  {
  }

  // ---- fires of one ping ----

  ghost predicate FiredAt(s: State, events: seq<Event>, i: nat, name: string)
    requires i < |events|
  {
    && events[i].cmd.Trigger? && events[i].cmd.name == name
    && ReplyAt(s, events, i).Decided? && ReplyAt(s, events, i).decision.Fire?
  }

  ghost predicate RemovedAt(s: State, events: seq<Event>, k: nat, name: string)
    requires k < |events|
  {
    events[k].cmd == Delete(name) && name in Run(s, events[..k]).pings
  }

  /** The ping is stored, and its last trigger is remembered as no earlier than `t`. */
  ghost predicate TriggeredSince(s: State, name: string, t: int) {
    name in s.pings && name in s.lastTriggered && s.lastTriggered[name] >= t
  }

  lemma StepKeepsTriggered(s: State, e: Event, name: string, t: int)
    requires TriggeredSince(s, name, t) && e.env.recordAt >= t && e.cmd != Delete(name)
    ensures TriggeredSince(Step(s, e).0, name, t)
  {
  }

  lemma FireRecords(s: State, e: Event, name: string)
    requires e.cmd.Trigger? && e.cmd.name == name
    requires Step(s, e).1.Decided? && Step(s, e).1.decision.Fire?
    ensures TriggeredSince(Step(s, e).0, name, e.env.recordAt)
    ensures name in s.pings && Remaining(s, name, e.cmd.default, e.env.checkAt).None?
  {
  }

  lemma {:induction false} StaysTriggered(s: State, events: seq<Event>, i: nat, k: nat, name: string)
    requires i < k <= |events| && WellTimed(events) && FiredAt(s, events, i, name)
    requires forall m :: i < m < k ==> !RemovedAt(s, events, m, name)
    ensures TriggeredSince(Run(s, events[..k]), name, events[i].env.recordAt)
    decreases k
  {
    assert events[..k][..k - 1] == events[..k - 1];
    var before := Run(s, events[..k - 1]);
    assert Run(s, events[..k]) == Step(before, events[k - 1]).0;
    if k == i + 1 {
      FireRecords(before, events[i], name);
    } else {
      StaysTriggered(s, events, i, k - 1, name);
      assert !RemovedAt(s, events, k - 1, name);
      StepKeepsTriggered(before, events[k - 1], name, events[i].env.recordAt);
    }
  }

  /**
  Two fires of the same ping, with no delete between them that removed it, are at
  least as far apart as the cooldown in force at the second.
  */
  lemma FiresAreSpaced(s: State, events: seq<Event>, i: nat, j: nat, name: string)
    requires i < j < |events| && WellTimed(events)
    requires FiredAt(s, events, i, name) && FiredAt(s, events, j, name)
    requires forall m :: i < m < j ==> !RemovedAt(s, events, m, name)
    ensures name in Run(s, events[..j]).pings
    ensures events[j].env.checkAt - events[i].env.recordAt
         >= Cooldown(Run(s, events[..j]).pings[name], events[j].cmd.default)
  {
    StaysTriggered(s, events, i, j, name);
    FireRecords(Run(s, events[..j]), events[j], name);
  }

  // ---- whom a ping addresses ----

  /**
  In every run, the text of a fire is the ping's template with exactly those put in
  who are its members at that moment, less the sender if the template names them.
  */
  lemma FireAddressesMembers(s: State, events: seq<Event>, i: nat, name: string)
    requires i < |events| && ListsItsMembers(Run(s, events[..i]), events[i]) && FiredAt(s, events, i, name)
    ensures var now := Run(s, events[..i]); var sender := events[i].cmd.sender;
            && name in now.pings && Addressed(now.pings[name], sender) != {}
            && Addresses(now.pings[name], sender, ReplyAt(s, events, i).decision.text)
  {
    var now := Run(s, events[..i]);
    FireRecords(now, events[i], name);
    RenderedAddresses(now, name, events[i].cmd.sender, events[i].env.members);
  }

  /** And a permitted trigger that is not on cooldown stays without effect only if nobody is to be addressed. */
  lemma SkippedHasNobody(s: State, name: string, sender: string, default: nat, public: bool, env: Env)
    requires ListsMembers(s, name, env.members)
    requires (public || IsMember(s, name, sender)) && Remaining(s, name, default, env.checkAt).None?
    ensures Triggered(s, name, sender, default, public, env).1.Fire?
       <==> name in s.pings && Addressed(s.pings[name], sender) != {}
  {
    if name in s.pings {
      RenderedAddresses(s, name, sender, env.members);
    }
  }

  // ---- counting fires ----

  /** The command brought the ping into being. */
  ghost predicate CreatedAt(s: State, e: Event, name: string) {
    name !in s.pings && name in Step(s, e).0.pings
  }

  /** What the ping came with, if it was there from the start, and its fires since it was created or loaded. */
  ghost function Tally(s: State, events: seq<Event>, name: string): nat {
    if events == [] then
      if name in s.pings then s.pings[name].fireCount else 0
    else
      var n := |events| - 1;
      if CreatedAt(Run(s, events[..n]), events[n], name) then 0
      else Tally(s, events[..n], name) + if FiredAt(s, events, n, name) then 1 else 0
  }

  lemma StepCounts(s: State, e: Event, name: string)
    requires name in Step(s, e).0.pings
    ensures var count := Step(s, e).0.pings[name].fireCount;
            if name !in s.pings then count == 0
            else if e.cmd.Trigger? && e.cmd.name == name && Step(s, e).1.decision.Fire?
            then count == if s.pings[name].fireCount < U64_MAX then s.pings[name].fireCount + 1 else s.pings[name].fireCount
            else count == s.pings[name].fireCount
  {
  }

  /** The stored count is the number of fires, up to the 64-bit limit at which it stops. */
  lemma {:induction false} FireCountIsTally(s: State, events: seq<Event>, name: string)
    requires Healthy(s) && name in Run(s, events).pings
    ensures var tally := Tally(s, events, name);
            Run(s, events).pings[name].fireCount == if tally <= U64_MAX then tally else U64_MAX
  {
    if events == [] {
    } else {
      var n := |events| - 1;
      var before := Run(s, events[..n]);
      StepCounts(before, events[n], name);
      if name in before.pings {
        FireCountIsTally(s, events[..n], name);
      }
    }
  }

  // ---- names ----

  /** Only creating and deleting change which names there are, so the actor publishes after no other command. */
  lemma NamesChange(s: State, e: Event)
    ensures Step(s, e).0.pings.Keys ==
            match e.cmd
            case Create(name, template, _, _) =>
              if ValidName(AsciiLower(name)) && ValidTemplate(template) then s.pings.Keys + {AsciiLower(name)} else s.pings.Keys
            case Delete(name) => s.pings.Keys - {name}
            case _ => s.pings.Keys
  {
  }
}
