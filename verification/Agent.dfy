/**
The tool-calling loop and the messages it puts on the wire. The model's answers
and the tools' results come from the environment.
*/
module Agent {
  import opened Text

  datatype Role = System | User | Assistant | ToolRole

  datatype Message = Message(role: Role, content: string)

  /** `arguments` is the call's JSON value, as text. */
  datatype ToolCall = ToolCall(id: string, name: string, arguments: string)

  datatype ToolResult = ToolResult(callId: string, toolName: string, content: string)

  datatype Round = Round(calls: seq<ToolCall>, results: seq<ToolResult>, reasoning: Option<string>)

  datatype Request = Request(messages: seq<Message>, priorRounds: seq<Round>)

  /** What becomes of one request: an answer, an error, or no answer in time. */
  datatype Answer = Reply(text: string) | Calls(calls: seq<ToolCall>, reasoning: Option<string>) | Failed(error: string) | TimedOut

  datatype Outcome = Text(text: string) | MaxRoundsExceeded | Timeout(round: nat) | Error(error: string)

  // ---- the loop ----

  /** The results of the calls of a round; the executor is given the round and the place of the call in it. */
  function Executed(exec: (nat, nat, ToolCall) -> ToolResult, round: nat, calls: seq<ToolCall>): (r: seq<ToolResult>)
    ensures |r| == |calls|
  {
    seq(|calls|, i requires 0 <= i < |calls| => exec(round, i, calls[i]))
  }

  /** The request after another round. */
  function Extended(exec: (nat, nat, ToolCall) -> ToolResult, round: nat, request: Request, a: Answer): Request
    requires a.Calls?
  {
    request.(priorRounds := request.priorRounds + [Round(a.calls, Executed(exec, round, a.calls), a.reasoning)])
  }

  /** From round `round` on: the outcome, and the requests sent. */
  function Agent(answers: nat -> Answer, exec: (nat, nat, ToolCall) -> ToolResult, max: nat, round: nat, request: Request)
    : (Outcome, seq<Request>)
    decreases max - round
  {
    if round >= max then (MaxRoundsExceeded, [])
    else
      match answers(round)
      case Reply(text) => (Text(text), [request])
      case Failed(e) => (Error(e), [request])
      case TimedOut => (Timeout(round), [request])
      case Calls(_, _) =>
        var (outcome, sent) := Agent(answers, exec, max, round + 1, Extended(exec, round, request, answers(round)));
        (outcome, [request] + sent)
  }

  method ExecuteAll(exec: (nat, nat, ToolCall) -> ToolResult, round: nat, calls: seq<ToolCall>) returns (results: seq<ToolResult>)
    ensures results == Executed(exec, round, calls)
  {
    results := [];
    for i := 0 to |calls|
      invariant results == Executed(exec, round, calls)[..i]
    {
      results := results + [exec(round, i, calls[i])];
    }
  }

  lemma SentNow(before: seq<Request>, request: Request, later: seq<Request>)
    ensures before + ([request] + later) == (before + [request]) + later
  {
  }

  method RunAgent(answers: nat -> Answer, exec: (nat, nat, ToolCall) -> ToolResult, max: nat, start: Request)
    returns (outcome: Outcome, sent: seq<Request>)
    ensures (outcome, sent) == Agent(answers, exec, max, 0, start)
  {
    var request := start;
    sent := [];
    ghost var goal := Agent(answers, exec, max, 0, start);
    for round := 0 to max
      invariant goal.0 == Agent(answers, exec, max, round, request).0
      invariant goal.1 == sent + Agent(answers, exec, max, round, request).1
    {
      sent := sent + [request];
      match answers(round) {
        case Failed(e) => return Error(e), sent;
        case TimedOut => return Timeout(round), sent;
        case Reply(text) => return Text(text), sent;
        case Calls(calls, reasoning) =>
          var results := ExecuteAll(exec, round, calls);
          ghost var later := Agent(answers, exec, max, round + 1, Extended(exec, round, request, answers(round))).1;
          SentNow(sent[..|sent| - 1], request, later);
          request := request.(priorRounds := request.priorRounds + [Round(calls, results, reasoning)]);
      }
    }
    outcome := MaxRoundsExceeded;
    assert sent + [] == sent;
  }

  // ---- the wire ----

  datatype WireCall = WireCall(id: string, name: string, arguments: string)

  datatype Wire =
    | Plain(role: Role, content: string)
    | AssistantCalls(calls: seq<WireCall>, reasoning: Option<string>)
    | ToolAnswer(callId: string, content: string)

  function WireCalls(calls: seq<ToolCall>): seq<WireCall> {
    seq(|calls|, i requires 0 <= i < |calls| => WireCall(calls[i].id, calls[i].name, calls[i].arguments))
  }

  function WireResults(results: seq<ToolResult>): seq<Wire> {
    seq(|results|, i requires 0 <= i < |results| => ToolAnswer(results[i].callId, results[i].content))
  }

  function WireRound(r: Round): seq<Wire> {
    [AssistantCalls(WireCalls(r.calls), r.reasoning)] + WireResults(r.results)
  }

  function WireMessages(messages: seq<Message>): seq<Wire> {
    seq(|messages|, i requires 0 <= i < |messages| => Plain(messages[i].role, messages[i].content))
  }

  function WireRounds(rounds: seq<Round>): seq<Wire> {
    if rounds == [] then [] else WireRounds(rounds[..|rounds| - 1]) + WireRound(rounds[|rounds| - 1])
  }

  function OnWire(r: Request): seq<Wire> {
    WireMessages(r.messages) + WireRounds(r.priorRounds)
  }

  method BuildOpenAiMessages(messages: seq<Message>, priorRounds: seq<Round>) returns (wire: seq<Wire>)
    ensures wire == OnWire(Request(messages, priorRounds))
  {
    wire := WireMessages(messages);
    for k := 0 to |priorRounds|
      invariant wire == WireMessages(messages) + WireRounds(priorRounds[..k])
    {
      var round := priorRounds[k];
      ghost var before := wire;
      wire := wire + [AssistantCalls(WireCalls(round.calls), round.reasoning)];
      for i := 0 to |round.results|
        invariant wire == before + [AssistantCalls(WireCalls(round.calls), round.reasoning)] + WireResults(round.results)[..i]
      {
        wire := wire + [ToolAnswer(round.results[i].callId, round.results[i].content)];
      }
      assert priorRounds[..k + 1][..k] == priorRounds[..k];
      assert wire == before + WireRound(round);
    }
    assert priorRounds[..|priorRounds|] == priorRounds;
  }

  // ---- what every run does ----

  /** The executor labels each result with its call. */
  ghost predicate Mirrors(exec: (nat, nat, ToolCall) -> ToolResult) {
    forall round: nat, i: nat, c: ToolCall :: exec(round, i, c).callId == c.id
  }

  ghost predicate Paired(r: Round) {
    |r.results| == |r.calls| && forall i :: 0 <= i < |r.calls| ==> r.results[i].callId == r.calls[i].id
  }

  ghost predicate AllPaired(rounds: seq<Round>) {
    forall k :: 0 <= k < |rounds| ==> Paired(rounds[k])
  }

  /** Sent requests keep the messages and gain one round each. */
  ghost predicate Grows(sent: seq<Request>) {
    forall i :: 0 <= i < |sent| - 1 ==> Continues(sent[i], sent[i + 1])
  }

  predicate Continues(a: Request, b: Request) {
    b.messages == a.messages && |b.priorRounds| == |a.priorRounds| + 1 && a.priorRounds <= b.priorRounds
  }

  /** How a run ends: with the answer to its last request, unless it runs out of rounds. */
  ghost predicate EndsWith(outcome: Outcome, round: nat, a: Answer) {
    match a
    case Reply(text) => outcome == Text(text)
    case Failed(e) => outcome == Error(e)
    case TimedOut => outcome == Timeout(round)
    case Calls(_, _) => outcome == MaxRoundsExceeded
  }

  /**
  A run makes at most so many calls to the model, one in each round. All answers but
  the last are tool calls, the last one decides, and it is a tool call itself only if
  that was the last round.
  */
  lemma {:induction false} RunIsBounded(answers: nat -> Answer, exec: (nat, nat, ToolCall) -> ToolResult,
                                        max: nat, round: nat, request: Request)
    requires round < max
    ensures var (outcome, sent) := Agent(answers, exec, max, round, request);
            && 1 <= |sent| <= max - round
            && (forall k: nat :: round <= k < round + |sent| - 1 ==> answers(k).Calls?)
            && EndsWith(outcome, round + |sent| - 1, answers(round + |sent| - 1))
            && (outcome.MaxRoundsExceeded? ==> |sent| == max - round)
    decreases max - round
  {
    if !answers(round).Calls? || round + 1 >= max {
    } else {
      RunIsBounded(answers, exec, max, round + 1, Extended(exec, round, request, answers(round)));
    }
  }

  /** Every request continues the one before. */
  lemma {:induction false} RunGrows(answers: nat -> Answer, exec: (nat, nat, ToolCall) -> ToolResult,
                                    max: nat, round: nat, request: Request)
    ensures var sent := Agent(answers, exec, max, round, request).1;
            Grows(sent) && (sent != [] ==> sent[0] == request)
    decreases max - round
  {
    if round >= max || !answers(round).Calls? {
    } else {
      var next := Extended(exec, round, request, answers(round));
      RunGrows(answers, exec, max, round + 1, next);
      GrowsInFront(request, Agent(answers, exec, max, round + 1, next).1);
    }
  }

  lemma GrowsInFront(request: Request, later: seq<Request>)
    requires Grows(later)
    requires later != [] ==> Continues(request, later[0])
    ensures Grows([request] + later)
  {
    var sent := [request] + later;
    forall i | 0 <= i < |sent| - 1 ensures Continues(sent[i], sent[i + 1]) {
      if i > 0 {
        assert Continues(later[i - 1], later[i]);
      }
    }
  }

  /** The rounds that a run records pair every call with its result. */
  lemma {:induction false} RunIsPaired(answers: nat -> Answer, exec: (nat, nat, ToolCall) -> ToolResult,
                                       max: nat, round: nat, request: Request)
    requires Mirrors(exec) && AllPaired(request.priorRounds)
    ensures forall r :: r in Agent(answers, exec, max, round, request).1 ==> AllPaired(r.priorRounds)
    decreases max - round
  {
    if round >= max || !answers(round).Calls? {
    } else {
      var next := Extended(exec, round, request, answers(round));
      RunIsPaired(answers, exec, max, round + 1, next);
    }
  }

  /** The round as the model asked for it and the tools answered it. */
  ghost predicate Records(exec: (nat, nat, ToolCall) -> ToolResult, round: nat, a: Answer, r: Round) {
    && a.Calls? && r.calls == a.calls && r.reasoning == a.reasoning && |r.results| == |r.calls|
    && forall i :: 0 <= i < |r.calls| ==> r.results[i] == exec(round, i, r.calls[i])
  }

  /** From place `n` on, the rounds are those of the answers from `round` on. */
  ghost predicate RecordsAt(answers: nat -> Answer, exec: (nat, nat, ToolCall) -> ToolResult, round: nat,
                            rounds: seq<Round>, n: nat, k: nat)
    requires n + k < |rounds|
  {
    Records(exec, round + k, answers(round + k), rounds[n + k])
  }

  /** Each request carries the rounds before it, every call of every answer with its result. */
  lemma {:induction false} RoundsAreRecorded(answers: nat -> Answer, exec: (nat, nat, ToolCall) -> ToolResult,
                                             max: nat, round: nat, request: Request, i: nat)
    requires i < |Agent(answers, exec, max, round, request).1|
    ensures var r := Agent(answers, exec, max, round, request).1[i]; var n := |request.priorRounds|;
            && r.messages == request.messages && |r.priorRounds| == n + i && r.priorRounds[..n] == request.priorRounds
            && forall k: nat :: k < i ==> RecordsAt(answers, exec, round, r.priorRounds, n, k)
    decreases max - round
  {
    if i == 0 {
    } else {
      var next := Extended(exec, round, request, answers(round));
      RoundsAreRecorded(answers, exec, max, round + 1, next, i - 1);
      var r := Agent(answers, exec, max, round + 1, next).1[i - 1];
      var n := |request.priorRounds|;
      assert r.priorRounds[n] == r.priorRounds[..n + 1][n] == next.priorRounds[n];
      assert r.priorRounds[..n] == r.priorRounds[..n + 1][..n];
      forall k: nat | k < i ensures RecordsAt(answers, exec, round, r.priorRounds, n, k) {
        assert k > 0 ==> RecordsAt(answers, exec, round + 1, r.priorRounds, n + 1, k - 1);
      }
    }
  }

  /** Each request's messages on the wire are a proper prefix of the next one's. */
  lemma WireGrows(answers: nat -> Answer, exec: (nat, nat, ToolCall) -> ToolResult, max: nat, request: Request, i: nat)
    requires i + 1 < |Agent(answers, exec, max, 0, request).1|
    ensures var sent := Agent(answers, exec, max, 0, request).1; OnWire(sent[i]) < OnWire(sent[i + 1])
  {
    RunGrows(answers, exec, max, 0, request);
    var sent := Agent(answers, exec, max, 0, request).1;
    var a, b := sent[i], sent[i + 1];
    assert Continues(a, b);
    assert b.priorRounds[..|b.priorRounds| - 1] == a.priorRounds;
    assert OnWire(b) == OnWire(a) + WireRound(b.priorRounds[|b.priorRounds| - 1]);
  }

  // ---- the wire can be read back ----

  /** Takes a wire apart into rounds, each an assistant message followed by one answer per call, in order. */
  function ReadRounds(wire: seq<Wire>): Option<seq<Round>>
    decreases |wire|
  {
    if wire == [] then Some([])
    else if !wire[0].AssistantCalls? || |wire| <= |wire[0].calls| then None
    else
      var k := |wire[0].calls|;
      match (ReadRound(wire[0], wire[1..k + 1]), ReadRounds(wire[k + 1..]))
      case (Some(r), Some(rest)) => Some([r] + rest)
      case _ => None
  }

  /** One round; the answers must name the calls they belong to. The wire does not carry the tools' names for them. */
  function ReadRound(head: Wire, answers: seq<Wire>): Option<Round>
    requires head.AssistantCalls? && |answers| == |head.calls|
  {
    if forall i :: 0 <= i < |answers| ==> answers[i].ToolAnswer? && answers[i].callId == head.calls[i].id then
      Some(Round(seq(|head.calls|, i requires 0 <= i < |head.calls| =>
                   ToolCall(head.calls[i].id, head.calls[i].name, head.calls[i].arguments)),
                 seq(|answers|, i requires 0 <= i < |answers| && answers[i].ToolAnswer? =>
                   ToolResult(answers[i].callId, "", answers[i].content)),
                 head.reasoning))
    else None
  }

  function Unnamed(r: Round): Round {
    r.(results := seq(|r.results|, i requires 0 <= i < |r.results| => r.results[i].(toolName := "")))
  }

  function AllUnnamed(rounds: seq<Round>): seq<Round> {
    seq(|rounds|, k requires 0 <= k < |rounds| => Unnamed(rounds[k]))
  }

  lemma RoundReadsBack(r: Round)
    requires Paired(r)
    ensures ReadRound(WireRound(r)[0], WireRound(r)[1..]) == Some(Unnamed(r))
  {
    var head, answers := WireRound(r)[0], WireRound(r)[1..];
    assert answers == WireResults(r.results);
    var back := ReadRound(head, answers).value;
    assert back.calls == r.calls;
    assert back.results == Unnamed(r).results;
  }

  /** Rounds written one by one from the front are those written from the back. */
  lemma {:induction false} WireRoundsFront(rounds: seq<Round>)
    requires rounds != []
    ensures WireRounds(rounds) == WireRound(rounds[0]) + WireRounds(rounds[1..])
  {
    var n := |rounds| - 1;
    if n > 0 {
      WireRoundsFront(rounds[..n]);
      assert rounds[..n][1..] == rounds[1..][..n - 1];
      assert WireRounds(rounds[1..]) == WireRounds(rounds[1..][..n - 1]) + WireRound(rounds[n]);
    } else {
      assert rounds[..0] == [] && rounds[1..] == [];
    }
  }

  /** What the encoder adds for the rounds reads back to the same rounds: every call is answered once, at once, and in order. */
  lemma {:induction false} WireReadsBack(rounds: seq<Round>)
    requires AllPaired(rounds)
    ensures ReadRounds(WireRounds(rounds)) == Some(AllUnnamed(rounds))
  {
    if rounds == [] {
      assert AllUnnamed(rounds) == [];
    } else {
      var first, rest := rounds[0], rounds[1..];
      var w := WireRounds(rounds);
      WireRoundsFront(rounds);
      assert Paired(first);
      RoundReadsBack(first);
      forall k | 0 <= k < |rest| ensures Paired(rest[k]) {
        assert rest[k] == rounds[k + 1];
      }
      WireReadsBack(rest);
      var k := |first.calls|;
      assert |WireRound(first)| == k + 1 && w[0] == WireRound(first)[0];
      assert w[1..k + 1] == WireRound(first)[1..] && w[k + 1..] == WireRounds(rest);
      assert AllUnnamed(rounds) == [Unnamed(first)] + AllUnnamed(rest);
    }
  }

  /** Takes a whole wire apart: plain messages first, then rounds. */
  function ReadRequest(wire: seq<Wire>): Option<Request> {
    if wire != [] && wire[0].Plain? then
      match ReadRequest(wire[1..])
      case None => None
      case Some(r) => Some(r.(messages := [Message(wire[0].role, wire[0].content)] + r.messages))
    else
      match ReadRounds(wire)
      case None => None
      case Some(rounds) => Some(Request([], rounds))
  }

  lemma {:induction false} MessagesReadBack(messages: seq<Message>, rounds: seq<Round>)
    requires AllPaired(rounds)
    ensures ReadRequest(WireMessages(messages) + WireRounds(rounds)) == Some(Request(messages, AllUnnamed(rounds)))
  {
    var wire := WireMessages(messages) + WireRounds(rounds);
    if messages == [] {
      assert wire == WireRounds(rounds);
      WireReadsBack(rounds);
      if rounds != [] {
        WireRoundsFront(rounds);
      }
    } else {
      assert wire[0] == Plain(messages[0].role, messages[0].content);
      assert wire[1..] == WireMessages(messages[1..]) + WireRounds(rounds);
      MessagesReadBack(messages[1..], rounds);
      assert [messages[0]] + messages[1..] == messages;
    }
  }

  /** So in every run, each request can be read back from its wire, its messages and its rounds. */
  lemma EveryRequestReadsBack(answers: nat -> Answer, exec: (nat, nat, ToolCall) -> ToolResult,
                              max: nat, request: Request, i: nat)
    requires Mirrors(exec) && AllPaired(request.priorRounds)
    requires i < |Agent(answers, exec, max, 0, request).1|
    ensures var r := Agent(answers, exec, max, 0, request).1[i];
            && r.messages == request.messages
            && ReadRequest(OnWire(r)) == Some(Request(r.messages, AllUnnamed(r.priorRounds)))
  {
    RunIsPaired(answers, exec, max, 0, request);
    RoundsAreRecorded(answers, exec, max, 0, request, i);
    var r := Agent(answers, exec, max, 0, request).1[i];
    MessagesReadBack(r.messages, r.priorRounds);
  }
}
