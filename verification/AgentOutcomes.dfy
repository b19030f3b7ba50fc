/** How a run of the agent loop ends and what it leaves behind, told by the replies of the model alone.
    Nothing here refers to the loop's own recursion: the trace of a run is the concatenation of what each
    reply contributes, and the last reply, or the lack of one, decides the status. */
module AgentOutcomes {
  import opened Options
  import opened AgentLoop

  /** What a reply leads to: every call is executed and the loop goes on, or the run ends. */
  datatype Effect = GoesOn | Answered | ChatBroke | UnknownTool | GatewayBroke | Gated(gate: string)

  /** How many calls are executed before one is not: an unknown tool, or one above the ceiling. */
  function Leading(cfg: Config, calls: seq<ToolCall>): (k: nat)
    ensures k <= |calls| && forall i :: 0 <= i < k ==> Executable(cfg, calls[i].name)
    ensures k < |calls| ==> !Executable(cfg, calls[k].name)
  {
    if calls == [] || !Executable(cfg, calls[0].name) then 0
    else
      var rest := Leading(cfg, calls[1..]);
      assert forall i :: 0 < i < |calls| ==> calls[i] == calls[1..][i - 1];
      1 + rest
  }

  function CallsEffect(cfg: Config, env: Env, calls: seq<ToolCall>): Effect {
    var k := Leading(cfg, calls);
    if k == |calls| then GoesOn
    else if calls[k].name !in cfg.tiers then UnknownTool
    else
      match env.openGate(calls[k])
      case None => GatewayBroke
      case Some(gate) => Gated(gate)
  }

  function EffectOf(cfg: Config, env: Env, reply: Reply): Effect {
    match reply
    case ChatFailed => ChatBroke
    case Message(_, calls) => if calls == [] then Answered else CallsEffect(cfg, env, calls)
  }

  // ---------- what a reply contributes ----------

  function Results(calls: seq<ToolCall>): seq<HistoryEntry> {
    seq(|calls|, i requires 0 <= i < |calls| => ToolResult(calls[i].id))
  }

  function Executions(cfg: Config, calls: seq<ToolCall>): seq<Event>
    requires forall i :: 0 <= i < |calls| ==> Executable(cfg, calls[i].name)
  {
    seq(|calls|, i requires 0 <= i < |calls| && Executable(cfg, calls[i].name) =>
          ToolRun(calls[i].name, cfg.tiers[calls[i].name]))
  }

  /** Each execution is recorded as a call and a result. */
  function Pairs(k: nat): seq<StepKind> {
    seq(2 * k, i requires 0 <= i < 2 * k => if i % 2 == 0 then ToolCallStep else ToolResultStep)
  }

  function LastKinds(e: Effect): seq<StepKind> {
    match e
    case GoesOn => []
    case Answered | ChatBroke | UnknownTool => [Final]
    case GatewayBroke => [ToolCallStep, Final]
    case Gated(_) => [ToolCallStep, GateRequested]
  }

  function CallsEvents(cfg: Config, env: Env, calls: seq<ToolCall>): seq<Event> {
    var k := Leading(cfg, calls);
    Executions(cfg, calls[..k]) + if CallsEffect(cfg, env, calls).Gated? then [GateOpened(calls[k].name)] else []
  }

  function EntriesOf(cfg: Config, reply: Reply): seq<HistoryEntry> {
    match reply
    case ChatFailed => []
    case Message(content, calls) => [Assistant(content)] + Results(calls[..Leading(cfg, calls)])
  }

  function EventsOf(cfg: Config, env: Env, reply: Reply): seq<Event> {
    [ChatCall] + if reply.ChatFailed? then [] else CallsEvents(cfg, env, reply.toolCalls)
  }

  function KindsOf(cfg: Config, env: Env, reply: Reply): seq<StepKind> {
    (if reply.ChatFailed? then [] else Pairs(Leading(cfg, reply.toolCalls))) + LastKinds(EffectOf(cfg, env, reply))
  }

  /** The contributions of replies `n` to `c - 1`, in order. */
  function History(cfg: Config, env: Env, n: nat, c: nat): seq<HistoryEntry>
    decreases c - n
  {
    if n >= c then [] else EntriesOf(cfg, env.chat(n)) + History(cfg, env, n + 1, c)
  }

  function Events(cfg: Config, env: Env, n: nat, c: nat): seq<Event>
    decreases c - n
  {
    if n >= c then [] else EventsOf(cfg, env, env.chat(n)) + Events(cfg, env, n + 1, c)
  }

  function Kinds(cfg: Config, env: Env, n: nat, c: nat): seq<StepKind>
    decreases c - n
  {
    if n >= c then [] else KindsOf(cfg, env, env.chat(n)) + Kinds(cfg, env, n + 1, c)
  }

  /** The step counter after replies `n` to `c - 1`, all of whose calls were executed. */
  function StepAfter(env: Env, step: int, n: nat, c: nat): int
    decreases c - n
  {
    if n >= c || env.chat(n).ChatFailed? then step
    else StepAfter(env, step + 2 * |env.chat(n).toolCalls|, n + 1, c)
  }

  function RecordedKinds(steps: seq<Step>): seq<StepKind> {
    seq(|steps|, i requires 0 <= i < |steps| => steps[i].kind)
  }

  // ---------- one reply's calls ----------

  lemma LeadingIs(cfg: Config, calls: seq<ToolCall>, k: nat)
    requires k <= |calls| && forall i :: 0 <= i < k ==> Executable(cfg, calls[i].name)
    requires k < |calls| ==> !Executable(cfg, calls[k].name)
    ensures Leading(cfg, calls) == k
  {
    var l := Leading(cfg, calls);
    assert l == |calls| || !Executable(cfg, calls[l].name);
  }

  predicate IsAfterCalls(cfg: Config, env: Env, r: Run, calls: seq<ToolCall>, done: Run) {
    var k, e := Leading(cfg, calls), CallsEffect(cfg, env, calls);
    && done.history == r.history + Results(calls[..k])
    && done.events == r.events + CallsEvents(cfg, env, calls)
    && RecordedKinds(done.steps) == RecordedKinds(r.steps) + Pairs(k) + LastKinds(e)
    && done.gateId == (if e.Gated? then e.gate else r.gateId)
    && done.status == (if e.GoesOn? then Running else if e.Gated? then AwaitingGate else Failed)
    && (e.GoesOn? ==> done.step == r.step + 2 * |calls|)
  }

  lemma RecordedSnoc(steps: seq<Step>, s: Step)
    ensures RecordedKinds(steps + [s]) == RecordedKinds(steps) + [s.kind]
  {
  }

  lemma OneMoreRun(cfg: Config, env: Env, front: seq<ToolCall>, tc: ToolCall)
    requires Leading(cfg, front) == |front| && Executable(cfg, tc.name)
    ensures var calls := front + [tc];
            && Leading(cfg, calls) == |calls| && CallsEffect(cfg, env, calls) == GoesOn
            && calls[..|calls|] == calls && front[..|front|] == front
            && Results(calls) == Results(front) + [ToolResult(tc.id)]
            && CallsEvents(cfg, env, calls)
               == CallsEvents(cfg, env, front) + [ToolRun(tc.name, cfg.tiers[tc.name])]
            && Pairs(|calls|) == Pairs(|front|) + [ToolCallStep, ToolResultStep]
  {
    var calls := front + [tc];
    LeadingIs(cfg, calls, |calls|);
    assert calls[..|calls|] == calls && front[..|front|] == front;
    assert Executions(cfg, calls) == Executions(cfg, front) + [ToolRun(tc.name, cfg.tiers[tc.name])];
  }

  lemma Stopped(cfg: Config, env: Env, front: seq<ToolCall>, rest: seq<ToolCall>)
    requires Leading(cfg, front) < |front|
    ensures var k := Leading(cfg, front);
            && Leading(cfg, front + rest) == k && (front + rest)[..k] == front[..k] && (front + rest)[k] == front[k]
            && CallsEffect(cfg, env, front + rest) == CallsEffect(cfg, env, front)
            && CallsEvents(cfg, env, front + rest) == CallsEvents(cfg, env, front)
  {
    LeadingIs(cfg, front + rest, Leading(cfg, front));
  }

  lemma StopsHere(cfg: Config, env: Env, front: seq<ToolCall>, tc: ToolCall)
    requires Leading(cfg, front) == |front| && !Executable(cfg, tc.name)
    ensures var calls := front + [tc];
            && Leading(cfg, calls) == |front| && calls[..|front|] == front && front[..|front|] == front
            && calls[|front|] == tc && !CallsEffect(cfg, env, calls).GoesOn?
            && CallsEvents(cfg, env, calls) == CallsEvents(cfg, env, front)
               + if CallsEffect(cfg, env, calls).Gated? then [GateOpened(tc.name)] else []
  {
    LeadingIs(cfg, front + [tc], |front|);
    assert (front + [tc])[..|front|] == front && front[..|front|] == front;
  }

  lemma Joined<T>(a: seq<T>, b: seq<T>, c: seq<T>)
    ensures a + b + c == a + (b + c)
  {
  }

  lemma LastCallRuns(cfg: Config, env: Env, r: Run, front: seq<ToolCall>, before: Run, tc: ToolCall)
    requires IsAfterCalls(cfg, env, r, front, before) && Leading(cfg, front) == |front| && Executable(cfg, tc.name)
    ensures IsAfterCalls(cfg, env, r, front + [tc], DoCall(cfg, env, before, tc))
  {
    OneMoreRun(cfg, env, front, tc);
    hide Leading, CallsEvents, Results, RecordedKinds, Pairs;
    var called, result := Step(before.step, ToolCallStep, ""), Step(before.step + 1, ToolResultStep, "");
    RecordedSnoc(before.steps, called);
    RecordedSnoc(before.steps + [called], result);
    var done := DoCall(cfg, env, before, tc);
    assert done.steps == before.steps + [called] + [result];
    hide DoCall;
    Joined(r.history, Results(front), [ToolResult(tc.id)]);
    Joined(r.events, CallsEvents(cfg, env, front), [ToolRun(tc.name, cfg.tiers[tc.name])]);
    Joined(RecordedKinds(r.steps), Pairs(|front|), [ToolCallStep, ToolResultStep]);
    assert RecordedKinds(done.steps) == RecordedKinds(before.steps) + [ToolCallStep, ToolResultStep];
  }

  /** What a call that is not executed adds. */
  lemma StoppingCall(cfg: Config, env: Env, before: Run, front: seq<ToolCall>, tc: ToolCall)
    requires before.status == Running && Leading(cfg, front) == |front| && !Executable(cfg, tc.name)
    ensures var done, e := DoCall(cfg, env, before, tc), CallsEffect(cfg, env, front + [tc]);
            && done.history == before.history
            && done.events == before.events + (if e.Gated? then [GateOpened(tc.name)] else [])
            && RecordedKinds(done.steps) == RecordedKinds(before.steps) + LastKinds(e)
            && done.gateId == (if e.Gated? then e.gate else before.gateId)
            && done.status == (if e.Gated? then AwaitingGate else Failed) && !e.GoesOn?
  {
    StopsHere(cfg, env, front, tc);
    hide Leading, CallsEvents, RecordedKinds;
    var called := Step(before.step, ToolCallStep, "");
    RecordedSnoc(before.steps, called);
    if tc.name !in cfg.tiers {
      RecordedSnoc(before.steps, Step(before.step, Final, ""));
    } else if env.openGate(tc).None? {
      RecordedSnoc(before.steps + [called], Step(before.step + 1, Final, ""));
      Joined(RecordedKinds(before.steps), [ToolCallStep], [Final]);
    } else {
      RecordedSnoc(before.steps + [called], Step(before.step + 1, GateRequested, env.openGate(tc).value));
      Joined(RecordedKinds(before.steps), [ToolCallStep], [GateRequested]);
    }
  }

  lemma LastCallStops(cfg: Config, env: Env, r: Run, front: seq<ToolCall>, before: Run, tc: ToolCall)
    requires IsAfterCalls(cfg, env, r, front, before) && Leading(cfg, front) == |front| && !Executable(cfg, tc.name)
    ensures IsAfterCalls(cfg, env, r, front + [tc], DoCall(cfg, env, before, tc))
  {
    StoppingCall(cfg, env, before, front, tc);
    StopsHere(cfg, env, front, tc);
    hide Leading, CallsEvents, Results, RecordedKinds, Pairs, DoCall, LastKinds;
    var e := CallsEffect(cfg, env, front + [tc]);
    Joined(r.events, CallsEvents(cfg, env, front), if e.Gated? then [GateOpened(tc.name)] else []);
    assert LastKinds(GoesOn) == [] by {
      NothingLast();
    }
    assert RecordedKinds(before.steps) == RecordedKinds(r.steps) + Pairs(|front|);
  }

  lemma NothingLast()
    ensures LastKinds(GoesOn) == []
  {
  }

  lemma NoCalls(cfg: Config, env: Env, r: Run)
    ensures r.status == Running ==> IsAfterCalls(cfg, env, r, [], r)
  {
  }

  /** The calls of one reply: the leading ones are executed in order, and the first other one ends the run. */
  lemma {:induction false} CallsTrace(cfg: Config, env: Env, r: Run, calls: seq<ToolCall>)
    requires r.status == Running
    ensures IsAfterCalls(cfg, env, r, calls, DoCalls(cfg, env, r, calls))
  {
    if calls == [] {
      NoCalls(cfg, env, r);
    } else {
      var m := |calls| - 1;
      var front, tc := calls[..m], calls[m];
      assert calls == front + [tc];
      CallsTrace(cfg, env, r, front);
      var before := DoCalls(cfg, env, r, front);
      hide DoCall;
      if Leading(cfg, front) < |front| {
        Stopped(cfg, env, front, [tc]);
      } else if Executable(cfg, tc.name) {
        LastCallRuns(cfg, env, r, front, before, tc);
      } else {
        LastCallStops(cfg, env, r, front, before, tc);
      }
    }
  }

  // ---------- whole runs ----------

  /** Replies `n` to `c - 1` were asked for: the counter was below the cap and the context not done each
      time, and every reply but the last had all its calls executed. */
  predicate Asked(cfg: Config, env: Env, step: int, n: nat, c: nat) {
    forall j: nat :: n <= j < c ==>
      && StepAfter(env, step, n, j) < cfg.maxSteps && !env.cancelled(j)
      && (j + 1 < c ==> EffectOf(cfg, env, env.chat(j)) == GoesOn)
  }

  /** The run ended without asking again: the counter is at the cap or the context is done. */
  predicate GaveUp(cfg: Config, env: Env, step: int, n: nat, c: nat) {
    && (c > n ==> EffectOf(cfg, env, env.chat(c - 1)) == GoesOn)
    && (StepAfter(env, step, n, c) >= cfg.maxSteps || env.cancelled(c))
  }

  predicate IsTrace(cfg: Config, env: Env, r: Run, n: nat, c: nat, out: Run) {
    && c >= n && Asked(cfg, env, r.step, n, c)
    && out.history == r.history + History(cfg, env, n, c)
    && out.events == r.events + Events(cfg, env, n, c)
    && (GaveUp(cfg, env, r.step, n, c) || (c > n && EffectOf(cfg, env, env.chat(c - 1)) != GoesOn))
    && RecordedKinds(out.steps) == RecordedKinds(r.steps) + Kinds(cfg, env, n, c)
                                   + (if GaveUp(cfg, env, r.step, n, c) then [Final] else [])
    && (if GaveUp(cfg, env, r.step, n, c) then out.status == Failed && out.gateId == r.gateId
        else
          var e := EffectOf(cfg, env, env.chat(c - 1));
          && out.status == (if e.Answered? then Completed else if e.Gated? then AwaitingGate else Failed)
          && out.gateId == (if e.Gated? then e.gate else r.gateId))
  }

  lemma GivesUpAtOnce(cfg: Config, env: Env, r: Run, n: nat)
    requires r.status == Running && (r.step >= cfg.maxSteps || env.cancelled(n))
    ensures IsTrace(cfg, env, r, n, n, Iterate(cfg, env, r, n))
  {
    RecordedSnoc(r.steps, Step(r.step, Final, ""));
  }

  lemma OneReply(cfg: Config, env: Env, n: nat)
    ensures History(cfg, env, n, n + 1) == EntriesOf(cfg, env.chat(n))
    ensures Events(cfg, env, n, n + 1) == EventsOf(cfg, env, env.chat(n))
    ensures Kinds(cfg, env, n, n + 1) == KindsOf(cfg, env, env.chat(n))
  {
    hide EntriesOf, EventsOf, KindsOf;
    assert History(cfg, env, n + 1, n + 1) == [] && Events(cfg, env, n + 1, n + 1) == [];
    assert Kinds(cfg, env, n + 1, n + 1) == [];
  }

  lemma NothingExecuted(cfg: Config)
    ensures Leading(cfg, []) == 0 && Results([]) == [] && Executions(cfg, []) == [] && Pairs(0) == []
  {
  }

  lemma EndsWithoutCalls(cfg: Config, env: Env, r: Run, n: nat)
    requires r.status == Running && r.step < cfg.maxSteps && !env.cancelled(n)
    requires env.chat(n).ChatFailed? || env.chat(n).toolCalls == []
    ensures IsTrace(cfg, env, r, n, n + 1, Iterate(cfg, env, r, n))
  {
    OneReply(cfg, env, n);
    NothingExecuted(cfg);
    RecordedSnoc(r.steps, Step(r.step, Final, ""));
    hide History, Events, Kinds, RecordedKinds, Results, Executions, Pairs, Leading;
    if env.chat(n).Message? {
      assert env.chat(n).toolCalls[..0] == [];
    }
  }

  /** A reply with calls, the last of the run or not: what it adds to the fields of the run. */
  lemma ReplyTrace(cfg: Config, env: Env, r: Run, n: nat)
    requires r.status == Running && env.chat(n).Message? && env.chat(n).toolCalls != []
    ensures var reply := env.chat(n); var e := EffectOf(cfg, env, reply);
            var done := DoCalls(cfg, env, Chatted(r, [Assistant(reply.content)]), reply.toolCalls);
            && done.history == r.history + EntriesOf(cfg, reply)
            && done.events == r.events + EventsOf(cfg, env, reply)
            && RecordedKinds(done.steps) == RecordedKinds(r.steps) + KindsOf(cfg, env, reply)
            && done.gateId == (if e.Gated? then e.gate else r.gateId)
            && done.status == (if e.GoesOn? then Running else if e.Gated? then AwaitingGate else Failed)
            && !e.Answered? && (e.GoesOn? ==> done.step == r.step + 2 * |reply.toolCalls|)
  {
    var reply := env.chat(n);
    var calls := reply.toolCalls;
    CallsTrace(cfg, env, Chatted(r, [Assistant(reply.content)]), calls);
    hide DoCalls, CallsEvents, Results, Leading, RecordedKinds, Pairs, LastKinds;
    Joined(r.history, [Assistant(reply.content)], Results(calls[..Leading(cfg, calls)]));
    Joined(r.events, [ChatCall], CallsEvents(cfg, env, calls));
    Joined(RecordedKinds(r.steps), Pairs(Leading(cfg, calls)), LastKinds(EffectOf(cfg, env, reply)));
  }

  lemma EndsWithCall(cfg: Config, env: Env, r: Run, n: nat)
    requires r.status == Running && r.step < cfg.maxSteps && !env.cancelled(n)
    requires env.chat(n).Message? && env.chat(n).toolCalls != [] && !EffectOf(cfg, env, env.chat(n)).GoesOn?
    ensures IsTrace(cfg, env, r, n, n + 1, Iterate(cfg, env, r, n))
  {
    OneReply(cfg, env, n);
    ReplyTrace(cfg, env, r, n);
    hide History, Events, Kinds, RecordedKinds, EffectOf, EntriesOf, EventsOf, KindsOf, DoCalls;
  }

  lemma StepsAlong(env: Env, step: int, n: nat, c: nat)
    requires n < c && env.chat(n).Message?
    ensures StepAfter(env, step, n, c) == StepAfter(env, step + 2 * |env.chat(n).toolCalls|, n + 1, c)
    ensures StepAfter(env, step, n, n) == step
  {
  }

  lemma AskedAlong(cfg: Config, env: Env, step: int, n: nat, c: nat)
    requires n < c && step < cfg.maxSteps && !env.cancelled(n) && EffectOf(cfg, env, env.chat(n)) == GoesOn
    requires Asked(cfg, env, step + 2 * |env.chat(n).toolCalls|, n + 1, c)
    ensures Asked(cfg, env, step, n, c)
  {
    hide EffectOf;
    assert env.chat(n).Message? by {
      GoesOnIsMessage(cfg, env, env.chat(n));
    }
    forall j: nat | n <= j < c
      ensures StepAfter(env, step, n, j) < cfg.maxSteps
    {
      if j > n {
        StepsAlong(env, step, n, j);
      }
    }
  }

  lemma GoesOnIsMessage(cfg: Config, env: Env, reply: Reply)
    requires EffectOf(cfg, env, reply) == GoesOn
    ensures reply.Message? && reply.toolCalls != []
  {
  }

  /** A reply that goes on, in front of the trace of the rest. */
  lemma TraceExtends(cfg: Config, env: Env, r: Run, n: nat, done: Run, c: nat, out: Run)
    requires EffectOf(cfg, env, env.chat(n)) == GoesOn && r.step < cfg.maxSteps && !env.cancelled(n)
    requires done.history == r.history + EntriesOf(cfg, env.chat(n)) && done.gateId == r.gateId
    requires done.events == r.events + EventsOf(cfg, env, env.chat(n))
    requires RecordedKinds(done.steps) == RecordedKinds(r.steps) + KindsOf(cfg, env, env.chat(n))
    requires env.chat(n).Message? && done.step == r.step + 2 * |env.chat(n).toolCalls|
    requires IsTrace(cfg, env, done, n + 1, c, out)
    ensures IsTrace(cfg, env, r, n, c, out)
  {
    hide RecordedKinds, EntriesOf, EventsOf, KindsOf, EffectOf, StepAfter, Asked, DoCalls, Leading;
    AskedAlong(cfg, env, r.step, n, c);
    StepsAlong(env, r.step, n, c);
    Joined(r.history, EntriesOf(cfg, env.chat(n)), History(cfg, env, n + 1, c));
    Joined(r.events, EventsOf(cfg, env, env.chat(n)), Events(cfg, env, n + 1, c));
    Joined(RecordedKinds(r.steps), KindsOf(cfg, env, env.chat(n)), Kinds(cfg, env, n + 1, c));
  }

  /** A run is the trace of the replies it asked for. */
  lemma {:induction false} RunTrace(cfg: Config, env: Env, r: Run, n: nat) returns (c: nat)
    requires r.status == Running
    ensures IsTrace(cfg, env, r, n, c, Iterate(cfg, env, r, n))
    decreases cfg.maxSteps - r.step
  {
    hide IsTrace, EffectOf, DoCalls;
    if r.step >= cfg.maxSteps || env.cancelled(n) {
      GivesUpAtOnce(cfg, env, r, n);
      c := n;
    } else if env.chat(n).ChatFailed? || env.chat(n).toolCalls == [] {
      EndsWithoutCalls(cfg, env, r, n);
      c := n + 1;
    } else if EffectOf(cfg, env, env.chat(n)).GoesOn? {
      ReplyTrace(cfg, env, r, n);
      var done := DoCalls(cfg, env, Chatted(r, [Assistant(env.chat(n).content)]), env.chat(n).toolCalls);
      c := RunTrace(cfg, env, done, n + 1);
      TraceExtends(cfg, env, r, n, done, c, Iterate(cfg, env, r, n));
    } else {
      EndsWithCall(cfg, env, r, n);
      c := n + 1;
    }
  }

  // ---------- the number of replies, and the last event ----------

  lemma {:induction false} ChatCallsJoin(a: seq<Event>, b: seq<Event>)
    ensures ChatCalls(a + b) == ChatCalls(a) + ChatCalls(b)
  {
    if b == [] {
      assert a + b == a;
    } else {
      var m := |b| - 1;
      assert (a + b)[..|a| + m] == a + b[..m];
      ChatCallsJoin(a, b[..m]);
    }
  }

  lemma {:induction false} NoChatCalls(events: seq<Event>)
    requires forall i :: 0 <= i < |events| ==> events[i] != ChatCall
    ensures ChatCalls(events) == 0
  {
    if events != [] {
      NoChatCalls(events[..|events| - 1]);
    }
  }

  lemma OneChatCall(cfg: Config, env: Env, reply: Reply)
    ensures ChatCalls(EventsOf(cfg, env, reply)) == 1
  {
    var rest := if reply.ChatFailed? then [] else CallsEvents(cfg, env, reply.toolCalls);
    ChatCallsJoin([ChatCall], rest);
    assert [ChatCall][..0] == [];
    assert ChatCalls([ChatCall]) == 1;
    NoChatCalls(rest);
  }

  lemma {:induction false} ChatCallsOfTrace(cfg: Config, env: Env, n: nat, c: nat)
    requires n <= c
    ensures ChatCalls(Events(cfg, env, n, c)) == c - n
    decreases c - n
  {
    hide EventsOf, ChatCalls;
    if n == c {
      NoChatCalls(Events(cfg, env, n, c));
    } else {
      OneChatCall(cfg, env, env.chat(n));
      ChatCallsOfTrace(cfg, env, n + 1, c);
      ChatCallsJoin(EventsOf(cfg, env, env.chat(n)), Events(cfg, env, n + 1, c));
    }
  }

  lemma {:induction false} LastEvent(cfg: Config, env: Env, n: nat, c: nat)
    requires n < c
    ensures var all, last := Events(cfg, env, n, c), EventsOf(cfg, env, env.chat(c - 1));
            all != [] && last != [] && all[|all| - 1] == last[|last| - 1]
    decreases c - n
  {
    hide EventsOf;
    SomeEvent(cfg, env, env.chat(c - 1));
    if n + 1 == c {
      OneReply(cfg, env, n);
    } else {
      LastEvent(cfg, env, n + 1, c);
    }
  }

  lemma SomeEvent(cfg: Config, env: Env, reply: Reply)
    ensures EventsOf(cfg, env, reply) != []
  {
  }

  /** The first call of a reply that is not executed. */
  predicate StopsAt(cfg: Config, calls: seq<ToolCall>, i: nat) {
    i < |calls| && !Executable(cfg, calls[i].name) && forall j :: 0 <= j < i ==> Executable(cfg, calls[j].name)
  }

  /** The last event of a reply opens a gate exactly when the first call not executed is of a registered
      tool and the gateway opens a gate for it. */
  lemma GateIsLast(cfg: Config, env: Env, reply: Reply)
    ensures var es, e := EventsOf(cfg, env, reply), EffectOf(cfg, env, reply);
            && es != [] && (es[|es| - 1].GateOpened? <==> e.Gated?)
            && (e.Gated? ==> GatesFor(cfg, env, reply, e.gate, es[|es| - 1]))
  {
    if reply.Message? {
      var k := Leading(cfg, reply.toolCalls);
      NothingExecuted(cfg);
      if EffectOf(cfg, env, reply).Gated? {
        assert StopsAt(cfg, reply.toolCalls, k);
      }
    }
  }

  /** The gateway opened this gate for the first call of the reply that is not executed, whose tool is
      registered, and that is what the event says. */
  ghost predicate GatesFor(cfg: Config, env: Env, reply: Reply, gate: string, event: Event) {
    && reply.Message?
    && exists i: nat ::
      && StopsAt(cfg, reply.toolCalls, i) && reply.toolCalls[i].name in cfg.tiers
      && env.openGate(reply.toolCalls[i]) == Some(gate) && event == GateOpened(reply.toolCalls[i].name)
  }

  /** The reasons for which a reply makes a run fail: the model could not be reached, or the first call
      not executed is of an unknown tool or finds no gateway. */
  ghost predicate ReplyFails(cfg: Config, env: Env, reply: Reply) {
    reply.ChatFailed?
    || exists i: nat :: StopsAt(cfg, reply.toolCalls, i)
         && (reply.toolCalls[i].name !in cfg.tiers || env.openGate(reply.toolCalls[i]).None?)
  }

  lemma FailingEffect(cfg: Config, env: Env, reply: Reply)
    ensures var e := EffectOf(cfg, env, reply);
            e.ChatBroke? || e.UnknownTool? || e.GatewayBroke? <==> ReplyFails(cfg, env, reply)
  {
    if reply.Message? {
      var k := Leading(cfg, reply.toolCalls);
      if i: nat :| StopsAt(cfg, reply.toolCalls, i) {
        LeadingIs(cfg, reply.toolCalls, i);
      }
      if k < |reply.toolCalls| {
        assert StopsAt(cfg, reply.toolCalls, k);
      }
    }
  }

  /** How every run and resumption ends, for any model, gateway and cancellation. With `c` the number of
      chat calls made: it has completed exactly when the last reply asks for no tool; it awaits a gate
      exactly when the last event is the opening of one, which is then the agent's gate, opened for the
      first call of the last reply that is not executed; and it has failed exactly when the last reply
      fails it or when, after replies whose calls were all executed, the counter has reached the cap or
      the context is done. Its history, events and recorded steps are those of the replies, in order. */
  lemma HowRunsEnd(cfg: Config, env: Env, s: int, history: seq<HistoryEntry>, gateId: string, resume: Option<string>)
    returns (c: nat)
    ensures var start := Begin(s, history, gateId, resume); var out := Iterate(cfg, env, start, 0);
      && c == ChatCalls(out.events) && IsTrace(cfg, env, start, 0, c, out)
      && (out.status == Completed <==> c > 0 && env.chat(c - 1).Message? && env.chat(c - 1).toolCalls == [])
      && (out.status == AwaitingGate <==> out.events != [] && out.events[|out.events| - 1].GateOpened?)
      && (out.status == AwaitingGate ==>
            c > 0 && GatesFor(cfg, env, env.chat(c - 1), out.gateId, out.events[|out.events| - 1]))
      && (out.status == Failed <==>
           (c > 0 && ReplyFails(cfg, env, env.chat(c - 1))) || GaveUp(cfg, env, start.step, 0, c))
      && (out.status != AwaitingGate ==> out.gateId == gateId)
  {
    hide *;
    BeginsWithout(s, history, gateId, resume);
    var start := Begin(s, history, gateId, resume);
    c := RunTrace(cfg, env, start, 0);
    var out := Iterate(cfg, env, start, 0);
    TraceFacts(cfg, env, start, c, out);
    ChatCallsOfTrace(cfg, env, 0, c);
    TraceEnds(cfg, env, start, c, out);
  }

  lemma BeginsWithout(s: int, history: seq<HistoryEntry>, gateId: string, resume: Option<string>)
    ensures var start := Begin(s, history, gateId, resume);
            start.status == Running && start.events == [] && start.gateId == gateId
  {
  }

  /** The facts about the trace that decide the status. */
  lemma TraceFacts(cfg: Config, env: Env, start: Run, c: nat, out: Run)
    requires start.events == [] && IsTrace(cfg, env, start, 0, c, out)
    ensures out.events == Events(cfg, env, 0, c)
    ensures c > 0 || GaveUp(cfg, env, start.step, 0, c)
    ensures c > 0 && GaveUp(cfg, env, start.step, 0, c) ==> EffectOf(cfg, env, env.chat(c - 1)) == GoesOn
    ensures if GaveUp(cfg, env, start.step, 0, c) then out.status == Failed && out.gateId == start.gateId
            else
              var e := EffectOf(cfg, env, env.chat(c - 1));
              && e != GoesOn && out.gateId == (if e.Gated? then e.gate else start.gateId)
              && out.status == (if e.Answered? then Completed else if e.Gated? then AwaitingGate else Failed)
  {
    hide Events, History, Kinds, EffectOf, Asked, StepAfter, RecordedKinds;
  }

  lemma TraceEnds(cfg: Config, env: Env, start: Run, c: nat, out: Run)
    requires start.events == [] && IsTrace(cfg, env, start, 0, c, out)
    ensures out.status == Completed <==> c > 0 && env.chat(c - 1).Message? && env.chat(c - 1).toolCalls == []
    ensures out.status == AwaitingGate <==> out.events != [] && out.events[|out.events| - 1].GateOpened?
    ensures out.status == AwaitingGate ==>
              c > 0 && GatesFor(cfg, env, env.chat(c - 1), out.gateId, out.events[|out.events| - 1])
    ensures out.status == Failed <==>
              (c > 0 && ReplyFails(cfg, env, env.chat(c - 1))) || GaveUp(cfg, env, start.step, 0, c)
    ensures out.status != AwaitingGate ==> out.gateId == start.gateId
  {
    hide *;
    TraceFacts(cfg, env, start, c, out);
    if c > 0 {
      LastEvent(cfg, env, 0, c);
      GateIsLast(cfg, env, env.chat(c - 1));
      FailingEffect(cfg, env, env.chat(c - 1));
      AnsweredIff(cfg, env, env.chat(c - 1));
    } else {
      NoEvents(cfg, env);
    }
  }

  lemma NoEvents(cfg: Config, env: Env)
    ensures Events(cfg, env, 0, 0) == []
  {
  }

  lemma AnsweredIff(cfg: Config, env: Env, reply: Reply)
    ensures EffectOf(cfg, env, reply).Answered? <==> reply.Message? && reply.toolCalls == []
  {
  }
}
