/** The bounded-autonomy agent loop, against an arbitrary model, gateway and caller. */
module AgentLoop {
  import opened Options

  const RISK_TIER_REVERSIBLE := 2

  datatype ToolCall = ToolCall(id: string, name: string)

  datatype Reply = ChatFailed | Message(content: string, toolCalls: seq<ToolCall>)

  /** The world around one run: whether the context is done before the n-th chat call, what the n-th
      chat call returns, and the gate opened for a call (none if the gateway fails). */
  datatype Env = Env(cancelled: nat -> bool, chat: nat -> Reply, openGate: ToolCall -> Option<string>)

  /** `tiers` is the tool registry: the risk tier of each tool. */
  datatype Config = Config(tiers: map<string, int>, maxSteps: int, maxTier: int) {
    /** Zero means unset. */
    function WithDefaults(): Config {
      this.(maxSteps := if maxSteps == 0 then 12 else maxSteps,
            maxTier := if maxTier == 0 then RISK_TIER_REVERSIBLE else maxTier)
    }
  }

  datatype HistoryEntry = System | User(goal: string) | Assistant(content: string) | ToolResult(callId: string)

  datatype StepKind = ToolCallStep | ToolResultStep | GateRequested | GateResolved | Final

  datatype Step = Step(index: int, kind: StepKind, gate: string)

  datatype Status = Running | Completed | AwaitingGate | Failed

  /** What a run does that can be seen from outside. */
  datatype Event = ChatCall | ToolRun(name: string, tier: int) | GateOpened(name: string)

  /** The agent's fields and the outcome under construction. */
  datatype Run = Run(
    step: int,
    history: seq<HistoryEntry>,
    gateId: string,
    status: Status,
    steps: seq<Step>,
    events: seq<Event>)

  // ---------- the effect of a run ----------

  function Record(r: Run, kind: StepKind, gate: string): Run {
    r.(steps := r.steps + [Step(r.step, kind, gate)], step := r.step + 1)
  }

  /** A failure is recorded without advancing the step counter. */
  function Fail(r: Run): Run {
    r.(steps := r.steps + [Step(r.step, Final, "")], status := Failed)
  }

  function DoCall(cfg: Config, env: Env, r: Run, tc: ToolCall): Run {
    if tc.name !in cfg.tiers then Fail(r)
    else
      var tier := cfg.tiers[tc.name];
      var called := Record(r, ToolCallStep, "");
      if tier > cfg.maxTier then
        match env.openGate(tc)
        case None => Fail(called)
        case Some(gid) =>
          Record(called, GateRequested, gid).(gateId := gid, status := AwaitingGate,
                                              events := r.events + [GateOpened(tc.name)])
      else
        Record(called.(events := r.events + [ToolRun(tc.name, tier)],
                       history := r.history + [ToolResult(tc.id)]), ToolResultStep, "")
  }

  /** The calls of one reply, one after the other, until one of them ends the run. */
  function DoCalls(cfg: Config, env: Env, r: Run, calls: seq<ToolCall>): (r': Run)
    requires r.status == Running
    ensures r'.status == Running ==> r'.step == r.step + 2 * |calls|
  {
    if calls == [] then r
    else
      var front := DoCalls(cfg, env, r, calls[..|calls| - 1]);
      if front.status != Running then front else DoCall(cfg, env, front, calls[|calls| - 1])
  }

  function Chatted(r: Run, entry: seq<HistoryEntry>): Run {
    r.(events := r.events + [ChatCall], history := r.history + entry)
  }

  /** The loop from its n-th iteration on. */
  function Iterate(cfg: Config, env: Env, r: Run, n: nat): Run
    requires r.status == Running
    decreases cfg.maxSteps - r.step
  {
    if r.step >= cfg.maxSteps then Fail(r)
    else if env.cancelled(n) then Fail(r)
    else
      match env.chat(n)
      case ChatFailed => Fail(Chatted(r, []))
      case Message(content, calls) =>
        var chatted := Chatted(r, [Assistant(content)]);
        if calls == [] then Record(chatted, Final, "").(status := Completed)
        else
          var done := DoCalls(cfg, env, chatted, calls);
          if done.status != Running then done else Iterate(cfg, env, done, n + 1)
  }

  /** A run with the resolution of a gate first, if it is a resumption. */
  function Begin(step: int, history: seq<HistoryEntry>, gateId: string, resume: Option<string>): Run {
    var r := Run(step, history, gateId, Running, [], []);
    if resume.None? then r
    else Record(r.(history := history + [ToolResult(resume.value)]), GateResolved, resume.value)
  }

  class Agent {
    const cfg: Config
    const systemPrompt: bool
    var step: int
    var history: seq<HistoryEntry>
    var gateId: string

    constructor (cfg: Config, systemPrompt: bool)
      ensures this.cfg == cfg.WithDefaults() && this.systemPrompt == systemPrompt
      ensures this.cfg.tiers == cfg.tiers && this.cfg.maxSteps == (if cfg.maxSteps == 0 then 12 else cfg.maxSteps)
      ensures this.cfg.maxTier == if cfg.maxTier == 0 then 2 else cfg.maxTier
      ensures step == 0 && history == [] && gateId == ""
    {
      this.cfg := cfg.WithDefaults();
      this.systemPrompt := systemPrompt;
      step, history, gateId := 0, [], "";
    }

    method RunGoal(goal: string, env: Env) returns (status: Status, steps: seq<Step>, events: seq<Event>)
      modifies this
      ensures var start :=
                if old(history) != [] then old(history)
                else (if systemPrompt then [System] else []) + [User(goal)];
              Run(step, history, gateId, status, steps, events)
              == Iterate(cfg, env, Begin(old(step), start, old(gateId), None), 0)
    {
      if history == [] {
        if systemPrompt {
          history := history + [System];
        }
        history := history + [User(goal)];
        assert history == (if systemPrompt then [System] else []) + [User(goal)];
      }
      status, steps, events := Loop(None, env);
    }

    method Resume(gate: string, env: Env) returns (status: Status, steps: seq<Step>, events: seq<Event>)
      modifies this
      ensures Run(step, history, gateId, status, steps, events)
              == Iterate(cfg, env, Begin(old(step), old(history), old(gateId), Some(gate)), 0)
    {
      status, steps, events := Loop(Some(gate), env);
    }

    method Loop(resume: Option<string>, env: Env) returns (status: Status, steps: seq<Step>, events: seq<Event>)
      modifies this
      ensures Run(step, history, gateId, status, steps, events)
              == Iterate(cfg, env, Begin(old(step), old(history), old(gateId), resume), 0)
    {
      steps, events, status := [], [], Running;
      if resume.Some? {
        history := history + [ToolResult(resume.value)];
        steps := steps + [Step(step, GateResolved, resume.value)];
        step := step + 1;
      }
      ghost var whole := Iterate(cfg, env, Begin(old(step), old(history), old(gateId), resume), 0);
      var n := 0;
      while step < cfg.maxSteps
        invariant status == Running
        invariant whole == Iterate(cfg, env, Run(step, history, gateId, status, steps, events), n)
        decreases cfg.maxSteps - step
      {
        if env.cancelled(n) {
          steps := steps + [Step(step, Final, "")];
          return Failed, steps, events;
        }
        events := events + [ChatCall];
        var reply := env.chat(n);
        if reply.ChatFailed? {
          steps := steps + [Step(step, Final, "")];
          return Failed, steps, events;
        }
        history := history + [Assistant(reply.content)];
        var calls := reply.toolCalls;
        if |calls| == 0 {
          steps := steps + [Step(step, Final, "")];
          step := step + 1;
          return Completed, steps, events;
        }
        status, steps, events := Dispatch(calls, env, steps, events);
        if status != Running {
          return;
        }
        n := n + 1;
      }
      steps := steps + [Step(step, Final, "")];
      status := Failed;
    }

    /** The loop over the tool calls of one reply. */
    method Dispatch(calls: seq<ToolCall>, env: Env, steps0: seq<Step>, events0: seq<Event>)
      returns (status: Status, steps: seq<Step>, events: seq<Event>)
      modifies this
      ensures Run(step, history, gateId, status, steps, events)
              == DoCalls(cfg, env, Run(old(step), old(history), old(gateId), Running, steps0, events0), calls)
    {
      ghost var start := Run(step, history, gateId, Running, steps0, events0);
      steps, events, status := steps0, events0, Running;
      for i := 0 to |calls|
        invariant status == Running
        invariant Run(step, history, gateId, status, steps, events) == DoCalls(cfg, env, start, calls[..i])
      {
        assert calls[..i + 1][..i] == calls[..i];
        var tc := calls[i];
        if tc.name !in cfg.tiers {
          steps := steps + [Step(step, Final, "")];
          StoppedIsFinal(cfg, env, start, calls, i + 1);
          return Failed, steps, events;
        }
        var tier := cfg.tiers[tc.name];
        steps := steps + [Step(step, ToolCallStep, "")];
        step := step + 1;
        if tier > cfg.maxTier {
          var gid := env.openGate(tc);
          StoppedIsFinal(cfg, env, start, calls, i + 1);
          if gid.None? {
            steps := steps + [Step(step, Final, "")];
            return Failed, steps, events;
          }
          gateId := gid.value;
          steps := steps + [Step(step, GateRequested, gid.value)];
          step := step + 1;
          events := events + [GateOpened(tc.name)];
          return AwaitingGate, steps, events;
        }
        events := events + [ToolRun(tc.name, tier)];
        history := history + [ToolResult(tc.id)];
        steps := steps + [Step(step, ToolResultStep, "")];
        step := step + 1;
      }
      assert calls[..|calls|] == calls;
    }
  }

  /** A call that ends the run keeps the later calls of its reply from being looked at. */
  lemma {:induction false} StoppedIsFinal(cfg: Config, env: Env, r: Run, calls: seq<ToolCall>, i: nat)
    requires r.status == Running && i <= |calls|
    ensures DoCalls(cfg, env, r, calls[..i]).status != Running
            ==> DoCalls(cfg, env, r, calls) == DoCalls(cfg, env, r, calls[..i])
    decreases |calls|
  {
    if i == |calls| {
      assert calls[..i] == calls;
    } else {
      var front := calls[..|calls| - 1];
      assert front[..i] == calls[..i];
      StoppedIsFinal(cfg, env, r, front, i);
    }
  }

  // ---------- what holds of every run ----------

  /** Tools are run at most at the ceiling, and nothing happens after a gate is opened. */
  predicate Bounded(cfg: Config, r: Run) {
    && (forall i :: 0 <= i < |r.events| && r.events[i].ToolRun? ==>
          r.events[i].name in cfg.tiers && r.events[i].tier == cfg.tiers[r.events[i].name] <= cfg.maxTier)
    && (forall i :: 0 <= i < |r.events| && r.events[i].GateOpened? ==>
          i == |r.events| - 1 && r.status == AwaitingGate
          && r.events[i].name in cfg.tiers && cfg.tiers[r.events[i].name] > cfg.maxTier)
  }

  /** The recorded steps carry the indices from `first` on, without a gap. */
  predicate Consecutive(first: int, r: Run) {
    && (forall i :: 0 <= i < |r.steps| ==> r.steps[i].index == first + i)
    && r.step == first + |r.steps| - if r.status == Failed then 1 else 0
  }

  function ChatCalls(events: seq<Event>): nat {
    if events == [] then 0
    else ChatCalls(events[..|events| - 1]) + if events[|events| - 1] == ChatCall then 1 else 0
  }

  ghost predicate Sound(cfg: Config, first: int, r: Run) {
    Bounded(cfg, r) && Consecutive(first, r)
  }

  lemma CallKeepsSound(cfg: Config, env: Env, r: Run, tc: ToolCall, first: int)
    requires Sound(cfg, first, r) && r.status == Running
    ensures Sound(cfg, first, DoCall(cfg, env, r, tc))
    ensures ChatCalls(DoCall(cfg, env, r, tc).events) == ChatCalls(r.events)
  {
  }

  lemma {:induction false} CallsKeepSound(cfg: Config, env: Env, r: Run, calls: seq<ToolCall>, first: int)
    requires Sound(cfg, first, r) && r.status == Running
    ensures Sound(cfg, first, DoCalls(cfg, env, r, calls))
    ensures ChatCalls(DoCalls(cfg, env, r, calls).events) == ChatCalls(r.events)
  {
    if calls != [] {
      var front := calls[..|calls| - 1];
      CallsKeepSound(cfg, env, r, front, first);
      var r' := DoCalls(cfg, env, r, front);
      if r'.status == Running {
        CallKeepsSound(cfg, env, r', calls[|calls| - 1], first);
      }
    }
  }

  /** The number of chat calls still possible below the step cap. */
  function ChatBudget(cfg: Config, step: int): nat {
    if step >= cfg.maxSteps then 0 else (cfg.maxSteps - step + 1) / 2
  }

  lemma FailKeepsSound(cfg: Config, r: Run, first: int)
    requires Sound(cfg, first, r) && r.status == Running
    ensures Sound(cfg, first, Fail(r)) && Fail(r).events == r.events
  {
  }

  lemma ChatKeepsSound(cfg: Config, r: Run, entry: seq<HistoryEntry>, first: int)
    requires Sound(cfg, first, r) && r.status == Running
    ensures Sound(cfg, first, Chatted(r, entry)) && ChatCalls(Chatted(r, entry).events) == ChatCalls(r.events) + 1
    ensures Chatted(r, entry).status == Running && Chatted(r, entry).step == r.step
  {
    assert (r.events + [ChatCall])[..|r.events|] == r.events;
  }

  lemma FinalKeepsSound(cfg: Config, r: Run, first: int)
    requires Sound(cfg, first, r) && r.status == Running
    ensures Sound(cfg, first, Record(r, Final, "").(status := Completed))
  {
  }

  lemma {:induction false} IterateIsSound(cfg: Config, env: Env, r: Run, n: nat, first: int)
    requires Sound(cfg, first, r) && r.status == Running
    ensures Sound(cfg, first, Iterate(cfg, env, r, n))
    ensures ChatCalls(Iterate(cfg, env, r, n).events) <= ChatCalls(r.events) + ChatBudget(cfg, r.step)
    ensures Iterate(cfg, env, r, n).status != Running
    decreases cfg.maxSteps - r.step
  {
    hide Sound, ChatCalls, Chatted, DoCalls;
    FailKeepsSound(cfg, r, first);
    if r.step < cfg.maxSteps && !env.cancelled(n) {
      if env.chat(n).ChatFailed? {
        ChatKeepsSound(cfg, r, [], first);
        FailKeepsSound(cfg, Chatted(r, []), first);
      } else {
        var chatted := Chatted(r, [Assistant(env.chat(n).content)]);
        ChatKeepsSound(cfg, r, [Assistant(env.chat(n).content)], first);
        FinalKeepsSound(cfg, chatted, first);
        CallsKeepSound(cfg, env, chatted, env.chat(n).toolCalls, first);
        var done := DoCalls(cfg, env, chatted, env.chat(n).toolCalls);
        if env.chat(n).toolCalls != [] && done.status == Running {
          IterateIsSound(cfg, env, done, n + 1, first);
        }
      }
    }
  }

  /** For any model, gateway and registry: a run or resumption from step `s` runs no tool above the
      ceiling, stops at the first gate, records consecutive step indices from `s` on, and makes at
      most half as many chat calls (rounded up) as there are steps left. */
  lemma EveryRunIsBounded(cfg: Config, env: Env, s: int, history: seq<HistoryEntry>, gateId: string,
                          resume: Option<string>)
    ensures var r := Iterate(cfg, env, Begin(s, history, gateId, resume), 0);
      && Bounded(cfg, r) && Consecutive(s, r) && r.status != Running
      && ChatCalls(r.events) <= ChatBudget(cfg, s)
  {
    IterateIsSound(cfg, env, Begin(s, history, gateId, resume), 0, s);
  }

  // ---------- the step cap ----------

  /** The last step, counted from `step` in the twos that an executed call takes, at which the loop may
      still ask the model. */
  function LastStart(step: int, maxSteps: int): int {
    maxSteps - 1 - (maxSteps - 1 - step) % 2
  }

  /** With replies of at most `m` calls the counter ends at most `2 * m` above the last step at which the
      model is asked. */
  lemma {:induction false} StepsBounded(cfg: Config, env: Env, r: Run, n: nat, m: nat)
    requires r.status == Running && m >= 1
    requires forall i: nat :: env.chat(i).Message? ==> |env.chat(i).toolCalls| <= m
    ensures Iterate(cfg, env, r, n).step
            <= if r.step >= cfg.maxSteps then r.step else LastStart(r.step, cfg.maxSteps) + 2 * m
    decreases cfg.maxSteps - r.step
  {
    if r.step < cfg.maxSteps && !env.cancelled(n) && env.chat(n).Message? {
      var chatted := Chatted(r, [Assistant(env.chat(n).content)]);
      var calls := env.chat(n).toolCalls;
      if calls != [] {
        CallsBounded(cfg, env, chatted, calls);
        var done := DoCalls(cfg, env, chatted, calls);
        if done.status == Running {
          StepsBounded(cfg, env, done, n + 1, m);
        }
      }
    }
  }

  lemma {:induction false} CallsBounded(cfg: Config, env: Env, r: Run, calls: seq<ToolCall>)
    requires r.status == Running
    ensures DoCalls(cfg, env, r, calls).step <= r.step + 2 * |calls|
  {
    if calls != [] {
      CallsBounded(cfg, env, r, calls[..|calls| - 1]);
    }
  }

  function Copies(name: string, m: nat): seq<ToolCall> {
    seq(m, _ => ToolCall("c", name))
  }

  /** A model that asks for a tool once in each of its first `k` replies, and `m` times in the next. */
  function Flood(name: string, k: nat, m: nat): Env {
    Env((n: nat) => false,
        (n: nat) => Message("", Copies(name, if n < k then 1 else if n == k then m else 0)),
        (tc: ToolCall) => Some("g"))
  }

  predicate Executable(cfg: Config, name: string) {
    name in cfg.tiers && cfg.tiers[name] <= cfg.maxTier
  }

  lemma {:induction false} CopiesRun(cfg: Config, env: Env, r: Run, name: string, m: nat)
    requires r.status == Running && Executable(cfg, name)
    ensures DoCalls(cfg, env, r, Copies(name, m)).status == Running
    ensures DoCalls(cfg, env, r, Copies(name, m)).step == r.step + 2 * m
  {
    if m > 0 {
      CopiesRun(cfg, env, r, name, m - 1);
      assert Copies(name, m)[..m - 1] == Copies(name, m - 1);
    }
  }

  lemma {:induction false} FloodReaches(cfg: Config, r: Run, name: string, k: nat, m: nat, n: nat)
    requires r.status == Running && Executable(cfg, name) && n <= k && m >= 1
    requires r.step < cfg.maxSteps && r.step + 2 * (k - n) == LastStart(r.step, cfg.maxSteps)
    ensures Iterate(cfg, Flood(name, k, m), r, n).step == LastStart(r.step, cfg.maxSteps) + 2 * m
    decreases k - n
  {
    hide DoCalls;
    var env := Flood(name, k, m);
    var count := if n < k then 1 else m;
    var chatted := Chatted(r, [Assistant("")]);
    var done := DoCalls(cfg, env, chatted, Copies(name, count));
    CopiesRun(cfg, env, chatted, name, count);
    assert env.chat(n) == Message("", Copies(name, count)) && |Copies(name, count)| == count;
    assert Iterate(cfg, env, r, n) == Iterate(cfg, env, done, n + 1);
    if n < k {
      FloodReaches(cfg, done, name, k, m, n + 1);
    }
  }

  /** The bound is exact as soon as some registered tool can be run without a gate. */
  lemma StepBoundIsReached(cfg: Config, r: Run, name: string, m: nat) returns (env: Env)
    requires r.status == Running && r.step < cfg.maxSteps && Executable(cfg, name) && m >= 1
    ensures forall i: nat :: env.chat(i).Message? ==> |env.chat(i).toolCalls| <= m
    ensures Iterate(cfg, env, r, 0).step == LastStart(r.step, cfg.maxSteps) + 2 * m
  {
    var k: nat := (LastStart(r.step, cfg.maxSteps) - r.step) / 2;
    env := Flood(name, k, m);
    forall i: nat
      ensures |env.chat(i).toolCalls| <= m
    {
      assert env.chat(i) == Message("", Copies(name, if i < k then 1 else if i == k then m else 0));
    }
    FloodReaches(cfg, r, name, k, m, 0);
  }

  /** From here on, whatever the model does, the step counter stays within the cap. */
  ghost predicate CapHonoured(cfg: Config, r: Run)
    requires r.status == Running
  {
    forall env: Env :: Iterate(cfg, env, r, 0).step <= cfg.maxSteps
  }

  /** When no tool can be run without a gate, the first call of a reply ends the run. */
  lemma {:induction false} FirstCallEnds(cfg: Config, env: Env, r: Run, calls: seq<ToolCall>)
    requires r.status == Running && calls != [] && forall name :: !Executable(cfg, name)
    ensures var done := DoCalls(cfg, env, r, calls);
            done.status != Running && done.step <= r.step + if cfg.tiers == map[] then 0 else 2
  {
    StoppedIsFinal(cfg, env, r, calls, 1);
    assert calls[..1][..0] == [] && calls[..1][0] == calls[0];
    assert DoCalls(cfg, env, r, []) == r;
    assert !Executable(cfg, calls[0].name);
    assert DoCalls(cfg, env, r, calls[..1]) == DoCall(cfg, env, r, calls[0]);
  }

  lemma OneRoundAtMost(cfg: Config, env: Env, r: Run)
    requires r.status == Running && r.step < cfg.maxSteps && forall name :: !Executable(cfg, name)
    ensures Iterate(cfg, env, r, 0).step <= r.step + if cfg.tiers == map[] then 1 else 2
  {
    hide DoCalls, Executable;
    if !env.cancelled(0) && env.chat(0).Message? && env.chat(0).toolCalls != [] {
      FirstCallEnds(cfg, env, Chatted(r, [Assistant(env.chat(0).content)]), env.chat(0).toolCalls);
    }
  }

  /** A reply that opens a gate at the last step ends one step past the cap. */
  lemma GateOvershoots(cfg: Config, r: Run, name: string)
    requires r.status == Running && r.step + 1 == cfg.maxSteps && name in cfg.tiers
    ensures Iterate(cfg, Flood(name, 0, 1), r, 0).step == cfg.maxSteps + 1
  {
    var env := Flood(name, 0, 1);
    var chatted := Chatted(r, [Assistant("")]);
    var calls := Copies(name, 1);
    assert calls[..0] == [] && calls[0].name == name;
    assert DoCalls(cfg, env, chatted, []) == chatted;
    assert env.chat(0) == Message("", calls);
    var done := DoCalls(cfg, env, chatted, calls);
    assert done == DoCall(cfg, env, chatted, calls[0]);
  }

  /** `MaxSteps` is documented as a hard cap. A run keeps to it, whatever the model does, exactly when it
      starts at the cap, or starts below it and no registered tool can be run without a gate and a gate
      still fits (or there is no tool at all). */
  lemma CapHonouredIff(cfg: Config, r: Run)
    requires r.status == Running
    ensures CapHonoured(cfg, r) <==>
            || r.step == cfg.maxSteps
            || (r.step < cfg.maxSteps && (forall name :: !Executable(cfg, name))
                && (r.step + 2 <= cfg.maxSteps || cfg.tiers == map[]))
  {
    hide Executable, Iterate;
    if r.step >= cfg.maxSteps {
      AtTheCap(cfg, r);
      assert Iterate(cfg, Flood("", 0, 0), r, 0).step == r.step;
    } else if name :| Executable(cfg, name) {
      var env := StepBoundIsReached(cfg, r, name, 2);
      assert Iterate(cfg, env, r, 0).step > cfg.maxSteps;
    } else if r.step + 1 == cfg.maxSteps && cfg.tiers != map[] {
      var name :| name in cfg.tiers;
      GateOvershoots(cfg, r, name);
    } else {
      forall env: Env
        ensures Iterate(cfg, env, r, 0).step <= cfg.maxSteps
      {
        OneRoundAtMost(cfg, env, r);
      }
    }
  }

  lemma AtTheCap(cfg: Config, r: Run)
    requires r.status == Running && r.step >= cfg.maxSteps
    ensures forall env: Env :: Iterate(cfg, env, r, 0).step == r.step
  {
  }

  /** A new agent allowed one step that ends its first run at step 2. */
  lemma CapExceeded()
    ensures var cfg := Config(map["t" := 1], 1, 2).WithDefaults();
            Iterate(cfg, Flood("t", 0, 1), Begin(0, [], "", None), 0).step == 2 > cfg.maxSteps
  {
    var cfg := Config(map["t" := 1], 1, 2).WithDefaults();
    FloodReaches(cfg, Begin(0, [], "", None), "t", 0, 1, 0);
  }

  // ---------- the configured ceiling ----------

  /** No run or resumption of an agent configured with `cfg`, whatever its past, runs a tool above the
      tier that was asked for. */
  ghost predicate CeilingHonoured(cfg: Config) {
    forall env: Env, s: nat, history: seq<HistoryEntry>, gateId: string, resume: Option<string> ::
      RespectsTier(cfg, env, Begin(s, history, gateId, resume))
  }

  ghost predicate RespectsTier(cfg: Config, env: Env, start: Run)
    requires start.status == Running
  {
    forall e :: e in Iterate(cfg.WithDefaults(), env, start, 0).events && e.ToolRun? ==> e.tier <= cfg.maxTier
  }

  /** A model that asks for one tool and then stops. */
  function OneCall(name: string): Env {
    Env((n: nat) => false,
        (n: nat) => if n == 0 then Message("", [ToolCall("c", name)]) else Message("", []),
        (tc: ToolCall) => None)
  }

  /** A ceiling other than 0 is honoured. A ceiling of 0 (read-only) is taken for "unset", so it is
      honoured only when no registered tool lies between it and the default ceiling, or no step is allowed. */
  lemma CeilingHonouredIff(cfg: Config)
    ensures CeilingHonoured(cfg) <==>
            || cfg.maxTier != 0 || cfg.maxSteps < 0
            || forall name :: name in cfg.tiers ==> !(0 < cfg.tiers[name] <= RISK_TIER_REVERSIBLE)
  {
    if name :| && cfg.maxTier == 0 && cfg.maxSteps >= 0
               && name in cfg.tiers && 0 < cfg.tiers[name] <= RISK_TIER_REVERSIBLE {
      ZeroCeilingBreaks(cfg, name);
    } else {
      forall env: Env, s: nat, history: seq<HistoryEntry>, gateId: string, resume: Option<string>
        ensures RespectsTier(cfg, env, Begin(s, history, gateId, resume))
      {
        IterateIsSound(cfg.WithDefaults(), env, Begin(s, history, gateId, resume), 0, s);
      }
    }
  }

  lemma ZeroCeilingBreaks(cfg: Config, name: string)
    requires cfg.maxTier == 0 && cfg.maxSteps >= 0
    requires name in cfg.tiers && 0 < cfg.tiers[name] <= RISK_TIER_REVERSIBLE
    ensures !RespectsTier(cfg, OneCall(name), Begin(0, [], "", None))
  {
    var d, env := cfg.WithDefaults(), OneCall(name);
    var r := Begin(0, [], "", None);
    var chatted := Chatted(r, [Assistant("")]);
    var calls := [ToolCall("c", name)];
    assert calls[..0] == [];
    assert DoCalls(d, env, chatted, []) == chatted;
    var done := DoCalls(d, env, chatted, calls);
    assert done == DoCall(d, env, chatted, calls[0]);
    assert done.events == [ChatCall, ToolRun(name, cfg.tiers[name])];
    var last := Iterate(d, env, done, 1);
    assert Iterate(d, env, r, 0) == last;
    assert last.events[1] == done.events[1] && last.events[1] in last.events;
  }
}
