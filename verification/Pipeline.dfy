/** The streaming runtime: a chain of operators, each between two helper goroutines,
    joined by bounded channels.

    Every goroutine of the chain is a `Stage`: operator `i` contributes stage `3*i` (the loop that
    copies the incoming edge to `instr`), stage `3*i+1` (the operator itself) and stage `3*i+2`
    (the loop that copies `outwrap` to the outgoing edge). Stage `k` reads channel `k` and writes
    channel `k+1`, so channel `3*i` is the edge between operators. One `Action` is one step of one
    goroutine; a run is any sequence of enabled actions. */
module Pipeline {

  /** A deterministic operator that returns only when its upstream closes: the frames it emits
      when a frame arrives after a history, and the frames it emits at end of stream. */
  datatype Operator<!F> = Operator(emit: (seq<F>, F) -> seq<F>, flush: seq<F> -> seq<F>)

  /** Everything emitted while consuming `history`. */
  function Output<F>(op: Operator<F>, history: seq<F>): seq<F> {
    if history == [] then []
    else
      var n := |history| - 1;
      Output(op, history[..n]) + op.emit(history[..n], history[n])
  }

  /** Everything emitted for a complete input stream. */
  function Complete<F>(op: Operator<F>, input: seq<F>): seq<F> {
    Output(op, input) + op.flush(input)
  }

  /** The reference semantics: the first `n` operators applied one after the other to whole streams. */
  function Composition<F>(ops: seq<Operator<F>>, n: nat, source: seq<F>): seq<F>
    requires n <= |ops|
  {
    if n == 0 then source else Complete(ops[n - 1], Composition(ops, n - 1, source))
  }

  /** The copying loops around an operator. */
  function Forward<F>(): Operator<F> {
    Operator((h: seq<F>, x: F) => [x], (h: seq<F>) => [])
  }

  datatype Config<!F> = Config(ops: seq<Operator<F>>, bufferSize: int) {
    function Capacity(): nat {
      if bufferSize <= 0 then 32 else bufferSize
    }

    function Stages(): nat {
      3 * |ops|
    }

    function Chain(): (chain: seq<Operator<F>>)
      ensures |chain| == Stages()
    {
      seq(Stages(), (k: nat) requires k < Stages() => if k % 3 == 1 then ops[k / 3] else Forward())
    }
  }

  /** `Returned`: the loop has ended (for the out-wrapper, `done` is closed); `Closed`: the
      goroutine's output channel has been closed. */
  datatype Phase = Running | Draining | Returned | Closed {
    function Rank(): nat {
      match this
      case Running => 0
      case Draining => 1
      case Returned => 2
      case Closed => 3
    }
  }

  datatype Stage<F> = Stage(consumed: seq<F>, pending: seq<F>, phase: Phase)
  datatype Channel<F> = Channel(items: seq<F>, closed: bool)

  datatype State<F> = State(
    sent: seq<F>,
    chans: seq<Channel<F>>,
    stages: seq<Stage<F>>,
    delivered: seq<F>,
    tailDone: bool)

  datatype Action<F> =
    | SourceSend(frame: F)
    | SourceClose
    | Receive(k: nat)
    | SeeClosed(k: nat)
    | Send(k: nat)
    | Return(k: nat)
    | Close(k: nat)
    | TailReceive
    | TailExit

  predicate Shaped<F>(cfg: Config<F>, st: State<F>) {
    |st.stages| == cfg.Stages() && |st.chans| == cfg.Stages() + 1
  }

  function Init<F>(cfg: Config<F>): State<F> {
    State([], seq(cfg.Stages() + 1, i => Channel([], false)),
          seq(cfg.Stages(), i => Stage([], [], Running)), [], false)
  }

  /** Which goroutine steps are possible. Nothing here asks whether a channel written to is still
      open: Go would panic there, and `NeverPanics` shows it cannot happen. */
  predicate Enabled<F>(cfg: Config<F>, st: State<F>, a: Action<F>)
    requires Shaped(cfg, st)
  {
    match a
    case SourceSend(_) => !st.chans[0].closed && |st.chans[0].items| < cfg.Capacity()
    case SourceClose => !st.chans[0].closed
    case Receive(k) =>
      k < |st.stages| && st.stages[k].phase == Running && st.stages[k].pending == []
      && st.chans[k].items != []
    case SeeClosed(k) =>
      k < |st.stages| && st.stages[k].phase == Running && st.stages[k].pending == []
      && st.chans[k].items == [] && st.chans[k].closed
    case Send(k) =>
      k < |st.stages| && st.stages[k].pending != [] && |st.chans[k + 1].items| < cfg.Capacity()
    case Return(k) =>
      k < |st.stages| && st.stages[k].phase == Draining && st.stages[k].pending == []
    case Close(k) =>
      // An edge between operators is closed by the operator's goroutine, after it has closed
      // `outwrap` and has waited for the out-wrapper's `done`.
      k < |st.stages| && st.stages[k].phase == Returned
      && (k % 3 == 2 ==> st.stages[k - 1].phase == Closed)
    case TailReceive => !st.tailDone && st.chans[cfg.Stages()].items != []
    case TailExit =>
      !st.tailDone && st.chans[cfg.Stages()].items == [] && st.chans[cfg.Stages()].closed
  }

  function Apply<F>(cfg: Config<F>, st: State<F>, a: Action<F>): (st': State<F>)
    requires Shaped(cfg, st) && Enabled(cfg, st, a)
    ensures Shaped(cfg, st')
  {
    match a
    case SourceSend(x) =>
      st.(sent := st.sent + [x], chans := Push(st.chans, 0, x))
    case SourceClose =>
      st.(chans := st.chans[0 := st.chans[0].(closed := true)])
    case Receive(k) =>
      var s := st.stages[k];
      var x := st.chans[k].items[0];
      st.(chans := Pop(st.chans, k),
          stages := st.stages[k := s.(consumed := s.consumed + [x],
                                      pending := cfg.Chain()[k].emit(s.consumed, x))])
    case SeeClosed(k) =>
      var s := st.stages[k];
      st.(stages := st.stages[k := s.(pending := cfg.Chain()[k].flush(s.consumed), phase := Draining)])
    case Send(k) =>
      var s := st.stages[k];
      st.(chans := Push(st.chans, k + 1, s.pending[0]),
          stages := st.stages[k := s.(pending := s.pending[1..])])
    case Return(k) =>
      st.(stages := st.stages[k := st.stages[k].(phase := Returned)])
    case Close(k) =>
      st.(chans := st.chans[k + 1 := st.chans[k + 1].(closed := true)],
          stages := st.stages[k := st.stages[k].(phase := Closed)])
    case TailReceive =>
      st.(chans := Pop(st.chans, cfg.Stages()),
          delivered := st.delivered + [st.chans[cfg.Stages()].items[0]])
    case TailExit =>
      st.(tailDone := true)
  }

  function Push<F>(chans: seq<Channel<F>>, k: nat, x: F): seq<Channel<F>>
    requires k < |chans|
  {
    chans[k := chans[k].(items := chans[k].items + [x])]
  }

  function Pop<F>(chans: seq<Channel<F>>, k: nat): seq<Channel<F>>
    requires k < |chans| && chans[k].items != []
  {
    chans[k := chans[k].(items := chans[k].items[1..])]
  }

  // ---------- runs ----------

  predicate ValidRun<F>(cfg: Config<F>, st: State<F>, acts: seq<Action<F>>)
    requires Shaped(cfg, st)
    decreases |acts|
  {
    acts == [] || (Enabled(cfg, st, acts[0]) && ValidRun(cfg, Apply(cfg, st, acts[0]), acts[1..]))
  }

  function After<F>(cfg: Config<F>, st: State<F>, acts: seq<Action<F>>): (st': State<F>)
    requires Shaped(cfg, st) && ValidRun(cfg, st, acts)
    ensures Shaped(cfg, st')
    decreases |acts|
  {
    if acts == [] then st else After(cfg, Apply(cfg, st, acts[0]), acts[1..])
  }

  // ---------- the invariant ----------

  /** All frames ever put on channel `j`. */
  function Passed<F>(st: State<F>, j: nat): seq<F>
    requires j < |st.chans| == |st.stages| + 1
  {
    (if j < |st.stages| then st.stages[j].consumed else st.delivered) + st.chans[j].items
  }

  /** What a stage has emitted so far, sent or not. */
  function Produced<F>(op: Operator<F>, s: Stage<F>): seq<F> {
    if s.phase == Running then Output(op, s.consumed) else Complete(op, s.consumed)
  }

  ghost predicate StageInv<F>(cfg: Config<F>, st: State<F>, k: nat)
    requires Shaped(cfg, st) && k < cfg.Stages()
  {
    var s := st.stages[k];
    && Passed(st, k + 1) + s.pending == Produced(cfg.Chain()[k], s)
    && (st.chans[k + 1].closed <==> s.phase == Closed)
    && (s.phase != Running ==> st.chans[k].closed && st.chans[k].items == [])
    && (s.phase == Returned || s.phase == Closed ==> s.pending == [])
  }

  ghost predicate Inv<F>(cfg: Config<F>, st: State<F>) {
    && Shaped(cfg, st)
    && Passed(st, 0) == st.sent
    && (forall k: nat | k < cfg.Stages() :: StageInv(cfg, st, k))
    && (forall k: nat | k < |st.chans| :: |st.chans[k].items| <= cfg.Capacity())
    && (st.tailDone ==> st.chans[cfg.Stages()].closed && st.chans[cfg.Stages()].items == [])
  }

  lemma InitInv<F>(cfg: Config<F>)
    ensures Inv(cfg, Init(cfg))
  {
  }

  lemma OutputSnoc<F>(op: Operator<F>, h: seq<F>, x: F)
    ensures Output(op, h + [x]) == Output(op, h) + op.emit(h, x)
  {
    assert (h + [x])[..|h|] == h;
  }

  lemma InvSource<F>(cfg: Config<F>, st: State<F>, a: Action<F>)
    requires Inv(cfg, st) && Enabled(cfg, st, a) && (a.SourceSend? || a.SourceClose?)
    ensures Inv(cfg, Apply(cfg, st, a))
  {
    var st' := Apply(cfg, st, a);
    forall k: nat | k < cfg.Stages()
      ensures StageInv(cfg, st', k)
    {
      assert StageInv(cfg, st, k);
      assert Passed(st', k + 1) == Passed(st, k + 1);
    }
  }

  lemma InvReceive<F>(cfg: Config<F>, st: State<F>, j: nat)
    requires Inv(cfg, st) && Enabled(cfg, st, Receive(j))
    ensures Inv(cfg, Apply(cfg, st, Receive(j)))
  {
    hide Output, Config.Chain;
    var st' := Apply(cfg, st, Receive(j));
    var x := st.chans[j].items[0];
    forall i: nat | i < |st.chans|
      ensures Passed(st', i) == Passed(st, i)
    {
      if i == j {
        assert st.chans[j].items == [x] + st'.chans[j].items;
      }
    }
    forall k: nat | k < cfg.Stages()
      ensures StageInv(cfg, st', k)
    {
      assert StageInv(cfg, st, k);
      assert Passed(st', k + 1) == Passed(st, k + 1);
      if k == j {
        OutputSnoc(cfg.Chain()[k], st.stages[k].consumed, x);
      }
    }
  }

  /** A stage that still has frames to send has not closed its output. */
  lemma SenderIsOpen<F>(cfg: Config<F>, st: State<F>, j: nat)
    requires Inv(cfg, st) && j < cfg.Stages() && st.stages[j].pending != []
    ensures !st.chans[j + 1].closed
    ensures j + 1 < cfg.Stages() ==> st.stages[j + 1].phase == Running
    ensures !(j + 1 == cfg.Stages() && st.tailDone)
  {
    assert StageInv(cfg, st, j);
    if j + 1 < cfg.Stages() {
      assert StageInv(cfg, st, j + 1);
    }
  }

  lemma SendStage<F>(cfg: Config<F>, st: State<F>, j: nat)
    requires Inv(cfg, st) && Enabled(cfg, st, Send(j))
    ensures StageInv(cfg, Apply(cfg, st, Send(j)), j)
  {
    hide Output, Complete, Config.Chain;
    var st' := Apply(cfg, st, Send(j));
    assert StageInv(cfg, st, j);
    var x := st.stages[j].pending[0];
    var rest := st'.stages[j].pending;
    assert st.stages[j].pending == [x] + rest;
    assert Passed(st', j + 1) == Passed(st, j + 1) + [x];
    assert Passed(st, j + 1) + ([x] + rest) == Passed(st, j + 1) + [x] + rest;
  }

  lemma InvSend<F>(cfg: Config<F>, st: State<F>, j: nat)
    requires Inv(cfg, st) && Enabled(cfg, st, Send(j))
    ensures Inv(cfg, Apply(cfg, st, Send(j)))
  {
    var st' := Apply(cfg, st, Send(j));
    SenderIsOpen(cfg, st, j);
    forall k: nat | k < cfg.Stages()
      ensures StageInv(cfg, st', k)
    {
      if k == j {
        SendStage(cfg, st, j);
      } else {
        assert StageInv(cfg, st, k);
        assert Passed(st', k + 1) == Passed(st, k + 1);
      }
    }
  }

  lemma SeeClosedStage<F>(cfg: Config<F>, st: State<F>, j: nat, k: nat)
    requires Inv(cfg, st) && Enabled(cfg, st, SeeClosed(j)) && k < cfg.Stages()
    ensures StageInv(cfg, Apply(cfg, st, SeeClosed(j)), k)
  {
    hide Output, Config.Chain;
    var st' := Apply(cfg, st, SeeClosed(j));
    assert StageInv(cfg, st, k);
    assert Passed(st', k + 1) == Passed(st, k + 1);
    if k == j {
      assert Passed(st, j + 1) == Output(cfg.Chain()[j], st.stages[j].consumed);
    }
  }

  lemma InvSeeClosed<F>(cfg: Config<F>, st: State<F>, j: nat)
    requires Inv(cfg, st) && Enabled(cfg, st, SeeClosed(j))
    ensures Inv(cfg, Apply(cfg, st, SeeClosed(j)))
  {
    hide StageInv;
    forall k: nat | k < cfg.Stages()
      ensures StageInv(cfg, Apply(cfg, st, SeeClosed(j)), k)
    {
      SeeClosedStage(cfg, st, j, k);
    }
  }

  /** Ending a goroutine or closing its channel moves no frame. */
  lemma EndMovesNothing<F>(cfg: Config<F>, st: State<F>, a: Action<F>, k: nat)
    requires Shaped(cfg, st) && Enabled(cfg, st, a) && (a.Return? || a.Close?) && k < cfg.Stages()
    ensures var st' := Apply(cfg, st, a); var s, s' := st.stages[k], st'.stages[k];
            && s'.consumed == s.consumed && s'.pending == s.pending
            && s'.phase == (if k != a.k then s.phase else if a.Return? then Returned else Closed)
            && st'.chans[k].items == st.chans[k].items && (st.chans[k].closed ==> st'.chans[k].closed)
            && (st'.chans[k + 1].closed <==> st.chans[k + 1].closed || (a.Close? && k == a.k))
            && Passed(st', k + 1) == Passed(st, k + 1)
  {
  }

  lemma EndStage<F>(cfg: Config<F>, st: State<F>, a: Action<F>, k: nat)
    requires Inv(cfg, st) && Enabled(cfg, st, a) && (a.Return? || a.Close?) && k < cfg.Stages()
    ensures StageInv(cfg, Apply(cfg, st, a), k)
  {
    EndMovesNothing(cfg, st, a, k);
    assert StageInv(cfg, st, k);
    hide Output, Complete, Config.Chain, Apply, Passed;
  }

  lemma InvEnd<F>(cfg: Config<F>, st: State<F>, a: Action<F>)
    requires Inv(cfg, st) && Enabled(cfg, st, a) && (a.Return? || a.Close?)
    ensures Inv(cfg, Apply(cfg, st, a))
  {
    hide StageInv;
    forall k: nat | k < cfg.Stages()
      ensures StageInv(cfg, Apply(cfg, st, a), k)
    {
      EndStage(cfg, st, a, k);
    }
  }

  lemma InvTail<F>(cfg: Config<F>, st: State<F>, a: Action<F>)
    requires Inv(cfg, st) && Enabled(cfg, st, a) && (a.TailReceive? || a.TailExit?)
    ensures Inv(cfg, Apply(cfg, st, a))
  {
    hide Output, Complete, Config.Chain;
    var st' := Apply(cfg, st, a);
    var m := cfg.Stages();
    if a.TailReceive? {
      assert st.chans[m].items == [st.chans[m].items[0]] + st'.chans[m].items;
    }
    assert Passed(st', m) == Passed(st, m);
    forall k: nat | k < m
      ensures StageInv(cfg, st', k)
    {
      assert StageInv(cfg, st, k);
      assert Passed(st', k + 1) == Passed(st, k + 1);
    }
  }

  lemma StepKeepsInv<F>(cfg: Config<F>, st: State<F>, a: Action<F>)
    requires Inv(cfg, st) && Enabled(cfg, st, a)
    ensures Inv(cfg, Apply(cfg, st, a))
  {
    match a
    case SourceSend(_) => InvSource(cfg, st, a);
    case SourceClose => InvSource(cfg, st, a);
    case Receive(k) => InvReceive(cfg, st, k);
    case SeeClosed(k) => InvSeeClosed(cfg, st, k);
    case Send(k) => InvSend(cfg, st, k);
    case Return(_) => InvEnd(cfg, st, a);
    case Close(_) => InvEnd(cfg, st, a);
    case TailReceive => InvTail(cfg, st, a);
    case TailExit => InvTail(cfg, st, a);
  }

  lemma {:induction false} RunKeepsInv<F>(cfg: Config<F>, st: State<F>, acts: seq<Action<F>>)
    requires Inv(cfg, st) && ValidRun(cfg, st, acts)
    ensures Inv(cfg, After(cfg, st, acts))
    decreases |acts|
  {
    if acts != [] {
      StepKeepsInv(cfg, st, acts[0]);
      RunKeepsInv(cfg, Apply(cfg, st, acts[0]), acts[1..]);
    }
  }

  // ---------- safety: prefixes of the composition, no panic ----------

  lemma {:induction false} OutputMonotone<F>(op: Operator<F>, h: seq<F>, full: seq<F>)
    requires h <= full
    ensures Output(op, h) <= Output(op, full)
    decreases |full|
  {
    if h != full {
      var shorter := full[..|full| - 1];
      assert h <= shorter;
      OutputMonotone(op, h, shorter);
    }
  }

  lemma {:induction false} ForwardCopies<F>(h: seq<F>)
    ensures Complete(Forward<F>(), h) == Output(Forward<F>(), h) == h
  {
    if h != [] {
      ForwardCopies(h[..|h| - 1]);
      assert h == h[..|h| - 1] + [h[|h| - 1]];
    }
  }

  lemma OneOperator<F>(chain: seq<Operator<F>>, k: nat, op: Operator<F>, source: seq<F>)
    requires k + 3 <= |chain|
    requires chain[k] == Forward<F>() && chain[k + 1] == op && chain[k + 2] == Forward<F>()
    ensures Composition(chain, k + 3, source) == Complete(op, Composition(chain, k, source))
  {
    var input := Composition(chain, k, source);
    ForwardCopies(input);
    assert Composition(chain, k + 1, source) == input;
    assert Composition(chain, k + 2, source) == Complete(op, input);
    ForwardCopies(Complete(op, input));
  }

  /** The helper goroutines change nothing: three stages amount to one operator. */
  lemma {:induction false} WrappersAreTransparent<F>(cfg: Config<F>, n: nat, source: seq<F>)
    requires n <= |cfg.ops|
    ensures Composition(cfg.Chain(), 3 * n, source) == Composition(cfg.ops, n, source)
  {
    hide Complete;
    if n > 0 {
      var k := 3 * (n - 1);
      WrappersAreTransparent(cfg, n - 1, source);
      OneOperator(cfg.Chain(), k, cfg.ops[n - 1], source);
    }
  }

  /** `source` is a stream the caller may still complete `sent` to. */
  ghost predicate MayBecome<F>(st: State<F>, source: seq<F>)
    requires st.chans != []
  {
    st.sent <= source && (st.chans[0].closed ==> st.sent == source)
  }

  lemma {:induction false} ChannelPrefix<F>(cfg: Config<F>, st: State<F>, source: seq<F>, j: nat)
    requires Inv(cfg, st) && MayBecome(st, source) && j <= cfg.Stages()
    ensures Passed(st, j) <= Composition(cfg.Chain(), j, source)
    ensures st.chans[j].closed ==> Passed(st, j) == Composition(cfg.Chain(), j, source)
  {
    hide Output, Config.Chain;
    if j > 0 {
      var k := j - 1;
      ChannelPrefix(cfg, st, source, k);
      assert StageInv(cfg, st, k);
      var op, s, ideal := cfg.Chain()[k], st.stages[k], Composition(cfg.Chain(), k, source);
      assert s.consumed <= Passed(st, k);
      if s.phase == Running {
        OutputMonotone(op, s.consumed, ideal);
      } else {
        assert s.consumed == ideal;
      }
    }
  }

  /** What has left operator `i` (the frames ever put on the edge after it) is, in every reachable
      state, a prefix of the first `i` operators applied to any completion of the source. */
  lemma EveryRunIsPrefix<F>(cfg: Config<F>, acts: seq<Action<F>>, source: seq<F>, i: nat)
    requires i <= |cfg.ops| && ValidRun(cfg, Init(cfg), acts)
    requires MayBecome(After(cfg, Init(cfg), acts), source)
    ensures Passed(After(cfg, Init(cfg), acts), 3 * i) <= Composition(cfg.ops, i, source)
  {
    InitInv(cfg);
    RunKeepsInv(cfg, Init(cfg), acts);
    ChannelPrefix(cfg, After(cfg, Init(cfg), acts), source, 3 * i);
    WrappersAreTransparent(cfg, i, source);
  }

  predicate Sends<F>(a: Action<F>, channel: nat) {
    (a.SourceSend? && channel == 0) || (a.Send? && channel == a.k + 1)
  }

  predicate Closes<F>(a: Action<F>, channel: nat) {
    (a.SourceClose? && channel == 0) || (a.Close? && channel == a.k + 1)
  }

  lemma WriterIsOpen<F>(cfg: Config<F>, st: State<F>, a: Action<F>, j: nat)
    requires Inv(cfg, st) && Enabled(cfg, st, a) && j <= cfg.Stages() && (Sends(a, j) || Closes(a, j))
    ensures !st.chans[j].closed && |st.chans[j].items| <= cfg.Capacity()
  {
    hide Output, Complete, Config.Chain, Passed;
    if j > 0 {
      assert StageInv(cfg, st, j - 1);
    }
  }

  /** No goroutine ever sends on a closed channel or closes a channel twice, and no buffer ever
      holds more than its capacity. */
  lemma NeverPanics<F>(cfg: Config<F>, acts: seq<Action<F>>, a: Action<F>, j: nat)
    requires ValidRun(cfg, Init(cfg), acts) && j <= cfg.Stages()
    requires Enabled(cfg, After(cfg, Init(cfg), acts), a) && (Sends(a, j) || Closes(a, j))
    ensures !After(cfg, Init(cfg), acts).chans[j].closed
    ensures |After(cfg, Init(cfg), acts).chans[j].items| <= cfg.Capacity()
  {
    hide ValidRun, After, StageInv, Inv, Init;
    InitInv(cfg);
    RunKeepsInv(cfg, Init(cfg), acts);
    WriterIsOpen(cfg, After(cfg, Init(cfg), acts), a, j);
  }

  // ---------- liveness after the source closes ----------

  ghost predicate Stuck<F(!new)>(cfg: Config<F>, st: State<F>)
    requires Shaped(cfg, st)
  {
    forall a: Action<F> :: !Enabled(cfg, st, a)
  }

  /** Every goroutine has exited, so `wait` returns, and every channel is closed and empty. */
  ghost predicate Finished<F>(cfg: Config<F>, st: State<F>)
    requires Shaped(cfg, st)
  {
    && (forall k: nat | k < cfg.Stages() :: st.stages[k].phase == Closed)
    && (forall j: nat | j <= cfg.Stages() :: st.chans[j].closed && st.chans[j].items == [])
    && st.tailDone
  }

  lemma {:induction false} StuckChannelsAreEmpty<F(!new)>(cfg: Config<F>, st: State<F>, j: nat)
    requires Inv(cfg, st) && Stuck(cfg, st) && j <= cfg.Stages()
    ensures st.chans[j].items == []
    ensures j < cfg.Stages() ==> st.stages[j].pending == []
    decreases cfg.Stages() - j
  {
    if j == cfg.Stages() {
      assert !Enabled(cfg, st, TailReceive);
    } else {
      StuckChannelsAreEmpty(cfg, st, j + 1);
      assert StageInv(cfg, st, j);
      assert !Enabled(cfg, st, Send(j)) && !Enabled(cfg, st, Receive(j));
    }
  }

  lemma {:induction false} StuckChannelsAreClosed<F(!new)>(cfg: Config<F>, st: State<F>, j: nat)
    requires Inv(cfg, st) && Stuck(cfg, st) && st.chans[0].closed && j <= cfg.Stages()
    ensures st.chans[j].closed
    ensures j > 0 ==> st.stages[j - 1].phase == Closed
  {
    if j > 0 {
      var k := j - 1;
      StuckChannelsAreClosed(cfg, st, k);
      StuckChannelsAreEmpty(cfg, st, k);
      assert StageInv(cfg, st, k);
      assert !Enabled(cfg, st, SeeClosed(k)) && !Enabled(cfg, st, Return(k)) && !Enabled(cfg, st, Close(k));
    }
  }

  /** Once the source is closed, the only states without an enabled step are the finished ones:
      whatever the buffer size, the network never deadlocks. */
  lemma NoDeadlock<F(!new)>(cfg: Config<F>, st: State<F>)
    requires Inv(cfg, st) && st.chans[0].closed
    ensures Stuck(cfg, st) <==> Finished(cfg, st)
  {
    if Stuck(cfg, st) {
      forall j: nat | j <= cfg.Stages()
        ensures st.chans[j].closed && st.chans[j].items == []
        ensures j > 0 ==> st.stages[j - 1].phase == Closed
      {
        StuckChannelsAreEmpty(cfg, st, j);
        StuckChannelsAreClosed(cfg, st, j);
      }
      forall k: nat | k < cfg.Stages()
        ensures st.stages[k].phase == Closed
      {
        StuckChannelsAreClosed(cfg, st, k + 1);
      }
      assert !Enabled(cfg, st, TailExit);
    }
    if Finished(cfg, st) {
      forall a: Action<F>
        ensures !Enabled(cfg, st, a)
      {
        if a.Send? && a.k < cfg.Stages() {
          assert StageInv(cfg, st, a.k);
        }
      }
    }
  }

  /** The steps stage `k` still has to take, given that the source is complete. */
  function StageWork<F>(cfg: Config<F>, st: State<F>, k: nat): int
    requires Shaped(cfg, st) && k < cfg.Stages()
  {
    |Composition(cfg.Chain(), k, st.sent)| - |st.stages[k].consumed|
    + |Composition(cfg.Chain(), k + 1, st.sent)| - |Passed(st, k + 1)|
    + 3 - st.stages[k].phase.Rank()
  }

  function Sum(s: seq<int>): int {
    if s == [] then 0 else Sum(s[..|s| - 1]) + s[|s| - 1]
  }

  lemma {:induction false} SumAfterUpdate(s: seq<int>, j: nat, x: int)
    requires j < |s|
    ensures Sum(s[j := x]) == Sum(s) - s[j] + x
  {
    var n := |s| - 1;
    if j < n {
      assert s[j := x][..n] == s[..n][j := x];
      SumAfterUpdate(s[..n], j, x);
    } else {
      assert s[j := x][..n] == s[..n];
    }
  }

  function StageWorks<F>(cfg: Config<F>, st: State<F>): seq<int>
    requires Shaped(cfg, st)
  {
    seq(cfg.Stages(), k requires 0 <= k < cfg.Stages() => StageWork(cfg, st, k))
  }

  function Work<F>(cfg: Config<F>, st: State<F>): int
    requires Shaped(cfg, st)
  {
    Sum(StageWorks(cfg, st))
    + |Composition(cfg.Chain(), cfg.Stages(), st.sent)| - |st.delivered| + (if st.tailDone then 0 else 1)
  }

  lemma PassedAfterStep<F>(cfg: Config<F>, st: State<F>, a: Action<F>, j: nat)
    requires Shaped(cfg, st) && Enabled(cfg, st, a) && !a.SourceSend? && j <= cfg.Stages()
    ensures |Passed(Apply(cfg, st, a), j)| == |Passed(st, j)| + if a.Send? && j == a.k + 1 then 1 else 0
  {
  }

  lemma StageWorkAfterStep<F>(cfg: Config<F>, st: State<F>, a: Action<F>, k: nat)
    requires Shaped(cfg, st) && Enabled(cfg, st, a) && k < cfg.Stages()
    requires a.Receive? || a.SeeClosed? || a.Send? || a.Return? || a.Close?
    ensures StageWork(cfg, Apply(cfg, st, a), k) == StageWork(cfg, st, k) - if k == a.k then 1 else 0
  {
    hide Composition, Config.Chain, Output, Complete;
    PassedAfterStep(cfg, st, a, k + 1);
  }

  lemma WorkDrops<F>(cfg: Config<F>, st: State<F>, st': State<F>, j: nat)
    requires Shaped(cfg, st) && Shaped(cfg, st') && j < cfg.Stages()
    requires st'.sent == st.sent && st'.delivered == st.delivered && st'.tailDone == st.tailDone
    requires forall k: nat | k < cfg.Stages() ::
               StageWork(cfg, st', k) == StageWork(cfg, st, k) - if k == j then 1 else 0
    ensures Work(cfg, st') == Work(cfg, st) - 1
  {
    assert StageWorks(cfg, st') == StageWorks(cfg, st)[j := StageWork(cfg, st, j) - 1];
    SumAfterUpdate(StageWorks(cfg, st), j, StageWork(cfg, st, j) - 1);
  }

  lemma StageStepCost<F>(cfg: Config<F>, st: State<F>, a: Action<F>)
    requires Shaped(cfg, st) && Enabled(cfg, st, a)
    requires a.Receive? || a.SeeClosed? || a.Send? || a.Return? || a.Close?
    ensures Work(cfg, Apply(cfg, st, a)) == Work(cfg, st) - 1
  {
    forall k: nat | k < cfg.Stages()
      ensures StageWork(cfg, Apply(cfg, st, a), k) == StageWork(cfg, st, k) - if k == a.k then 1 else 0
    {
      StageWorkAfterStep(cfg, st, a, k);
    }
    WorkDrops(cfg, st, Apply(cfg, st, a), a.k);
  }

  lemma TailStepCost<F>(cfg: Config<F>, st: State<F>, a: Action<F>)
    requires Shaped(cfg, st) && Enabled(cfg, st, a) && (a.TailReceive? || a.TailExit?)
    ensures Work(cfg, Apply(cfg, st, a)) == Work(cfg, st) - 1
  {
    var st' := Apply(cfg, st, a);
    forall k: nat | k < cfg.Stages()
      ensures StageWork(cfg, st', k) == StageWork(cfg, st, k)
    {
      PassedAfterStep(cfg, st, a, k + 1);
    }
    assert StageWorks(cfg, st') == StageWorks(cfg, st);
  }

  /** With the source closed, every step of every schedule lowers `Work` by exactly one. */
  lemma {:induction false} RunCost<F>(cfg: Config<F>, st: State<F>, acts: seq<Action<F>>)
    requires Inv(cfg, st) && st.chans[0].closed && ValidRun(cfg, st, acts)
    ensures |acts| + Work(cfg, After(cfg, st, acts)) == Work(cfg, st)
    ensures After(cfg, st, acts).chans[0].closed && After(cfg, st, acts).sent == st.sent
    decreases |acts|
  {
    if acts != [] {
      var a := acts[0];
      StepKeepsInv(cfg, st, a);
      if a.TailReceive? || a.TailExit? {
        TailStepCost(cfg, st, a);
      } else {
        StageStepCost(cfg, st, a);
      }
      RunCost(cfg, Apply(cfg, st, a), acts[1..]);
    }
  }

  lemma {:induction false} SumOfNats(s: seq<int>)
    requires forall i :: 0 <= i < |s| ==> s[i] >= 0
    ensures Sum(s) >= 0
    ensures (forall i :: 0 <= i < |s| ==> s[i] == 0) ==> Sum(s) == 0
  {
    if s != [] {
      SumOfNats(s[..|s| - 1]);
    }
  }

  lemma StageWorkIsNatural<F>(cfg: Config<F>, st: State<F>, k: nat)
    requires Inv(cfg, st) && st.chans[0].closed && k < cfg.Stages()
    ensures StageWork(cfg, st, k) >= 0
    ensures Finished(cfg, st) ==> StageWork(cfg, st, k) == 0
  {
    hide StageInv, Config.Chain, Composition;
    ChannelPrefix(cfg, st, st.sent, k);
    ChannelPrefix(cfg, st, st.sent, k + 1);
  }

  lemma WorkIsNatural<F>(cfg: Config<F>, st: State<F>)
    requires Inv(cfg, st) && st.chans[0].closed
    ensures Work(cfg, st) >= 0
    ensures Finished(cfg, st) ==> Work(cfg, st) == 0
  {
    hide StageInv, StageWork, Config.Chain, Composition;
    forall k: nat | k < cfg.Stages()
      ensures StageWork(cfg, st, k) >= 0
      ensures Finished(cfg, st) ==> StageWork(cfg, st, k) == 0
    {
      StageWorkIsNatural(cfg, st, k);
    }
    SumOfNats(StageWorks(cfg, st));
    ChannelPrefix(cfg, st, st.sent, cfg.Stages());
  }

  /** Every schedule terminates: after the source closes a run has at most `Work` steps, and it has
      exactly that many when nothing is left to do. */
  lemma EveryScheduleTerminates<F(!new)>(cfg: Config<F>, st: State<F>, acts: seq<Action<F>>)
    requires Inv(cfg, st) && st.chans[0].closed && ValidRun(cfg, st, acts)
    ensures |acts| <= Work(cfg, st)
    ensures Stuck(cfg, After(cfg, st, acts)) ==> |acts| == Work(cfg, st)
  {
    var last := After(cfg, st, acts);
    RunCost(cfg, st, acts);
    RunKeepsInv(cfg, st, acts);
    WorkIsNatural(cfg, last);
    NoDeadlock(cfg, last);
  }

  /** Graceful end of stream: a run that closes the source and goes on until no step is possible has
      delivered the whole composition, and every goroutine and channel has ended. */
  lemma CompleteRunDeliversComposition<F(!new)>(cfg: Config<F>, acts: seq<Action<F>>)
    requires ValidRun(cfg, Init(cfg), acts)
    requires After(cfg, Init(cfg), acts).chans[0].closed && Stuck(cfg, After(cfg, Init(cfg), acts))
    ensures var last := After(cfg, Init(cfg), acts);
            Finished(cfg, last) && last.delivered == Composition(cfg.ops, |cfg.ops|, last.sent)
  {
    var last := After(cfg, Init(cfg), acts);
    InitInv(cfg);
    RunKeepsInv(cfg, Init(cfg), acts);
    NoDeadlock(cfg, last);
    ChannelPrefix(cfg, last, last.sent, cfg.Stages());
    WrappersAreTransparent(cfg, |cfg.ops|, last.sent);
  }
}
