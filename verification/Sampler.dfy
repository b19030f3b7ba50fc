/** The frame sampler: one frame out of every `step`, as a concrete operator of the runtime. */
module Sampler {
  import opened Pipeline
  import opened IntArith

  datatype SamplerConfig = SamplerConfig(sourceFPS: int, targetFPS: int) {
    /** A target that is absent or above the source rate means no sampling. */
    function Normalized(): SamplerConfig {
      if targetFPS <= 0 || targetFPS > sourceFPS then this.(targetFPS := sourceFPS) else this
    }

    function Step(): (step: nat)
      ensures step >= 1
      ensures 0 < targetFPS <= sourceFPS ==> step * targetFPS <= sourceFPS < (step + 1) * targetFPS
      ensures targetFPS <= 0 || targetFPS > sourceFPS ==> step == 1
    {
      // Both rates are positive where they are divided, so Go's truncation is Dafny's division.
      var c := Normalized();
      if c.targetFPS > 0 then
        var step := c.sourceFPS / c.targetFPS;
        if step < 1 then 1 else step
      else 1
    }
  }

  function SamplerOp<F>(step: nat): Operator<F>
    requires step >= 1
  {
    Operator((h: seq<F>, x: F) => if |h| % step == 0 then [x] else [], (h: seq<F>) => [])
  }

  /** The operator's loop over its input channel, up to the close of the channel. */
  method Run<F>(cfg: SamplerConfig, input: seq<F>) returns (out: seq<F>)
    ensures out == Complete(SamplerOp(cfg.Step()), input)
  {
    var step := cfg.Step();
    out := [];
    var i := 0;
    while i < |input|
      invariant 0 <= i <= |input|
      invariant out == Output(SamplerOp(step), input[..i])
    {
      OutputSnoc(SamplerOp(step), input[..i], input[i]);
      assert input[..i + 1] == input[..i] + [input[i]];
      if i % step == 0 {
        out := out + [input[i]];
      }
      i := i + 1;
    }
    assert input[..i] == input;
  }

  /** `count` is `n / step` rounded up. */
  predicate IsCeiling(count: nat, n: nat, step: nat) {
    n <= count * step < n + step
  }

  lemma MultipleIffCeilingExact(n: nat, step: nat, count: nat)
    requires step >= 1 && IsCeiling(count, n, step)
    ensures n % step == 0 <==> n == count * step
  {
    var q := n / step;
    DivMod(n, step);
    if q < count {
      MulGap(q, count, step);
    } else if q > count {
      MulGap(count, q, step);
    }
  }

  /** The sampled stream in terms of the input's indices: frame `j` of the output is frame
      `j * step` of the input, and the output stops where the input does. */
  lemma {:induction false} SampledFrames<F>(step: nat, h: seq<F>)
    requires step >= 1
    ensures var out := Output(SamplerOp(step), h);
            && IsCeiling(|out|, |h|, step)
            && forall j: nat | j < |out| :: j * step < |h| && out[j] == h[j * step]
  {
    if h == [] {
      assert 0 * step == 0;
    } else {
      var n := |h| - 1;
      var before := Output(SamplerOp(step), h[..n]);
      SampledFrames(step, h[..n]);
      MultipleIffCeilingExact(n, step, |before|);
      assert (|before| + 1) * step == |before| * step + step;
    }
  }

  lemma CeilingUnique(c: nat, d: nat, n: nat, step: nat)
    requires step >= 1 && IsCeiling(c, n, step) && IsCeiling(d, n, step)
    ensures c == d
  {
    if c < d {
      MulGap(c, d, step);
    } else if d < c {
      MulGap(d, c, step);
    }
  }

  /** At most `targetFPS` frames per second leave the sampler on a stream of whole seconds. */
  ghost predicate WithinBudget<F>(cfg: SamplerConfig, seconds: nat, h: seq<F>) {
    |h| == seconds * cfg.sourceFPS ==> |Complete(SamplerOp(cfg.Step()), h)| <= seconds * cfg.targetFPS
  }

  lemma StepDivides(cfg: SamplerConfig)
    requires 0 < cfg.targetFPS <= cfg.sourceFPS
    ensures cfg.sourceFPS % cfg.targetFPS == 0 <==> cfg.sourceFPS == cfg.targetFPS * cfg.Step()
    ensures cfg.targetFPS * cfg.Step() <= cfg.sourceFPS
  {
  }

  lemma DividingTargetIsKept<F>(cfg: SamplerConfig, seconds: nat, h: seq<F>)
    requires 0 < cfg.targetFPS <= cfg.sourceFPS && cfg.sourceFPS % cfg.targetFPS == 0
    ensures WithinBudget(cfg, seconds, h)
  {
    var s, t, step := cfg.sourceFPS, cfg.targetFPS, cfg.Step();
    StepDivides(cfg);
    if |h| == seconds * s {
      SampledFrames(step, h);
      Reassociate(seconds, t, step);
      CeilingUnique(|Output(SamplerOp(step), h)|, seconds * t, seconds * s, step);
    }
  }

  lemma Reassociate(a: nat, b: nat, c: nat)
    ensures a * (b * c) == (a * b) * c
  {
  }

  lemma OtherTargetIsExceeded<F>(cfg: SamplerConfig, h: seq<F>)
    requires 0 < cfg.targetFPS <= cfg.sourceFPS && cfg.sourceFPS % cfg.targetFPS != 0
    requires |h| == cfg.sourceFPS
    ensures !WithinBudget(cfg, 1, h)
  {
    var t, step := cfg.targetFPS, cfg.Step();
    StepDivides(cfg);
    SampledFrames(step, h);
    var out := |Output(SamplerOp(step), h)|;
    if out < t {
      MulGap(out, t, step);
    }
  }

  /** The budget is kept on every stream only when the target rate divides the source rate: the step
      is rounded down, so every other configuration lets through more than the target. */
  lemma BudgetKeptIffTargetDividesSource<F(!new)>(cfg: SamplerConfig, anyFrame: F)
    requires 0 < cfg.targetFPS <= cfg.sourceFPS
    ensures (forall seconds: nat, h: seq<F> :: WithinBudget(cfg, seconds, h))
            <==> cfg.sourceFPS % cfg.targetFPS == 0
  {
    if cfg.sourceFPS % cfg.targetFPS == 0 {
      forall seconds: nat, h: seq<F>
        ensures WithinBudget(cfg, seconds, h)
      {
        DividingTargetIsKept(cfg, seconds, h);
      }
    } else {
      OtherTargetIsExceeded(cfg, seq(cfg.sourceFPS, _ => anyFrame));
    }
  }
}
