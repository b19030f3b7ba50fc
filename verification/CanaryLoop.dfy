/** The reconciliation loop and the plan store it writes, and what any run of ticks does to a plan. */
module CanaryLoop {
  import opened Options
  import opened Wilson
  import opened Canary

  type PlanId = string

  /** What one tick sees of one plan: the aggregates of the observation window, the tick's clock,
      and the clock the store reads when it writes a decision. */
  datatype TickInput = TickInput(now: Time, baseline: Observation, candidate: Observation, appliedAt: Time)

  function VerdictOf(sqrt: real -> real, p: Plan, t: TickInput): Verdict
    requires 0 <= p.currentStep < |p.ladder|
  {
    AssessRegression(sqrt, RegressionInput(t.baseline, t.candidate, p.maxProportionDelta,
                                           p.maxLatencyP95MsDelta, p.ladder[p.currentStep].minSamples))
  }

  /** The decision a tick applies to a plan, if any. A negative step would index the ladder out of
      range (Go panics), so callers must not have one; ticks never create one. */
  function TickOne(sqrt: real -> real, p: Plan, t: TickInput): Option<Decision>
    requires p.currentStep >= 0
  {
    if p.ladder == [] || p.currentStep >= |p.ladder| then None
    else
      var d := Next(p, VerdictOf(sqrt, p, t), t.now);
      if d.newStatus == p.status && d.newStep == p.currentStep then None else Some(d)
  }

  function Applied(p: Plan, d: Decision, at: Time): Plan {
    if d.newStep < 0 then p.(status := d.newStatus, failure := d.failure)
    else p.(status := d.newStatus, currentStep := d.newStep, lastStepAt := Some(at), failure := d.failure)
  }

  /** The rows the loop selects, minus the two operator-controlled statuses it skips. */
  predicate Ticked(p: Plan) {
    p.status.Ramping? || p.status.Holding?
  }

  predicate Listed(p: Plan) {
    Ticked(p) || p.status.Draft? || p.status.Paused?
  }

  predicate Changes(sqrt: real -> real, p: Plan, t: TickInput)
    requires p.currentStep >= 0
  {
    Ticked(p) && TickOne(sqrt, p, t).Some?
  }

  /** A plan after one tick that reaches it. */
  function TickPlan(sqrt: real -> real, p: Plan, t: TickInput): Plan
    requires p.currentStep >= 0
  {
    if Changes(sqrt, p, t) then Applied(p, TickOne(sqrt, p, t).value, t.appliedAt) else p
  }

  class Store {
    var plans: map<PlanId, Plan>

    constructor ()
      ensures plans == map[]
    {
      plans := map[];
    }

    /** An UPDATE by primary key: no row, no effect. */
    method ApplyDecision(id: PlanId, d: Decision, at: Time)
      modifies this
      ensures plans == if id in old(plans) then old(plans)[id := Applied(old(plans)[id], d, at)] else old(plans)
      ensures id in old(plans) ==>
                var p, q := old(plans)[id], plans[id];
                && q.status == d.newStatus && q.failure == d.failure
                && q.currentStep == (if d.newStep < 0 then p.currentStep else d.newStep)
                && q.lastStepAt == (if d.newStep < 0 then p.lastStepAt else Some(at))
                && q.ladder == p.ladder && q.autoPromote == p.autoPromote
                && q.maxProportionDelta == p.maxProportionDelta
                && q.maxLatencyP95MsDelta == p.maxLatencyP95MsDelta
    {
      if id in plans {
        var p := plans[id];
        if d.newStep < 0 {
          plans := plans[id := p.(status := d.newStatus, failure := d.failure)];
        } else {
          plans := plans[id := p.(status := d.newStatus, currentStep := d.newStep,
                                  lastStepAt := Some(at), failure := d.failure)];
        }
      }
    }
  }

  /** What a tick finds when it gets to each plan. */
  datatype TickEnv = TickEnv(
    now: Time,
    baseline: PlanId -> Observation,
    candidate: PlanId -> Observation,
    appliedAt: PlanId -> Time)
  {
    function For(id: PlanId): TickInput {
      TickInput(now, baseline(id), candidate(id), appliedAt(id))
    }
  }

  /** `rows` is the answer of the active-plans query: distinct keys of listed plans, in any order and
      possibly cut short by its LIMIT. */
  ghost predicate ActiveRows(plans: map<PlanId, Plan>, rows: seq<PlanId>) {
    && (forall i, j :: 0 <= i < j < |rows| ==> rows[i] != rows[j])
    && (forall id :: id in rows ==> id in plans && Listed(plans[id]))
  }

  /** Every row is ticked once and no other plan changes. */
  function AfterRows(sqrt: real -> real, plans: map<PlanId, Plan>, rows: seq<PlanId>, env: TickEnv): map<PlanId, Plan>
    requires forall id :: id in plans ==> plans[id].currentStep >= 0
  {
    map id | id in plans :: if id in rows then TickPlan(sqrt, plans[id], env.For(id)) else plans[id]
  }

  /** The number of rows a tick changes. */
  function ChangedRows(sqrt: real -> real, plans: map<PlanId, Plan>, rows: seq<PlanId>, env: TickEnv): nat
    requires forall id :: id in plans ==> plans[id].currentStep >= 0
    requires forall id :: id in rows ==> id in plans
  {
    if rows == [] then 0
    else
      var n := |rows| - 1;
      ChangedRows(sqrt, plans, rows[..n], env) + if Changes(sqrt, plans[rows[n]], env.For(rows[n])) then 1 else 0
  }

  lemma RowsSnoc(sqrt: real -> real, plans: map<PlanId, Plan>, rows: seq<PlanId>, i: nat, env: TickEnv)
    requires ActiveRows(plans, rows) && i < |rows|
    requires forall id :: id in plans ==> plans[id].currentStep >= 0
    ensures var id := rows[i];
            && id in plans && AfterRows(sqrt, plans, rows[..i], env)[id] == plans[id]
            && AfterRows(sqrt, plans, rows[..i + 1], env)
               == AfterRows(sqrt, plans, rows[..i], env)[id := TickPlan(sqrt, plans[id], env.For(id))]
            && ChangedRows(sqrt, plans, rows[..i + 1], env)
               == ChangedRows(sqrt, plans, rows[..i], env) + if Changes(sqrt, plans[id], env.For(id)) then 1 else 0
  {
    assert rows[..i + 1] == rows[..i] + [rows[i]];
    assert rows[..i + 1][..i] == rows[..i];
  }

  lemma NoRows(sqrt: real -> real, plans: map<PlanId, Plan>, env: TickEnv)
    requires forall id :: id in plans ==> plans[id].currentStep >= 0
    ensures AfterRows(sqrt, plans, [], env) == plans && ChangedRows(sqrt, plans, [], env) == 0
  {
  }

  class Reconciler {
    const store: Store
    const sqrt: real -> real

    constructor (store: Store, sqrt: real -> real)
      ensures this.store == store && this.sqrt == sqrt
    {
      this.store := store;
      this.sqrt := sqrt;
    }

    method Tick(rows: seq<PlanId>, env: TickEnv) returns (changes: nat)
      requires ActiveRows(store.plans, rows)
      requires forall id :: id in store.plans ==> store.plans[id].currentStep >= 0
      modifies store
      ensures store.plans == AfterRows(sqrt, old(store.plans), rows, env)
      ensures changes == ChangedRows(sqrt, old(store.plans), rows, env)
    {
      hide TickOne, AfterRows, ChangedRows;
      NoRows(sqrt, store.plans, env);
      ghost var before := store.plans;
      var plans := store.plans;
      changes := 0;
      for i := 0 to |rows|
        invariant store.plans == AfterRows(sqrt, before, rows[..i], env) && store.plans.Keys == before.Keys
        invariant changes == ChangedRows(sqrt, before, rows[..i], env)
      {
        var id := rows[i];
        var p := plans[id];
        RowsSnoc(sqrt, before, rows, i, env);
        if p.status.Draft? || p.status.Paused? {
          continue;
        }
        var d := TickOne(sqrt, p, env.For(id));
        if d.Some? {
          store.ApplyDecision(id, d.value, env.appliedAt(id));
          changes := changes + 1;
        }
      }
      assert rows[..|rows|] == rows;
    }
  }

  // ---------- one tick ----------

  predicate EnoughSamples(p: Plan, t: TickInput)
    requires 0 <= p.currentStep < |p.ladder|
  {
    var m := p.ladder[p.currentStep].minSamples;
    t.baseline.Total() >= m && t.candidate.Total() >= m
  }

  /** The step rises exactly when a ticked plan below the ladder's end has been held long enough and
      both variants, at the step's sample floor, are found non-inferior. */
  lemma RiseCondition(sqrt: real -> real, p: Plan, t: TickInput)
    requires p.currentStep >= 0
    ensures TickPlan(sqrt, p, t).currentStep > p.currentStep <==>
            && Ticked(p) && p.currentStep < |p.ladder|
            && EnoughSamples(p, t) && VerdictOf(sqrt, p, t).reason == NonInferior
            && HoldElapsed(p, p.ladder[p.currentStep], t.now)
  {
  }

  /** A tick rolls a plan back exactly when it is ticked below the ladder's end, both variants have the
      step's samples, and the candidate is found regressed. */
  lemma RollbackCondition(sqrt: real -> real, p: Plan, t: TickInput)
    requires p.currentStep >= 0 && p.status != RolledBack
    ensures TickPlan(sqrt, p, t).status == RolledBack <==>
            && Ticked(p) && p.currentStep < |p.ladder|
            && EnoughSamples(p, t)
            && (VerdictOf(sqrt, p, t).reason == ProportionRegression
                || VerdictOf(sqrt, p, t).reason == LatencyRegression)
  {
  }

  /** All a tick can do to the step, the status and the step clock. */
  lemma StepDiscipline(sqrt: real -> real, p: Plan, t: TickInput)
    requires p.currentStep >= 0
    ensures var q := TickPlan(sqrt, p, t);
            || q == p
            || (q.status == RolledBack && q.currentStep == 0 && q.failure.Regression?
                && q.failure.reason != InsufficientSamples && q.failure.reason != NonInferior)
            || (q.status == Holding && q.currentStep == p.currentStep && p.status == Ramping)
            || (q.currentStep == p.currentStep + 1
                && q.status == if q.currentStep < |p.ladder| then Ramping
                               else if p.autoPromote then Promoted else Holding)
    ensures var q := TickPlan(sqrt, p, t);
            q != p ==> q.lastStepAt == Some(t.appliedAt)
    ensures TickPlan(sqrt, p, t).ladder == p.ladder && TickPlan(sqrt, p, t).autoPromote == p.autoPromote
    ensures TickPlan(sqrt, p, t).currentStep >= 0
    ensures TickPlan(sqrt, p, t) != p <==> Changes(sqrt, p, t)
  {
  }

  // ---------- what a tick makes of its observations ----------

  /** Some success rate more than the tolerance below the baseline's is plausible for the candidate. */
  ghost predicate ProportionWorse(baseline: Observation, candidate: Observation, tolerance: real) {
    var bar := SafeRate(baseline.successes, baseline.successes + baseline.failures) - tolerance;
    var s, n := candidate.successes, candidate.successes + candidate.failures;
    exists y: real :: y < bar && Plausible(s, n, y)
  }

  /** The candidate's p95 latency exceeds the baseline's by more than a limit that is set; a latency of 0
      is not measured. */
  predicate LatencyWorse(baseline: Observation, candidate: Observation, limit: int) {
    && limit > 0 && baseline.p95LatencyMs > 0 && candidate.p95LatencyMs > 0
    && candidate.p95LatencyMs - baseline.p95LatencyMs > limit
  }

  predicate AtFloor(t: TickInput, minSamples: int) {
    && t.baseline.successes + t.baseline.failures >= minSamples
    && t.candidate.successes + t.candidate.failures >= minSamples
  }

  /** The step's hold time, in nanoseconds, has passed since the step clock was set. */
  predicate Held(p: Plan, t: TickInput)
    requires 0 <= p.currentStep < |p.ladder|
  {
    p.lastStepAt.Some? && t.now >= p.lastStepAt.value + p.ladder[p.currentStep].holdSeconds * 1_000_000_000
  }

  lemma VerdictMeans(sqrt: real -> real, inp: RegressionInput)
    requires IsSquareRoot(sqrt) && inp.candidate.successes >= 0 && inp.candidate.failures >= 0
    requires inp.baseline.Total() >= inp.minSamples && inp.candidate.Total() >= inp.minSamples
    ensures var v := AssessRegression(sqrt, inp);
            if ProportionWorse(inp.baseline, inp.candidate, inp.maxProportionDelta) then
              !v.healthy && v.reason == ProportionRegression
            else if LatencyWorse(inp.baseline, inp.candidate, inp.maxLatencyP95Ms) then
              !v.healthy && v.reason == LatencyRegression
            else v.healthy && v.reason == NonInferior
  {
    hide LowerBound, Plausible, SafeRate;
    RegressionIffPlausible(sqrt, inp);
  }

  /** The plan after one tick, from nothing but its own fields, the two arms' observations and the
      clocks: too few samples hold the step; a worse proportion, or else a worse latency, rolls back to
      step 0 with that reason; otherwise the plan holds until its hold time has passed, and then rises by
      one step, to a promotion or a final hold at the ladder's end. Any change stamps the step clock. */
  lemma TickOutcome(sqrt: real -> real, p: Plan, t: TickInput)
    requires IsSquareRoot(sqrt) && t.candidate.successes >= 0 && t.candidate.failures >= 0
    requires (p.status == Ramping || p.status == Holding) && 0 <= p.currentStep < |p.ladder|
    ensures var q, step := TickPlan(sqrt, p, t), p.ladder[p.currentStep];
            var worse := ProportionWorse(t.baseline, t.candidate, p.maxProportionDelta);
            var slower := LatencyWorse(t.baseline, t.candidate, p.maxLatencyP95MsDelta);
            var stamped := p.(lastStepAt := Some(t.appliedAt));
            if AtFloor(t, step.minSamples) && (worse || slower) then
              q == stamped.(status := RolledBack, currentStep := 0,
                            failure := Regression(if worse then ProportionRegression else LatencyRegression))
            else if AtFloor(t, step.minSamples) && Held(p, t) then
              q == stamped.(currentStep := p.currentStep + 1, failure := NoFailure,
                            status := if p.currentStep + 1 < |p.ladder| then Ramping
                                      else if p.autoPromote then Promoted else Holding)
            else q == if p.status == Holding then p else stamped.(status := Holding, failure := NoFailure)
  {
    hide AssessRegression, ProportionWorse, LatencyWorse;
    var step := p.ladder[p.currentStep];
    var inp := RegressionInput(t.baseline, t.candidate, p.maxProportionDelta, p.maxLatencyP95MsDelta, step.minSamples);
    if AtFloor(t, step.minSamples) {
      VerdictMeans(sqrt, inp);
    } else {
      TooFewSamples(sqrt, inp);
    }
  }

  lemma TooFewSamples(sqrt: real -> real, inp: RegressionInput)
    requires inp.baseline.Total() < inp.minSamples || inp.candidate.Total() < inp.minSamples
    ensures AssessRegression(sqrt, inp).reason == InsufficientSamples && !AssessRegression(sqrt, inp).healthy
  {
  }

  /** Which ticks roll back and which raise, for plans in any status and at any step. */
  lemma RollsBackIff(sqrt: real -> real, p: Plan, t: TickInput)
    requires IsSquareRoot(sqrt) && t.candidate.successes >= 0 && t.candidate.failures >= 0
    requires p.currentStep >= 0
    ensures var onRamp := (p.status == Ramping || p.status == Holding) && p.currentStep < |p.ladder|
                          && AtFloor(t, p.ladder[p.currentStep].minSamples);
            var worse := ProportionWorse(t.baseline, t.candidate, p.maxProportionDelta)
                         || LatencyWorse(t.baseline, t.candidate, p.maxLatencyP95MsDelta);
            && (p.status != RolledBack && TickPlan(sqrt, p, t).status == RolledBack <==> onRamp && worse)
            && (TickPlan(sqrt, p, t).currentStep > p.currentStep <==> onRamp && !worse && Held(p, t))
  {
    hide ProportionWorse, LatencyWorse;
    if (p.status == Ramping || p.status == Holding) && p.currentStep < |p.ladder| {
      TickOutcome(sqrt, p, t);
      hide TickPlan;
    } else {
      NotOnRamp(sqrt, p, t);
      hide TickPlan;
    }
  }

  lemma NotOnRamp(sqrt: real -> real, p: Plan, t: TickInput)
    requires p.currentStep >= 0 && (!(p.status == Ramping || p.status == Holding) || p.currentStep >= |p.ladder|)
    ensures TickPlan(sqrt, p, t) == p
  {
  }

  // ---------- the gate ----------

  /** The tick applies a decision that asks for a gate. */
  predicate SkipsGate(sqrt: real -> real, p: Plan, t: TickInput)
    requires p.currentStep >= 0
  {
    Changes(sqrt, p, t) && TickOne(sqrt, p, t).value.gateRequired
  }

  /** What a caller can see before a tick that will promote: the last step of an auto-promoted ladder has
      been held long enough with enough samples. */
  predicate AtPromotion(p: Plan, t: TickInput)
    requires p.currentStep >= 0
  {
    && Ticked(p) && p.autoPromote && p.currentStep + 1 == |p.ladder|
    && EnoughSamples(p, t) && HoldElapsed(p, p.ladder[p.currentStep], t.now)
  }

  /** Promotions are documented to go through a gate. A tick applies no decision that asks for one unless
      the plan is at its promotion and found non-inferior; then it always does, and promotes at once. */
  lemma GateSkippedIff(sqrt: real -> real, p: Plan, t: TickInput)
    requires p.currentStep >= 0
    ensures SkipsGate(sqrt, p, t) <==> AtPromotion(p, t) && VerdictOf(sqrt, p, t).reason == NonInferior
    ensures SkipsGate(sqrt, p, t) <==> p.status != Promoted && TickPlan(sqrt, p, t).status == Promoted
  {
  }

  /** Some tick of the run applies a decision that asks for a gate. */
  predicate SomeTickSkipsGate(sqrt: real -> real, p: Plan, ts: seq<TickInput>)
    requires p.currentStep >= 0
  {
    ts != [] &&
    var n := |ts| - 1;
    SomeTickSkipsGate(sqrt, p, ts[..n]) || SkipsGate(sqrt, PlanAfter(sqrt, p, ts[..n]), ts[n])
  }

  /** Over any run: a plan that was ramping or holding is promoted at the end exactly when some tick of
      the run skipped the gate, so no promotion ever passes one. */
  lemma {:induction false} EveryPromotionSkipsGate(sqrt: real -> real, p: Plan, ts: seq<TickInput>)
    requires p.currentStep >= 0 && Ticked(p)
    ensures PlanAfter(sqrt, p, ts).status == Promoted <==> SomeTickSkipsGate(sqrt, p, ts)
  {
    hide SkipsGate, TickPlan, AtPromotion, VerdictOf, AssessRegression;
    if ts != [] {
      var n := |ts| - 1;
      var before := PlanAfter(sqrt, p, ts[..n]);
      EveryPromotionSkipsGate(sqrt, p, ts[..n]);
      GateSkippedIff(sqrt, before, ts[n]);
      if before.status == Promoted {
        PromotedStays(sqrt, before, ts[n]);
      }
    }
  }

  lemma PromotedStays(sqrt: real -> real, p: Plan, t: TickInput)
    requires p.currentStep >= 0 && p.status == Promoted
    ensures TickPlan(sqrt, p, t) == p
  {
  }

  /** A plan of one step that its first tick promotes, without a gate. */
  lemma PromotedWithoutGate(sqrt: real -> real) returns (p: Plan, t: TickInput)
    ensures p.currentStep == 0 && p.status == Ramping && TickPlan(sqrt, p, t).status == Promoted
    ensures SkipsGate(sqrt, p, t)
  {
    hide AssessRegression, SkipsGate, TickPlan;
    var nothing := Observation(0, 0, 0);
    p := Plan([LadderStep(100, 0, 0)], 1.0, 0, true, Ramping, 0, Some(0), NoFailure);
    t := TickInput(0, nothing, nothing, 0);
    NothingObserved(sqrt, RegressionInput(nothing, nothing, 1.0, 0, 0));
    GateSkippedIff(sqrt, p, t);
  }

  lemma NothingObserved(sqrt: real -> real, inp: RegressionInput)
    requires inp.baseline == Observation(0, 0, 0) && inp.candidate == Observation(0, 0, 0)
    requires inp.maxProportionDelta == 1.0 && inp.maxLatencyP95Ms == 0 && inp.minSamples == 0
    ensures AssessRegression(sqrt, inp).reason == NonInferior
  {
    hide LowerBound, SafeRate, RawLowerBound, Radicand;
    NoSamples(sqrt);
    assert inp.baseline.Total() == 0 && inp.candidate.Total() == 0;
  }

  lemma NoSamples(sqrt: real -> real)
    ensures LowerBound(sqrt, 0, 0) == SafeRate(0, 0) == 0.0
  {
    hide RawLowerBound;
  }

  // ---------- runs of ticks ----------

  function PlanAfter(sqrt: real -> real, p: Plan, ts: seq<TickInput>): (q: Plan)
    requires p.currentStep >= 0
    ensures q.currentStep >= 0 && q.ladder == p.ladder && q.autoPromote == p.autoPromote
  {
    if ts == [] then p
    else
      var n := |ts| - 1;
      StepDiscipline(sqrt, PlanAfter(sqrt, p, ts[..n]), ts[n]);
      TickPlan(sqrt, PlanAfter(sqrt, p, ts[..n]), ts[n])
  }

  function ChangeCount(sqrt: real -> real, p: Plan, ts: seq<TickInput>): nat
    requires p.currentStep >= 0
  {
    if ts == [] then 0
    else
      var n := |ts| - 1;
      ChangeCount(sqrt, p, ts[..n]) + if Changes(sqrt, PlanAfter(sqrt, p, ts[..n]), ts[n]) then 1 else 0
  }

  /** A clock that never goes back, from `start` through every tick and every write. */
  predicate ClockFrom(start: Time, ts: seq<TickInput>) {
    ts == []
    || (var n := |ts| - 1;
        ClockFrom(start, ts[..n]) && LastWrite(start, ts[..n]) <= ts[n].now <= ts[n].appliedAt)
  }

  function LastWrite(start: Time, ts: seq<TickInput>): Time {
    if ts == [] then start else ts[|ts| - 1].appliedAt
  }

  /** The hold times of steps `first` to `last - 1`; a negative hold time demands nothing. */
  function HoldSum(ladder: seq<LadderStep>, first: int, last: int): int
    requires 0 <= first && last <= |ladder|
    decreases last - first
  {
    if first >= last then 0
    else
      var h := ladder[last - 1].holdSeconds;
      HoldSum(ladder, first, last - 1) + if h < 0 then 0 else h * NANOS_PER_SECOND
  }

  /** The step clock of a plan on its way up: not later than the last write, and as far from the
      start as the holds passed so far demand. */
  lemma {:induction false} HoldInvariant(sqrt: real -> real, p: Plan, ts: seq<TickInput>)
    requires 0 <= p.currentStep <= |p.ladder| && p.lastStepAt.Some? && ClockFrom(p.lastStepAt.value, ts)
    ensures var q := PlanAfter(sqrt, p, ts);
            && q.currentStep <= |p.ladder| && q.lastStepAt.Some?
            && p.lastStepAt.value <= q.lastStepAt.value
            && q.lastStepAt.value <= LastWrite(p.lastStepAt.value, ts)
            && q.lastStepAt.value - p.lastStepAt.value >= HoldSum(p.ladder, p.currentStep, q.currentStep)
  {
    if ts != [] {
      var n := |ts| - 1;
      HoldInvariant(sqrt, p, ts[..n]);
      StepDiscipline(sqrt, PlanAfter(sqrt, p, ts[..n]), ts[n]);
      RiseCondition(sqrt, PlanAfter(sqrt, p, ts[..n]), ts[n]);
    }
  }

  /** Whatever is observed, a tick that raises a plan to step `j` (the ladder's end included) comes at
      least the sum of the hold times of the steps before `j` after the initial `lastStepAt`. */
  lemma NoStepBeforeItsHolds(sqrt: real -> real, p: Plan, ts: seq<TickInput>, t: TickInput)
    requires 0 <= p.currentStep <= |p.ladder| && p.lastStepAt.Some?
    requires ClockFrom(p.lastStepAt.value, ts + [t])
    requires var before := PlanAfter(sqrt, p, ts);
             TickPlan(sqrt, before, t).currentStep > before.currentStep
    ensures t.now - p.lastStepAt.value
            >= HoldSum(p.ladder, p.currentStep, TickPlan(sqrt, PlanAfter(sqrt, p, ts), t).currentStep)
  {
    assert (ts + [t])[..|ts|] == ts;
    HoldInvariant(sqrt, p, ts);
    var before := PlanAfter(sqrt, p, ts);
    StepDiscipline(sqrt, before, t);
    RiseCondition(sqrt, before, t);
  }

  /** How many changes a plan may still go through. */
  function Potential(p: Plan): nat {
    if !Ticked(p) || p.currentStep >= |p.ladder| || p.currentStep < 0 then 0
    else 2 * (|p.ladder| - p.currentStep) - if p.status.Holding? then 1 else 0
  }

  lemma ChangeSpendsPotential(sqrt: real -> real, p: Plan, t: TickInput)
    requires p.currentStep >= 0
    ensures Potential(TickPlan(sqrt, p, t)) + (if Changes(sqrt, p, t) then 1 else 0) <= Potential(p)
  {
  }

  lemma {:induction false} ChangesAreBounded(sqrt: real -> real, p: Plan, ts: seq<TickInput>)
    requires p.currentStep >= 0
    ensures ChangeCount(sqrt, p, ts) + Potential(PlanAfter(sqrt, p, ts)) <= Potential(p)
  {
    if ts != [] {
      var n := |ts| - 1;
      ChangesAreBounded(sqrt, p, ts[..n]);
      ChangeSpendsPotential(sqrt, PlanAfter(sqrt, p, ts[..n]), ts[n]);
    }
  }

  /** A run of any length changes a plan at step `s` at most `2 * (len - s)` times (never, past the
      end), leaves it in one of four statuses, and a tick that changes nothing finds it settled. */
  lemma RampSettles(sqrt: real -> real, p: Plan, ts: seq<TickInput>, t: TickInput)
    requires p.currentStep >= 0 && Ticked(p)
    ensures ChangeCount(sqrt, p, ts) <= if p.currentStep < |p.ladder| then 2 * (|p.ladder| - p.currentStep) else 0
    ensures var q := PlanAfter(sqrt, p, ts);
            && (q.status.Ramping? || q.status.Holding? || q.status.Promoted? || q.status.RolledBack?)
            && (p.currentStep < |p.ladder| && TickPlan(sqrt, q, t) == q ==> !q.status.Ramping?)
  {
    ChangesAreBounded(sqrt, p, ts);
    RampStatuses(sqrt, p, ts);
  }

  lemma {:induction false} RampStatuses(sqrt: real -> real, p: Plan, ts: seq<TickInput>)
    requires p.currentStep >= 0 && Ticked(p)
    ensures var q := PlanAfter(sqrt, p, ts);
            && (Ticked(q) || q.status.Promoted? || q.status.RolledBack?)
            && (p.currentStep < |p.ladder| && q.status.Ramping? ==> q.currentStep < |p.ladder|)
            && (q.status.Promoted? ==> p.autoPromote && q.currentStep == |p.ladder|)
  {
    if ts != [] {
      var n := |ts| - 1;
      RampStatuses(sqrt, p, ts[..n]);
      StepDiscipline(sqrt, PlanAfter(sqrt, p, ts[..n]), ts[n]);
    }
  }

  /** A rollback is final: no later tick moves the plan again. */
  lemma {:induction false} RollbackIsFinal(sqrt: real -> real, p: Plan, ts: seq<TickInput>)
    requires p.currentStep >= 0 && !Ticked(p)
    ensures PlanAfter(sqrt, p, ts) == p && ChangeCount(sqrt, p, ts) == 0
  {
    if ts != [] {
      RollbackIsFinal(sqrt, p, ts[..|ts| - 1]);
    }
  }

  // ---------- settling ----------

  /** The first `n` ticks of an unending stream. */
  function Prefix(stream: nat -> TickInput, n: nat): seq<TickInput> {
    seq(n, i requires 0 <= i < n => stream(i))
  }

  function PlanAt(sqrt: real -> real, p: Plan, stream: nat -> TickInput, n: nat): (q: Plan)
    requires p.currentStep >= 0
    ensures q.currentStep >= 0
  {
    PlanAfter(sqrt, p, Prefix(stream, n))
  }

  lemma NextPlan(sqrt: real -> real, p: Plan, stream: nat -> TickInput, n: nat)
    requires p.currentStep >= 0
    ensures PlanAt(sqrt, p, stream, n + 1) == TickPlan(sqrt, PlanAt(sqrt, p, stream, n), stream(n))
  {
    assert Prefix(stream, n + 1)[..n] == Prefix(stream, n);
  }

  /** Later plans have at most the potential of earlier ones, and with the same potential are the same. */
  lemma {:induction false} PotentialFalls(sqrt: real -> real, p: Plan, stream: nat -> TickInput, n: nat, m: nat)
    requires p.currentStep >= 0 && n <= m
    ensures Potential(PlanAt(sqrt, p, stream, m)) <= Potential(PlanAt(sqrt, p, stream, n))
    ensures Potential(PlanAt(sqrt, p, stream, m)) == Potential(PlanAt(sqrt, p, stream, n))
            ==> PlanAt(sqrt, p, stream, m) == PlanAt(sqrt, p, stream, n)
    decreases m
  {
    hide PlanAt, TickPlan, Changes, Potential;
    if n < m {
      var before := PlanAt(sqrt, p, stream, m - 1);
      PotentialFalls(sqrt, p, stream, n, m - 1);
      NextPlan(sqrt, p, stream, m - 1);
      ChangeSpendsPotential(sqrt, before, stream(m - 1));
      StepDiscipline(sqrt, before, stream(m - 1));
    }
  }

  /** From tick `n` on nothing changes any more. */
  ghost predicate SettledFrom(sqrt: real -> real, p: Plan, stream: nat -> TickInput, n: nat)
    requires p.currentStep >= 0
  {
    forall m: nat :: m >= n ==> PlanAt(sqrt, p, stream, m) == PlanAt(sqrt, p, stream, n)
  }

  lemma {:induction false} SettlesAfter(sqrt: real -> real, p: Plan, stream: nat -> TickInput, start: nat)
    returns (n: nat)
    requires p.currentStep >= 0
    ensures n >= start && SettledFrom(sqrt, p, stream, n)
    decreases Potential(PlanAt(sqrt, p, stream, start))
  {
    hide PlanAt, Potential;
    if SettledFrom(sqrt, p, stream, start) {
      n := start;
    } else {
      var m: nat :| m >= start && PlanAt(sqrt, p, stream, m) != PlanAt(sqrt, p, stream, start);
      PotentialFalls(sqrt, p, stream, start, m);
      n := SettlesAfter(sqrt, p, stream, m);
    }
  }

  /** Whatever is observed for ever, there is a tick after which a plan never changes again; and if it
      was ramping or holding below the ladder's end it is then holding, promoted or rolled back. */
  lemma EveryStreamSettles(sqrt: real -> real, p: Plan, stream: nat -> TickInput) returns (n: nat)
    requires p.currentStep >= 0
    ensures SettledFrom(sqrt, p, stream, n)
    ensures Ticked(p) && p.currentStep < |p.ladder| ==>
              var q := PlanAt(sqrt, p, stream, n);
              q.status == Holding || q.status == Promoted || q.status == RolledBack
  {
    n := SettlesAfter(sqrt, p, stream, 0);
    if Ticked(p) {
      assert PlanAt(sqrt, p, stream, n + 1) == PlanAt(sqrt, p, stream, n);
      NextPlan(sqrt, p, stream, n);
      RampSettles(sqrt, p, Prefix(stream, n), stream(n));
    }
  }

  // ---------- runs of the whole store ----------

  /** One call of `Tick`: the rows its query returned and what it found. */
  datatype TickCall = TickCall(rows: seq<PlanId>, env: TickEnv)

  predicate StepsNatural(plans: map<PlanId, Plan>) {
    forall id :: id in plans ==> plans[id].currentStep >= 0
  }

  /** The store after calls of `Tick`, whatever rows each of them got. */
  function StoreAfter(sqrt: real -> real, plans: map<PlanId, Plan>, calls: seq<TickCall>): (after: map<PlanId, Plan>)
    requires StepsNatural(plans)
    ensures StepsNatural(after) && after.Keys == plans.Keys
  {
    if calls == [] then plans
    else
      var n := |calls| - 1;
      var before := StoreAfter(sqrt, plans, calls[..n]);
      RowsKeepSteps(sqrt, before, calls[n]);
      AfterRows(sqrt, before, calls[n].rows, calls[n].env)
  }

  lemma RowsKeepSteps(sqrt: real -> real, plans: map<PlanId, Plan>, call: TickCall)
    requires StepsNatural(plans)
    ensures StepsNatural(AfterRows(sqrt, plans, call.rows, call.env))
  {
    forall id | id in plans
      ensures AfterRows(sqrt, plans, call.rows, call.env)[id].currentStep >= 0
    {
      StepDiscipline(sqrt, plans[id], call.env.For(id));
    }
  }

  /** What the calls that list a plan find for it. */
  function InputsOf(calls: seq<TickCall>, id: PlanId): seq<TickInput> {
    if calls == [] then []
    else
      var n := |calls| - 1;
      InputsOf(calls[..n], id) + if id in calls[n].rows then [calls[n].env.For(id)] else []
  }

  /** Plans do not interfere: in any run of the store each plan goes through its own run of the ticks
      that list it, whatever happens to the others. */
  lemma {:induction false} StoreRunIsPlanRun(sqrt: real -> real, plans: map<PlanId, Plan>, calls: seq<TickCall>,
                                             id: PlanId)
    requires StepsNatural(plans) && id in plans
    ensures StoreAfter(sqrt, plans, calls)[id] == PlanAfter(sqrt, plans[id], InputsOf(calls, id))
  {
    hide TickPlan;
    if calls != [] {
      var n := |calls| - 1;
      var front := InputsOf(calls[..n], id);
      StoreRunIsPlanRun(sqrt, plans, calls[..n], id);
      var before := StoreAfter(sqrt, plans, calls[..n]);
      var after := AfterRows(sqrt, before, calls[n].rows, calls[n].env);
      if id in calls[n].rows {
        var t := calls[n].env.For(id);
        assert after[id] == TickPlan(sqrt, before[id], t);
        assert (front + [t])[..|front|] == front;
      } else {
        assert after[id] == before[id];
        assert InputsOf(calls, id) == front;
      }
    }
  }

  /** However often ticks list it and whatever they find, a plan outside the ramp (a draft, a paused or
      a terminal one) is never changed, and one in the ramp never leaves for a draft, a pause or a failure. */
  lemma {:induction false} TicksLeaveOtherStatusesAlone(sqrt: real -> real, plans: map<PlanId, Plan>,
                                                        calls: seq<TickCall>, id: PlanId)
    requires StepsNatural(plans) && id in plans
    ensures var q := StoreAfter(sqrt, plans, calls)[id];
            if Ticked(plans[id]) then Ticked(q) || q.status.Promoted? || q.status.RolledBack?
            else q == plans[id]
  {
    StoreRunIsPlanRun(sqrt, plans, calls, id);
    if Ticked(plans[id]) {
      RampStatuses(sqrt, plans[id], InputsOf(calls, id));
    } else {
      RollbackIsFinal(sqrt, plans[id], InputsOf(calls, id));
    }
  }
}
