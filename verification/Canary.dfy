/** The canary ladder: the pure state machine that turns a plan, a verdict and the time into the
    next decision. Times are nanoseconds; a plan that never had a step has no `lastStepAt`. */
module Canary {
  import opened Options
  import opened Wilson

  type Time = int

  const NANOS_PER_SECOND := 1_000_000_000

  datatype Status = Draft | Ramping | Holding | Promoted | RolledBack | Failed | Paused

  datatype LadderStep = LadderStep(candidatePercent: int, holdSeconds: int, minSamples: int)

  datatype Failure = NoFailure | EmptyLadder | Regression(reason: Reason)

  datatype Plan = Plan(
    ladder: seq<LadderStep>,
    maxProportionDelta: real,
    maxLatencyP95MsDelta: int,
    autoPromote: bool,
    status: Status,
    currentStep: int,
    lastStepAt: Option<Time>,
    failure: Failure)

  /** `newStep` is -1 when the step stays. */
  datatype Decision = Decision(newStatus: Status, newStep: int, failure: Failure, gateRequired: bool)

  predicate HoldElapsed(plan: Plan, step: LadderStep, now: Time) {
    plan.lastStepAt.Some? && now - plan.lastStepAt.value >= step.holdSeconds * NANOS_PER_SECOND
  }

  function Next(plan: Plan, verdict: Verdict, now: Time): Decision {
    if plan.status.Promoted? || plan.status.RolledBack? || plan.status.Failed? || plan.status.Paused? then
      Decision(plan.status, -1, NoFailure, false)
    else if plan.ladder == [] then
      Decision(Failed, -1, EmptyLadder, false)
    else
      var step := if plan.currentStep < 0 then 0 else plan.currentStep;
      if step >= |plan.ladder| then
        if plan.autoPromote then Decision(Promoted, step, NoFailure, true)
        else Decision(Holding, step, NoFailure, false)
      else if !verdict.healthy && verdict.reason != InsufficientSamples then
        Decision(RolledBack, 0, Regression(verdict.reason), false)
      else if verdict.reason == InsufficientSamples then
        Decision(Holding, step, NoFailure, false)
      else if HoldElapsed(plan, plan.ladder[step], now) then
        if step + 1 >= |plan.ladder| then
          if plan.autoPromote then Decision(Promoted, step + 1, NoFailure, true)
          else Decision(Holding, step + 1, NoFailure, false)
        else Decision(Ramping, step + 1, NoFailure, false)
      else Decision(Holding, step, NoFailure, false)
  }
}
