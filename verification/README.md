# AegisVision kernels, modelled and proved

This project models the algorithmic core of AegisVision in Dafny 4.11 and proves what that core is
relied on for. `dafny verify dfyconfig.toml` checks all of it. Each module follows one component of
the repository:

| files | component |
|---|---|
| `Pipeline.dfy`, `Sampler.dfy` | the streaming runtime as an interleaving of its goroutines, and the frame sampler as one operator |
| `Wilson.dfy`, `Canary.dfy`, `CanaryLoop.dfy` | the canary regression test, the ladder state machine, the reconciliation loop and its plan store |
| `DagGraph.dfy`, `DagCompiler.dfy` | graph theory of pipeline specs, and the compiler |
| `EdgeRecords.dfy`, `EdgeReplay.dfy`, `EdgeQueue.dfy`, `EdgeDrain.dfy` | the edge gateway's store-and-forward queue: record format, replay, the queue object, concurrent drains |
| `LedgerState.dfy`, `Ledger.dfy` | the GPU reservation ledger |
| `Divergence.dfy`, `DivergenceScale.dfy`, `FiniteSums.dfy` | KL, Jensen-Shannon and total variation: the loops, and what their values mean |
| `ClaimCheck.dfy` | the ring of generation-stamped payload slots, and its locators |
| `Boxes.dfy`, `Tracker.dfy`, `TrackerRuns.dfy`, `TrackerFrames.dfy`, `DwellRule.dfy` | box overlap, the tracker, the spatial dwell rule |
| `AgentLoop.dfy`, `AgentOutcomes.dfy` | the bounded-autonomy agent loop: its bounds, and how every run ends |
| `RateLimit.dfy`, `RollingWindow.dfy` | the tumbling rate limiter and the drift window |

Objects that the repository updates in place are classes here, with the same fields and loops, and each
of their methods is proved against a specification function or relation. Properties of whole runs are
lemmas about those specifications. Goroutines that interleave (the runtime, concurrent drains,
concurrent puts) are transition systems whose steps are the sections that are atomic in the code.

## How the model stands to the code

- Floating-point numbers are exact reals. The square root and the natural logarithm are parameters:
  `IsSquareRoot` says "the non-negative root", `IsLog` says "turns products into sums and is at most
  `x - 1`".
- Clock readings, random ids, quotas, model replies, observation aggregates and the answers of
  consumers are parameters. Where ids are drawn at random or from the
  clock they are assumed fresh only where this is stated.
- A Go panic is an outcome (`Crashed`), a proof obligation (`NeverPanics`), or excluded by a
  precondition with the reason beside it.

### Where the code and its documentation disagree

The model follows the code. Each line names the lemma that says exactly when the documentation is right, and
where it is wrong on some input, one that shows it.

- The sampler is documented to emit one frame every `ceil(source / target)` frames
  (`pkg/dataplane/operators/sampler.go:13-14`). The code rounds down, so it keeps to its target rate
  exactly when the target divides the source rate: `Sampler.BudgetKeptIffTargetDividesSource`.
- Placement is documented to prefer tenant-locked GPUs (`services/gpu-scheduler/internal/ledger/ledger.go:117`).
  The comparator does not look at the tenant: `LedgerState.LockedChosenIff` has the exact condition,
  `LedgerState.SharedChosenOverLocked` a concrete ledger.
- A locator is documented as `<ring>:<slot>:<gen>` and rings may have any name. It survives its wire form
  exactly when the ring's name has no colon: `ClaimCheck.RoundTripIffNoColon`.
- The queue's records have a 32-bit data length, but `replay` computes with 16-bit offsets: a record
  survives a restart exactly when it has at most 65535 bytes: `EdgeRecords.RoundTripIffFits`. Reading the
  others back cuts them or panics: `EdgeRecords.ParseWritten`, `EdgeReplay.ReplayCrashesIff`.
- The agent's `MaxAutonomyTier` of 0 (read-only) is taken for "unset" and becomes 2:
  `AgentLoop.CeilingHonouredIff`.
- `MaxSteps` is documented as a hard cap (`pkg/agent/agent.go:133`), but a reply's calls are all dispatched once
  the counter is below it. `AgentLoop.CapHonouredIff` says when the counter stays within the cap,
  `AgentLoop.CapExceeded` has a new agent that ends past it, and `AgentLoop.StepsBounded` with
  `AgentLoop.StepBoundIsReached` give the exact maximum.
- ADR 0023 has promotions go through a gate (`docs/adr/0023-canary-regression-rollback.md:48`). The loop applies
  a promotion in the tick that decides it and does not read `GateRequired`. `CanaryLoop.GateSkippedIff` says
  exactly when a tick applies a decision that asks for a gate, `CanaryLoop.EveryPromotionSkipsGate` that every
  promotion of every run is such a tick, and `CanaryLoop.PromotedWithoutGate` has a plan and a tick.
- The rate limiter is described as a cap per window; in an interval as long as the window it can admit up to
  `2 * limit - 1` requests, and that is reached: `RateLimit.AdmittedPerInterval`, `RateLimit.BoundIsReached`. The cap
  holds in all such intervals exactly when it is 1: `RateLimit.LimitKeptIff`.
- `LinearOrder` is documented to report a cycle (`pkg/dataplane/dag/compiler.go:149`). It cannot fail, and
  has no cycle to report, as only acyclic specs have a plan: `DagCompiler.PlansAreAcyclic`.
- An event of the dwell rule overwrites the frame's first detection (`pkg/dataplane/operators/rule.go:115`):
  `DwellRule.DetectionsKeptIff` has the exact condition, `DwellRule.OverwriteHappens` two frames.
- A new reservation's id and slice count are not checked (`services/gpu-scheduler/internal/ledger/ledger.go:121-127`).
  A placement under an unused id keeps the ledger sound whatever its slice count, and under a used one exactly when
  it stays on that id's GPU and fits once the old reservation is taken off: `LedgerState.PlaceKeepsInvIff`. A negative
  count shows later: releasing it keeps the ledger sound exactly when the rest fits without it
  (`LedgerState.ReleaseKeepsInvIff`), all later releases do exactly when every GPU holds its positive counts
  (`LedgerState.SurvivesReleasesIff`), and `LedgerState.NegativeSlicesOverCommit` has a run that over-commits a GPU.

## Model

| member | source | states |
|---|---|---|
| Pipeline.StepKeepsInv | pkg/dataplane/runtime.go:47-102 | every step of every goroutine (both wrappers, operator, tail drain, source) keeps, for each stage, sent plus pending frames equal to what the operator emits for its consumed input, a channel closed only after its writer has sent everything, and buffers within capacity |
| Pipeline.EveryRunIsPrefix | pkg/dataplane/runtime.go:30-115 | in every reachable state, for any buffer size and any schedule, what has left operator i is a prefix of the first i operators applied to any completion of the source |
| Pipeline.WrappersAreTransparent | pkg/dataplane/runtime.go:55-83 | the helper goroutines around the operators change nothing: the chain of all stages computes the composition of the operators alone |
| Pipeline.NeverPanics | pkg/dataplane/runtime.go:49-94 | no goroutine ever sends on a closed channel or closes a channel twice, and no buffer exceeds its capacity |
| Pipeline.NoDeadlock | pkg/dataplane/runtime.go:30-115 | once the source is closed, a state has no enabled step if and only if every goroutine has exited and every channel is closed and empty |
| Pipeline.RunCost | pkg/dataplane/runtime.go:30-115 | after the source closes, each step of any schedule lowers one integer measure by exactly one |
| Pipeline.EveryScheduleTerminates | pkg/dataplane/runtime.go:47-115 | that measure bounds the length of every schedule, and a schedule that can go no further has exactly that length |
| Pipeline.CompleteRunDeliversComposition | pkg/dataplane/runtime.go:26-115 | graceful end of stream: a run that closes the source and goes on to the end delivers exactly the full composition, flushed output included, with everything closed |
| Sampler.SamplerConfig.Step | pkg/dataplane/operators/sampler.go:24-40 | the step is at least 1; for rates in range it is the largest whose multiple of the target does not exceed the source rate, and 1 for a target that is absent or above the source rate |
| Sampler.Run | pkg/dataplane/operators/sampler.go:33-60 | the operator's loop emits what the runtime's operator semantics says for the whole input |
| Sampler.SampledFrames | pkg/dataplane/operators/sampler.go:42-58 | output frame j is input frame j*step, and the output has ceil(input/step) frames |
| Sampler.BudgetKeptIffTargetDividesSource | pkg/dataplane/operators/sampler.go:13-40 | the target rate is kept on all streams of whole seconds if and only if it divides the source rate |
| Wilson.BoundIsSmallerRoot | pkg/canary/split.go:137-153 | the bound is the smaller root of n(p-x)^2 = z^2 x(1-x), lies between 0 and the observed rate, and the clamp never changes it |
| Wilson.BoundGrows | pkg/canary/split.go:137-153 | the bound grows with the observed rate and with the sample size |
| Wilson.BoundIsLeastPlausible | pkg/canary/split.go:137-153 | for any counts, no samples included, the bound is the least rate within z standard errors of the observation |
| Wilson.FlawlessCandidateBound | pkg/canary/split.go:137-153 | without any failure the bound is n/(n+z^2) |
| Wilson.RegressionIffPlausible | pkg/canary/split.go:95-109 | with enough samples, the verdict is a proportion regression if and only if some rate more than the tolerance below the baseline's lies within z standard errors of the observation |
| Wilson.MoreSuccessesStayHealthy | pkg/canary/split.go:95-120 | with all else fixed, more candidate successes (replacing failures or added) never turn a healthy verdict unhealthy |
| CanaryLoop.Store.ApplyDecision | services/canary-controller/internal/store/store.go:105-115 | the row with that id, if any, gets status and failure, and step and step clock unless the step is negative, and keeps its other fields; no other row changes |
| CanaryLoop.Reconciler.Tick | services/canary-controller/internal/loop/loop.go:41-59 | over any rows in any order, each listed plan goes through one tick and no other plan changes; the result counts exactly the changed plans |
| CanaryLoop.StoreRunIsPlanRun | services/canary-controller/internal/loop/loop.go:41-59 | plans do not interfere: in any run of ticks over the whole store, each plan goes through exactly the run of the ticks that list it |
| CanaryLoop.TickOutcome | services/canary-controller/internal/loop/loop.go:61-91 | the whole plan after a tick on the ramp, from its own fields, both arms' observations and the clocks: with both arms at the sample floor, it is rolled back to step 0 if some rate more than the tolerance below the baseline's is plausible for the candidate, or else if the candidate's p95 exceeds the baseline's by more than the limit, with the matching reason; otherwise it rises by one, with the right status, once the hold has passed; in all other cases it holds its step |
| CanaryLoop.RollsBackIff | services/canary-controller/internal/loop/loop.go:61-91 | for plans in any status and at any step: exactly which ticks roll back and exactly which raise the step, in the same terms |
| CanaryLoop.StepDiscipline | pkg/canary/state.go:31-85 | all a tick can do: nothing, rollback to step 0, fall from ramping to holding, or rise by one with the right status; any change stamps the step clock |
| CanaryLoop.GateSkippedIff | services/canary-controller/internal/loop/loop.go:82-91 | a tick applies a decision that asks for a gate if and only if an auto-promoted plan is at its last step with the samples, a non-inferior verdict and the hold elapsed; that is also exactly when it promotes |
| CanaryLoop.EveryPromotionSkipsGate | services/canary-controller/internal/loop/loop.go:82-91 | over any run, a plan from the ramp ends promoted if and only if some tick of the run skipped the gate |
| CanaryLoop.PromotedWithoutGate | services/canary-controller/internal/loop/loop.go:82-91 | a plan and a tick that promotes it with the gate still required |
| CanaryLoop.TicksLeaveOtherStatusesAlone | services/canary-controller/internal/loop/loop.go:41-59 | over any run of the store, whatever rows each tick lists: a draft, paused or terminal plan is never changed, and a plan in the ramp never becomes a draft, paused or failed one |
| CanaryLoop.HoldInvariant | services/canary-controller/internal/store/store.go:105-115 | over any run with a forward clock the step clock is at least the sum of the passed hold times after its start |
| CanaryLoop.NoStepBeforeItsHolds | services/canary-controller/internal/loop/loop.go:61-91 | a tick that raises a plan to step j, the end of the ladder included, comes at least the sum of the hold times before j after the initial step clock |
| CanaryLoop.ChangesAreBounded | services/canary-controller/internal/loop/loop.go:41-91 | changes made so far plus the potential left never exceed the initial potential 2(len-s), less one when holding |
| CanaryLoop.RampSettles | services/canary-controller/internal/loop/loop.go:41-91 | a run of any length changes a plan at step s at most 2(len-s) times, never past the end, leaves it ramping, holding, promoted or rolled back, and, started below the end, is not ramping where a tick changes nothing |
| CanaryLoop.EveryStreamSettles | services/canary-controller/internal/loop/loop.go:41-91 | under any unending stream of ticks there is one after which the plan never changes again, and a plan that started in the ramp below the end is then holding, promoted or rolled back |
| CanaryLoop.RampStatuses | pkg/canary/state.go:31-85 | along any run only those four statuses occur, and promotion needs auto-promote and the end of the ladder |
| CanaryLoop.RollbackIsFinal | services/canary-controller/internal/loop/loop.go:41-91 | once out of the ramp, no number of ticks changes the plan |
| DagGraph.LayerIsLongestPath | pkg/dataplane/dag/compiler.go:102-140 | a node is in layer k if and only if its longest upstream path has k edges |
| DagGraph.AcyclicIffExhausted | pkg/dataplane/dag/compiler.go:120-143 | when a layer comes out empty, every node has been layered if and only if no path returns to its start |
| DagCompiler.CountInDegrees | pkg/dataplane/dag/compiler.go:104-111 | in-degrees are the lengths of the After lists and the children lists invert them, repetitions included, whatever the map order |
| DagCompiler.Release | pkg/dataplane/dag/compiler.go:130-137 | counting one node as scheduled at each child keeps every in-degree equal to the unscheduled entries and adds each node that waits for nothing more exactly once |
| DagCompiler.SortLayers | pkg/dataplane/dag/compiler.go:104-140 | the stages are the id-sorted layers up to an empty one, and the count is the number of nodes in them |
| DagCompiler.IndexNodes | pkg/dataplane/dag/compiler.go:77-88 | succeeds if and only if all ids are non-empty and distinct, and otherwise names the first offender in input order |
| DagCompiler.Compile | pkg/dataplane/dag/compiler.go:72-145 | a plan if and only if the spec is well formed and acyclic, `Cycle` if and only if well formed and cyclic, `Empty` if and only if there is no node, and any other error names a real defect; each node is in the stage of its longest upstream path, stages sorted by id |
| DagCompiler.PlanUnique | pkg/dataplane/dag/compiler.go:102-145 | a graph has at most one such plan, so map order cannot show |
| DagCompiler.InputOrderIrrelevant | pkg/dataplane/dag/compiler.go:72-145 | specs with the same nodes in any order have the same plan |
| DagCompiler.LinearOrder | pkg/dataplane/dag/compiler.go:150-156 | the loop returns the concatenation of the stages |
| DagCompiler.LinearOrderIsTopological | pkg/dataplane/dag/compiler.go:147-156 | in that order no node comes before one of its upstream nodes |
| DagCompiler.LinearOrderHoldsEachOnce | pkg/dataplane/dag/compiler.go:150-156 | the linear order of a plan holds every node of the graph exactly once |
| DagCompiler.PlansAreAcyclic | pkg/dataplane/dag/compiler.go:147-156 | a graph that has a plan is acyclic, so the linear order of a plan never has a cycle to report |
| EdgeRecords.RoundTripIffFits | services/edge-gateway/internal/queue/queue.go:147-200 | parsing what was written gives back subject and data if and only if 6+len(subject)+len(data) is at most 65535, with the 16-bit wrap-around modelled |
| EdgeRecords.ParseWritten | services/edge-gateway/internal/queue/queue.go:147-200 | for subjects and data of any length: reading a written record back panics if and only if a 16-bit offset wraps, and otherwise gives subject and data cut at the lengths read, the data being a part of the subject when that has more than 65535 bytes |
| EdgeRecords.WireForm | services/edge-gateway/internal/queue/queue.go:147-165 | the bytes on disk: subject length with the high byte first, subject, data length in four bytes with the highest first, data |
| EdgeRecords.NameRoundTrip | services/edge-gateway/internal/queue/queue.go:143-145 | every 64-bit number is read back from its file name |
| EdgeRecords.NameOfNumber | services/edge-gateway/internal/queue/queue.go:184-187 | every file name that is read is the name of the number read from it |
| EdgeRecords.NameOrder | services/edge-gateway/internal/queue/queue.go:180-185 | lexicographic order of file names is numeric order |
| EdgeReplay.Replay | services/edge-gateway/internal/queue/queue.go:169-207 | whatever order the directory lists its entries in, the result is that of reading the files in name order |
| EdgeReplay.ReplayRestoresIffAllFit | services/edge-gateway/internal/queue/queue.go:169-207 | over the files completed writes leave, replay rebuilds the same ordered messages if and only if every record fits, and then also the byte count and the highest number |
| EdgeReplay.ReplayCrashesIff | services/edge-gateway/internal/queue/queue.go:169-207 | over the files completed writes leave, replay panics if and only if some record makes an offset wrap |
| EdgeReplay.ReplayIsOrdered | services/edge-gateway/internal/queue/queue.go:169-207 | over any directory, a replay that does not panic leaves strictly ordered messages, the right byte count, a number counter at or above all of them, and a file behind each |
| EdgeQueue.Queue.constructor | services/edge-gateway/internal/queue/queue.go:44-62 | over any directory that does not make `replay` panic, cut, skipped and foreign contents included, the queue is what reading the files in name order gives and is valid unless a file is numbered 0; over the files completed writes leave it is exactly the queue that was left |
| EdgeQueue.Queue.Put | services/edge-gateway/internal/queue/queue.go:65-78 | refused if and only if the file cannot be created or its name is taken, and then nothing changes; otherwise the queue is the longest part of the old messages and the new one, up to the new one, that fits the caps, so the new one stays whenever it fits alone; exactly the new file is added and the dropped messages' files are removed |
| EdgeQueue.PutKeepsLongest | services/edge-gateway/internal/queue/queue.go:65-78 | what a put leaves is the longest suffix, ending in the new message, within both caps: the new message is left if and only if it fits them alone, and nothing is dropped when everything fits |
| EdgeQueue.Queue.DropExcessLocked | services/edge-gateway/internal/queue/queue.go:209-219 | the loop leaves what the cap specification says and removes exactly the files of the dropped messages, so a directory that mirrors the queue still does |
| EdgeQueue.DropExcessIsLeast | services/edge-gateway/internal/queue/queue.go:209-219 | that is the longest suffix within both caps: the fewest oldest messages go |
| EdgeQueue.Queue.Peek | services/edge-gateway/internal/queue/queue.go:82-94 | the oldest n messages (32 when n is not positive), at most all |
| EdgeQueue.FirstAfter | services/edge-gateway/internal/queue/queue.go:101 | the binary search finds where the numbers exceed the bound |
| EdgeQueue.Queue.AckThrough | services/edge-gateway/internal/queue/queue.go:98-108 | removes what the acknowledgement covers from index and byte count, and exactly their files from disk |
| EdgeQueue.AckRestIsSuffix | services/edge-gateway/internal/queue/queue.go:98-108 | that is exactly the messages numbered at most the bound, which are the oldest ones |
| EdgeQueue.Queue.Drain | services/edge-gateway/internal/queue/queue.go:119-139 | alone, a drain terminates; what it delivered is exactly what left the queue, oldest first, and whose files are gone; it succeeds if and only if the queue is empty, and otherwise the next message was refused |
| EdgeDrain.StepKeepsInv | services/edge-gateway/internal/queue/queue.go:65-139 | every interleaved step of puts and several drains keeps order, byte count, each drain's batch covering everything older than its end, and an account of every message ever put |
| EdgeDrain.AckRemovesOnlyAccepted | services/edge-gateway/internal/queue/queue.go:119-139 | an acknowledgement issued by a drain removes only messages that this drain's own consumer accepted |
| EdgeDrain.EveryRunIsConsistent | services/edge-gateway/internal/queue/queue.go:65-139 | in every reachable state the queue is strictly ordered with the right byte count, every message ever put is pending, dropped or accepted, and each drain delivers in increasing order |
| EdgeDrain.ItemsLeaveDeliveredOrOldest | services/edge-gateway/internal/queue/queue.go:98-219 | in every run a message leaves only acknowledged by a drain that delivered it, or dropped over a cap while older than all that stay |
| EdgeDrain.PutKeepsNewest | services/edge-gateway/internal/queue/queue.go:65-78 | the same of a put in any reachable concurrent state: the message is pending afterwards if and only if it fits the caps alone |
| EdgeDrain.AckClearsDelivered | services/edge-gateway/internal/queue/queue.go:119-139 | an acknowledgement leaves exactly the messages numbered above the last one delivered from its batch, so nothing its drain has delivered stays |
| EdgeDrain.DrainMakesProgress | services/edge-gateway/internal/queue/queue.go:119-139 | a drain peeks the oldest 64 messages or all, ends on an empty queue only, delivers its batch in order, and acknowledges at the batch's end or after a refusal, which also stops it |
| LedgerState.TotalRemove | services/gpu-scheduler/internal/ledger/ledger.go:144-149 | the usage sum does not depend on the order the reservation map is walked in |
| LedgerState.RegisterKeepsInvIff | services/gpu-scheduler/internal/ledger/ledger.go:80-97 | re-registering a GPU keeps the ledger sound if and only if what is reserved on it fits the new totals and tenant |
| LedgerState.PlaceKeepsInv | services/gpu-scheduler/internal/ledger/ledger.go:178-193 | placing on an eligible GPU keeps capacity, slices, tenant locks and the agreement of both indexes if the id is unused, whatever the sign of the slice count, or fits in place of the reservation it replaces |
| LedgerState.PlaceKeepsInvIff | services/gpu-scheduler/internal/ledger/ledger.go:178-193 | for any id and slice count, a placement on an eligible GPU keeps the ledger sound if and only if its id is unused, or used on the same GPU with slices enough once the old reservation is off |
| LedgerState.ReleaseKeepsInv | services/gpu-scheduler/internal/ledger/ledger.go:196-208 | releasing an unknown id or a reservation whose slice count is not negative keeps the ledger sound |
| LedgerState.ReleaseKeepsInvIff | services/gpu-scheduler/internal/ledger/ledger.go:196-208 | releasing keeps the ledger sound if and only if what remains on the GPU fits without the released slices, which only a negative count can prevent |
| LedgerState.AnyReleasesFitIff | services/gpu-scheduler/internal/ledger/ledger.go:144-149 | for any reservations, what is left after any set of releases fits in n slices if and only if the counts that are not negative do |
| LedgerState.SurvivesReleasesIff | services/gpu-scheduler/internal/ledger/ledger.go:196-208 | a sound ledger stays sound under every later sequence of releases if and only if every GPU has the slices for the positive counts on it |
| LedgerState.NegativeSlicesOverCommit | services/gpu-scheduler/internal/ledger/ledger.go:80-208 | a run of accepted operations (register a GPU of 1 slice, place -1, place 2, release the first) that leaves 2 slices reserved on it |
| LedgerState.PlaceThenRelease | services/gpu-scheduler/internal/ledger/ledger.go:178-208 | releasing a placement restores the ledger it was made in |
| LedgerState.BestUnique | services/gpu-scheduler/internal/ledger/ledger.go:163-177 | at most one GPU precedes all other eligible ones, so the walk over the map cannot show |
| LedgerState.BestIff | services/gpu-scheduler/internal/ledger/ledger.go:163-177 | a GPU is the chosen one if and only if it is eligible, has the wanted NVLink group if any eligible GPU has it, and, among the eligible ones that agree with it on that, has the least free memory and on equal memory the smallest id |
| LedgerState.EligibleIff | services/gpu-scheduler/internal/ledger/ledger.go:137-159 | a GPU is eligible if and only if its tenant and SKU agree and its totals hold the request on top of what the reservation table puts on it |
| Strings.LessIff | services/gpu-scheduler/internal/ledger/ledger.go:176 | the order of ids is lexicographic: the first difference decides, and a proper prefix comes first |
| LedgerState.RunIsSoundIff | services/gpu-scheduler/internal/ledger/ledger.go:80-208 | with slice counts of any sign, a run is sound in all its states if and only if each of its releases leaves the rest fitting |
| LedgerState.EveryRunIsSound | services/gpu-scheduler/internal/ledger/ledger.go:80-208 | in every state of every run without negative slice counts the index by GPU is the partition of the reservations, no GPU is over-committed, and locked GPUs hold their tenant's reservations only |
| LedgerState.LockedChosenIff | services/gpu-scheduler/internal/ledger/ledger.go:115-177 | the documented "tenant-locked first" holds if and only if no shared GPU precedes all eligible locked ones in the comparator's order |
| LedgerState.SharedChosenOverLocked | services/gpu-scheduler/internal/ledger/ledger.go:115-177 | a sound ledger and a request for which a shared GPU is chosen over one locked to the tenant |
| Ledger.SortedHead | services/gpu-scheduler/internal/ledger/ledger.go:163-178 | the first candidate after the sort precedes all others, however they were listed |
| Ledger.Ledger.RegisterGPU | services/gpu-scheduler/internal/ledger/ledger.go:80-97 | accepts if and only if id and memory are given, then sets the GPU (at least one slice) and keeps an existing index entry; otherwise nothing changes |
| Ledger.Ledger.Candidates | services/gpu-scheduler/internal/ledger/ledger.go:137-159 | the candidates are exactly the eligible GPUs, each once, with its true free memory |
| Ledger.Ledger.Place | services/gpu-scheduler/internal/ledger/ledger.go:121-193 | invalid if and only if the request is, no capacity if and only if no GPU is eligible, and otherwise a reservation with the request's own fields is on the eligible GPU that is chosen by wanted group, least free memory and smallest id; failures change nothing, and for any id and slice count the ledger stays sound if and only if the id fits |
| Ledger.Ledger.Release | services/gpu-scheduler/internal/ledger/ledger.go:196-208 | removes the reservation from both indexes, does nothing for an unknown id, and keeps the ledger sound if and only if the rest fits |
| Ledger.Ledger.FreeVRAM | services/gpu-scheduler/internal/ledger/ledger.go:211-223 | the total less the sum of the reservation table on that GPU, although it is computed from the other index |
| Divergence.Normalize | pkg/autonomy/divergence.go:18-35 | the two loops compute the shares of the positive mass, empty if there is none |
| Divergence.NormalizedPositive | pkg/autonomy/divergence.go:18-35 | a positive distribution keeps its keys and ratios and sums to exactly one |
| DivergenceScale.NormalizedShares | pkg/autonomy/divergence.go:18-35 | for all inputs, normalising keeps exactly the keys with a positive value and gives each its share of the positive mass |
| Divergence.Smooth | pkg/autonomy/divergence.go:38-53 | both results over the union of the keys, padded and normalised |
| Divergence.KL | pkg/autonomy/divergence.go:57-68 | the loop computes the sum of p ln(p/q) over the smoothed pair, in any key order |
| Divergence.Gibbs | pkg/autonomy/divergence.go:57-68 | Gibbs' inequality for positive distributions of equal mass |
| Divergence.KLNonNegative | pkg/autonomy/divergence.go:57-68 | for non-negative inputs the divergence is never negative |
| DivergenceScale.KLIsRelativeEntropy | pkg/autonomy/divergence.go:57-68 | the value is the sum of a(ln a - ln b) over the explicitly padded shares a = (p + eps)/(mass + n eps) and b of the other input |
| DivergenceScale.KLZeroIff | pkg/autonomy/divergence.go:57-68 | it is zero if and only if those shares agree on every key |
| Divergence.DominatedAfterSmoothing | pkg/autonomy/divergence.go:71-84 | after the second smoothing the mixture still dominates half of each distribution, so each half divergence is at most ln 2 |
| Divergence.JS | pkg/autonomy/divergence.go:71-84 | the loops compute the mean of the two divergences to the mixture over ln 2, which the following rows tie to the textbook value in bits |
| Divergence.JSInUnitInterval | pkg/autonomy/divergence.go:71-84 | for non-negative inputs the value is in [0,1] |
| Divergence.JSSymmetric | pkg/autonomy/divergence.go:71-84 | symmetric for all inputs |
| DivergenceScale.JSIsTextbook | pkg/autonomy/divergence.go:71-84 | although smoothing happens before and after mixing, the value is the textbook Jensen-Shannon divergence in bits of two explicit distributions, the twice smoothed shares |
| DivergenceScale.JSZeroIff | pkg/autonomy/divergence.go:71-84 | zero if and only if the smoothed shares agree on every key |
| DivergenceScale.JSNearOne | pkg/autonomy/divergence.go:71-84 | inputs of mass at least one without a common support are at one bit, less at most 2t + 4n eps(1 + 1/t) for n keys and any t > 0 |
| DivergenceScale.JSOfDisjointClasses | pkg/autonomy/divergence.go:71-84 | with at most a thousand classes, inputs of mass at least one on disjoint keys are above 0.99 |
| Divergence.TVD | pkg/autonomy/divergence.go:87-101 | the loop computes half the L1 distance of the normalised pair |
| Divergence.TVDSymmetric | pkg/autonomy/divergence.go:86-101 | symmetric for all inputs |
| Divergence.TVDInUnitInterval | pkg/autonomy/divergence.go:86-101 | in [0,1] for all inputs, negative or empty ones included |
| Divergence.TVDTriangle | pkg/autonomy/divergence.go:86-101 | the triangle inequality, although each pair is smoothed over its own keys |
| Divergence.TVDZeroIffSameShares | pkg/autonomy/divergence.go:86-101 | zero if and only if every key has the same share of both positive masses |
| DivergenceScale.TVDIsLargestDifference | pkg/autonomy/divergence.go:86-101 | for inputs with some positive mass, no set of keys gets probabilities that differ by more than the value, and the set of keys to which the first gives more differs by exactly it |
| DivergenceScale.TVDIsAttained | pkg/autonomy/divergence.go:86-101 | there is such a set for every two such inputs |
| ClaimCheck.RoundTripIffNoColon | pkg/dataplane/claimcheck/store.go:62-82 | a locator is read back from its wire form if and only if its ring's name has no colon |
| ClaimCheck.Ring.Put | pkg/dataplane/claimcheck/store.go:88-96 | the slot of the ticket gets the payload and the next generation, no other slot changes, and the locator names ring, slot and generation |
| ClaimCheck.Ring.Get | pkg/dataplane/claimcheck/store.go:100-118 | out of range if and only if the slot is; stale if and only if the slot's generation differs; otherwise its payload, which is the slot's own, or never written |
| ClaimCheck.LocatorsNameTheirPayload | pkg/dataplane/claimcheck/store.go:84-118 | under every interleaving of tickets and locked writes, finished puts have distinct locators, and looking one up gives its own payload or stale, never another's |
| ClaimCheck.StaleForEver | pkg/dataplane/claimcheck/store.go:98-108 | once stale, a locator is stale after any further steps |
| ClaimCheck.SequentialLifetime | pkg/dataplane/claimcheck/store.go:88-118 | the k-th put (from 0) gets slot k mod cap and generation k/cap+1, and can be read if and only if fewer than cap puts follow |
| Boxes.IouSymmetric | pkg/dataplane/operators/tracker.go:115-138 | symmetric for all boxes |
| Boxes.IouInUnitInterval | pkg/dataplane/operators/tracker.go:115-138 | in [0,1] for all boxes, negative sizes included, and positive if and only if they overlap with an area |
| Boxes.IouIsOneIffSame | pkg/dataplane/operators/tracker.go:115-138 | one if and only if the boxes are equal and have an area |
| Boxes.IouOfCommonPoints | pkg/dataplane/operators/tracker.go:115-138 | for any boxes: with s the box of exactly the points both contain, the value times (area + area - area of s) is the area of s, and the value is zero when they share no area |
| Tracker.BestIsBest | pkg/dataplane/operators/tracker.go:71-86 | the chosen track has the largest overlap of all unused tracks of the class at or above the threshold (the first of equals), and none is chosen only if there is none |
| Tracker.Tracker.FindBest | pkg/dataplane/operators/tracker.go:72-86 | the scan returns that choice |
| Tracker.Tracker.DropMissing | pkg/dataplane/operators/tracker.go:101-112 | the in-place compaction leaves exactly the aged tracks within the limit, in their old order |
| Tracker.Tracker.Assign | pkg/dataplane/operators/tracker.go:69-113 | tracks, hits and the ids written into the detections are those of the frame specification, with the appends and the compaction done in place |
| TrackerRuns.HitsAreDistinct | pkg/dataplane/operators/tracker.go:69-100 | no two detections of one frame get the same track id |
| TrackerRuns.SurvivorOf | pkg/dataplane/operators/tracker.go:69-113 | a surviving track was hit and has no misses, or was not hit and has exactly one more than before |
| TrackerFrames.GreedyMatching | pkg/dataplane/operators/tracker.go:71-100 | for each detection in order, from the old tracks and the earlier ids alone: it gets the first of the tracks with the largest overlap among those of its class, at or above the threshold, that no earlier detection took, and a new id if there is none |
| TrackerFrames.FrameLeaves | pkg/dataplane/operators/tracker.go:69-113 | exactly these tracks are left: one for each detection with its id, class and box and no misses, and each track without a detection that may miss one more, with its class and box as they were and one miss more |
| TrackerFrames.SurvivorsInOrder | pkg/dataplane/operators/tracker.go:101-112 | survivors keep their order, and new tracks come behind them |
| TrackerRuns.LiveIdsDistinct | pkg/dataplane/operators/tracker.go:69-113 | after any frames with fresh ids, live track ids are pairwise distinct |
| TrackerRuns.MissedCountsFrames | pkg/dataplane/operators/tracker.go:101-112 | after any frames, a live track was last hit exactly `missed` frames ago, never more than the maximum |
| TrackerRuns.NoSharedTrack | pkg/dataplane/operators/tracker.go:69-113 | in every frame of every run, no two detections share a track |
| DwellRule.RuleOperator.Evaluate | pkg/dataplane/operators/rule.go:84-128 | for one rule, the loop computes the frame specification: history, events in order, and the detections with the first one overwritten |
| DwellRule.DetectedTrack | pkg/dataplane/operators/rule.go:93-125 | with unique ids, each detected track takes one step of its own automaton and has an event if and only if it fires, whatever the other detections do |
| DwellRule.CentreDecides | pkg/dataplane/operators/rule.go:131-138 | a box counts as inside if and only if the point halfway between its opposite corners is in the zone, borders included |
| DwellRule.BetweenWithinAndTouching | pkg/dataplane/operators/rule.go:131-138 | a box within the zone counts as inside, and a box that counts shares a point with the zone |
| DwellRule.FrameEvents | pkg/dataplane/operators/rule.go:84-163 | the events of a frame are exactly those of its firing detections, one each and in their order, with the rule, zone, time and the detection's own track, class and box |
| DwellRule.DetectionsKeptIff | pkg/dataplane/operators/rule.go:113-116 | a frame hands its detections on unchanged if and only if none after the first fires |
| DwellRule.OverwriteHappens | pkg/dataplane/operators/rule.go:113-116 | two frames from an empty history whose second hands on its second detection twice and loses its first |
| DwellRule.FiresIffFirstDwell | pkg/dataplane/operators/rule.go:97-119 | the rule fires if and only if this is the first sighting after entry, in the current uninterrupted stay, with the dwell time reached |
| DwellRule.OneEventPerStay | pkg/dataplane/operators/rule.go:97-119 | two firings of a track are never in the same stay |
| DwellRule.EventIffFirstDwell | pkg/dataplane/operators/rule.go:84-128 | over any frame sequence, the last frame has an event for a track if and only if the track is detected in it and that sighting is such a first one |
| AgentLoop.Agent.Loop | pkg/agent/agent.go:230-343 | fields, recorded steps, status and visible events of a run are those of the run specification, for any model, gateway and cancellation |
| AgentLoop.Agent.Dispatch | pkg/agent/agent.go:281-341 | the loop over one reply's calls does what the call specification says, up to the first call that ends the run |
| AgentLoop.Agent.RunGoal | pkg/agent/agent.go:204-215 | a first run starts with the optional system prompt and the goal, a later one with the history as it is |
| AgentLoop.Agent.Resume | pkg/agent/agent.go:221-247 | a resumption records the gate's resolution first and then runs the same loop |
| AgentLoop.StoppedIsFinal | pkg/agent/agent.go:281-341 | after a call that ends the run, the later calls of its reply have no effect at all |
| AgentOutcomes.CallsTrace | pkg/agent/agent.go:281-341 | the calls of a reply up to the first one that is of an unknown tool or above the ceiling are executed in order, each with its result in the history; that one fails the run or opens its gate; recorded steps, events, gate and status are listed exactly |
| AgentOutcomes.RunTrace | pkg/agent/agent.go:248-343 | history, events and recorded steps of a run are the concatenation of what each reply contributes, in order, one reply being asked for as long as the counter is below the cap, the context is not done and all calls were executed |
| AgentOutcomes.HowRunsEnd | pkg/agent/agent.go:230-363 | for every run and resumption: completed if and only if the last reply asks for no tool; awaiting a gate if and only if the last event opens one, which is then the agent's gate, opened for the first call not executed; failed if and only if the chat failed, that call is of an unknown tool or finds no gateway, the counter reached the cap or the context is done |
| AgentLoop.EveryRunIsBounded | pkg/agent/agent.go:230-363 | for any model: no tool above the ceiling runs, nothing happens after a gate opens, step indices are consecutive, and a run from step s makes at most ceil((MaxSteps-s)/2) chat calls |
| AgentLoop.StepsBounded | pkg/agent/agent.go:248-343 | with replies of at most m calls, the counter of a run below the cap ends at most 2m above the last step, counted in twos from its start, that is below the cap |
| AgentLoop.StepBoundIsReached | pkg/agent/agent.go:248-343 | that maximum is reached as soon as some registered tool runs without a gate |
| AgentLoop.CapHonouredIff | pkg/agent/agent.go:132-143 | from any state of a run the counter stays within MaxSteps for every model if and only if it is at the cap, or below it with no tool that runs without a gate and either room for a gate (two steps) or no tool at all |
| AgentLoop.CapExceeded | pkg/agent/agent.go:248-343 | a new agent with MaxSteps 1 and one tool whose first run ends at step 2 |
| AgentLoop.CeilingHonouredIff | pkg/agent/agent.go:132-147 | the configured ceiling is honoured by every run and resumption from any step and history if and only if it is not 0, no registered tool has tier 1 or 2, or MaxSteps is negative |
| RateLimit.Store.IncrAndCheck | pkg/platform/middleware/ratelimit.go:101-113 | exactly the tenant's and metric's entry is counted, in a new window when the old one is over |
| RateLimit.Store.Admit | pkg/platform/middleware/ratelimit.go:42-75 | requests without tenant or positive limit pass uncounted; any other is counted and admitted if and only if the count is within the limit |
| RateLimit.TenantsAreIndependent | pkg/platform/middleware/ratelimit.go:101-113 | what the store holds for a tenant depends on that tenant's requests only, however they interleave |
| RateLimit.AdmittedPerWindow | pkg/platform/middleware/ratelimit.go:83-113 | each tumbling window admits exactly the smaller of its number of requests and the limit |
| RateLimit.AdmittedPerInterval | pkg/platform/middleware/ratelimit.go:83-113 | with a forward clock, any closed interval of the window's length has at most 2*limit-1 admitted requests |
| RateLimit.EveryTenantPerInterval | pkg/platform/middleware/ratelimit.go:42-113 | the same for each tenant among interleaved requests of all tenants |
| RateLimit.BoundIsReached | pkg/platform/middleware/ratelimit.go:83-113 | for every window and limit a sequence of requests that reaches 2*limit-1 |
| RateLimit.LimitKeptIff | pkg/platform/middleware/ratelimit.go:83-113 | the limit holds in every interval of the window length, for all request sequences, if and only if it is 1 |
| RollingWindow.Rolling.Observe | services/drift-detection-service/internal/window/window.go:42-55 | a named class adds one entry to the full log and moves the clock, an empty one does neither, and the pruned buckets still mirror the log |
| RollingWindow.ObserveMirrors | services/drift-detection-service/internal/window/window.go:42-55 | counting one detection keeps the buckets equal to the counts of the log from the pruning horizon on |
| RollingWindow.PairAdded | services/drift-detection-service/internal/window/window.go:69-76 | adding one bucket entry keeps class totals, overall total and their sum equal to the counts of the log entries seen so far, in any map order |
| RollingWindow.SharesSumToOne | services/drift-detection-service/internal/window/window.go:77-81 | dividing the class totals by the overall total gives shares that sum to exactly one |
| RollingWindow.Rolling.Prune | services/drift-detection-service/internal/window/window.go:64-68 | exactly the buckets before the cutoff go |
| RollingWindow.Rolling.AddUp | services/drift-detection-service/internal/window/window.go:69-76 | the nested loops total the log since the cutoff: overall, per class, and which classes occur |
| RollingWindow.Rolling.Snapshot | services/drift-detection-service/internal/window/window.go:59-88 | a snapshot reports what counting the whole unpruned log since now - width gives, so earlier pruning never shows, and its shares sum to one when there are samples |

## Left out

- Servers and wiring: HTTP handlers, `main.go` files, the console, metrics, logging, tracing, health and shutdown have no hard property of their own.
- Outside services: NATS, Kafka, SQL drivers, Triton and the LLM clients; what they answer is a parameter. `ListActive` is any list of distinct listed plans, so its LIMIT and order are covered; `AggregateSince` is any pair of observations. Errors of the store within a tick leave the plan as it was and are not modelled.
- Pipeline runtime: cancellation and operators that stop before their upstream closes. On cancellation a wrapper can stay blocked, so termination holds for graceful end of stream only. Operators are deterministic functions of their input; frames are values, not shared pointers; operator errors and metrics are not modelled.
- Pipeline.StepKeepsInv: goroutines are a transition system rather than methods, because their steps interleave.
- Canary: `Variant` and its hash, `Lookback` defaults, event emission, and operator pause and resume, which write a plan's status outside the loop. A negative step, which would index the ladder out of range, is excluded by precondition; ticks never create one.
- Canary.Next: the branches for an empty ladder and for a step past the end are modelled as the code has them, but the loop never reaches them.
- DAG compiler: `yaml.go`, and plan and registry metadata that the sort does not look at.
- Edge queue: I/O errors other than a failing file creation (a write that fails midway leaves its file behind), arrival times (which are not on disk), foreign file names that the scanner would also accept, and numbers that restart after everything was acknowledged before a restart.
- EdgeQueue.Queue.constructor: a directory that makes `replay` panic is excluded by its precondition; `EdgeReplay.Replay` has the panic as its outcome, and `EdgeReplay.ReplayCrashesIff` says which directories of the queue's own files do that.
- EdgeReplay.Replay: the zero bytes that a slice may take from beyond a file's end follow how Go's `os.ReadFile` allocates (at least 512 bytes, and one more than the file has); another library version may differ for files cut short, never for completed writes.
- EdgeQueue.Queue.Drain: a queue opened over a foreign file numbered 0 is outside the contracts of the methods that change it; the queue itself numbers from 1.
- EdgeQueue.Queue.Put: requires a number below 2^64, as the counter would wrap there.
- EdgeDrain.StepKeepsInv: directory files are not part of the concurrent model; a put whose file cannot be created changes nothing and is not a step.
- Ledger.Ledger.Place: sums are unbounded integers, so 64-bit overflow is not modelled. `Snapshot` only copies.
- LedgerState.EveryRunIsSound: placements of a run have unused ids (the code makes them of model, GPU and a nanosecond clock reading and does not check them) and slice counts that are not negative; `LedgerState.RunIsSoundIff` has the exact condition for counts of any sign, `LedgerState.PlaceKeepsInvIff` for used ids. A run re-registers a GPU only with room for what is reserved on it; `LedgerState.RegisterKeepsInvIff` shows that this is necessary.
- Divergence: rounding of floating-point numbers, NaN and infinities; the method dispatch, `BurnRate` and `MultiWindow` are single branches.
- Claim check: nil payloads, wrap-around of the 64-bit ticket and generation counters, the copy made by `Get`, and the directory of rings.
- Tracker.Tracker.Assign: tracks are values in a slice rather than pointers, which nothing else holds; detections are updated in place.
- TrackerRuns.LiveIdsDistinct: new ids are assumed fresh; they are 64 random bits.
- Dwell rule: one configured rule, as the runner has; a missing capture time, which the code replaces by the current time; the event payload beyond rule, zone, track, class, box and time.
- Agent: results of tools and messages' contents beyond which entry they add, session persistence, per-call timeouts, and a new agent that resumes another one's session.
- Rate limiter: the remaining time reported to a refused client, the cache of fetched quotas, and clock readings taken before the lock and stored out of order.
- RateLimit.AdmittedPerInterval: for one fixed positive limit per tenant, and a clock that does not go back.
- RollingWindow.Rolling.Snapshot: needs a clock that does not go back; the cached total that no code reads is left out.
