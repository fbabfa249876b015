# Verified model of the gpu-sim executor and its runtime

The simulator runs PTX kernels in lock-step warps over a reconvergence stack. This project
models the parts that decide what a run means and proves that they are right:

- **The warp machine.** `Kernel` has decoded instructions (lists of micro-ops under one
  predicate) and the scalar machine, that is, what a thread does when it runs alone. `Warp`
  gives the stack machine as functions on values and `WarpState` the same as methods that
  update a warp in place, with the source's loops. `Predication` says what @p and @!p do.
  `StackShape` and `WarpInvariant` say what every step keeps. `Simulation` proves that a step
  of a warp is a step of each running lane, and `CtaRun` and `Completion` carry this over
  whole runs under any schedule: results are those of the scalar machine, diagnostics are
  faults of some thread, and halting threads always finish within their own work.
  `Diagnostics` says what each diagnostic means for the thread that causes it.
  `InstructionCount` shows that neither the number of steps nor the final state of any warp
  depends on the schedule.
- **Reconvergence.** `Reconvergence` has a frame rule for the stack and shows that a join
  opens once, for all remaining lanes of its branch. `Together` shows what the choice of
  immediate post-dominators adds: lanes of a branch run its reconvergence point together. The
  design document (docs/doc_design/ptx6.4_sm70/04.01_simt_divergence_and_reconvergence.md)
  promises this for every branch. The executor activates a pending join before it compares the
  join's pc with its own reconvergence pc. `Together` proves that, among runs that drain, the
  promise breaks in exactly those that push a join which would have to merge at once, that is,
  split at a branch which the table sends to the reconvergence point of the frame that runs
  it; an example is a loop branch that splits again while lanes that left the loop earlier
  wait. `SharedReconvergence` has a kernel without a loop for which the promise fails.
- **Control-flow analysis.** `Graph`, `PostDom`, `Ipdom` and `ControlFlowAnalysis` prove the
  round-robin sweep, its bound, and the choice of reconvergence points against paths.
  `CfgExact` shows that the graph has an edge exactly where some thread can move.
- **Schedulers and the driver.** `WarpScheduling`, `SchedulePolicy`, `CtaScheduling`,
  `CtaLoop`, `KernelRun` and `KernelLaunch` cover both warp schedulers, both CTA schedulers
  under every interleaving, and the single-threaded launch from the checks to the final
  report. The report `completed` is also given when the step limit ends a run, although the
  public API (docs/doc_user/public_api.md) explains it as whether execution completed;
  `RunKernel` states exactly when it is right: if the limit is at least the number of
  instructions of the launch.
- **Workloads.** `Workload` proves the stream and event sweep against all orders that respect
  streams and events; `WorkloadMemory` adds that race-free workloads end in the same memory.
- **Units and data.** `LaneRegisters`, `Shuffle`, `ShuffleLaw` and `WarpReduce` cover the
  cross-lane micro-ops; `ThreadNumbering`, `ThreadIdentity` and `LocalMemory` thread indices,
  what threads know about themselves, and local windows, with the proof that the one store of
  the simulator does the work of the private memories that the scalar machine gives its
  threads; `Params`, `Words`, `GlobalMemory` and `DeviceMemory` parameters and device memory;
  `Json`, `JsonCursor`, `JsonGrammar`, `JsonAccepts` and `JsonRoundTrip` the JSON reader,
  which accepts exactly what a grammar derives, and the writer. `Arithmetic` and `Options` are
  shared helpers.

`dafny verify dfyconfig.toml` checks everything.

## Model

| member | source | states |
|---|---|---|
| WarpState.WarpState.NormalizeStack | src/simt/simt.cpp:304-372 | the loop that pops, merges and activates frames computes `Normalize`: exactly the recursive meaning of the stack, for every stack, including the failing outcome |
| WarpState.WarpState.MergeIntoJoin | src/simt/simt.cpp:338-353 | the search from the top finds the nearest join for the pc, adds the arrived lanes to it and changes nothing else; it fails only if there is no such join |
| WarpState.WarpState.PredMask | src/simt/simt.cpp:467-476 | the mask holds exactly the active lanes whose predicate (or its negation) is true, and all lanes if there is no predicate |
| Predication.UnpredicatedEnablesAll | src/simt/simt.cpp:435-437 | without a predicate all running lanes are enabled |
| Predication.OppositePredicates | src/simt/simt.cpp:462-476 | on the same warp @p and @!p enable disjoint sets of lanes that together are all running lanes |
| Predication.WrittenPredicate | src/simt/simt.cpp:467-473 | after a lane has written a predicate, @p enables it exactly if it wrote true and @!p exactly if it wrote false |
| Predication.InitialPredicates | src/simt/simt.cpp:249 | predicates start out true: where none has been written @p enables every running lane and @!p none |
| Predication.InPredicateFile | src/simt/simt.cpp:437-460 | an instruction is refused exactly if its predicate lies outside the file of eight predicates per lane |
| Predication.SkipsWhenOff | src/simt/simt.cpp:467-476 | an instruction whose predicate has the wrong value changes nothing for the thread and lets it fall through, RET and BRA included |
| Predication.RunsWhenOn | src/simt/simt.cpp:467-476 | with the right value it does what it does without a predicate |
| WarpState.WarpState.ExecLanes | src/units/exec_core.cpp:183-187 | a lane-local micro-op changes each enabled lane by its own function of its own state, no other lane, and succeeds exactly if every enabled lane does |
| WarpState.WarpState.Dispatch | src/simt/simt.cpp:517-600 | RET retires the guarded lanes of the running frame; BRA sets the next pc, asks for a split when lanes disagree, and gives each of its diagnostics in the source's order |
| WarpState.WarpState.Execute | src/simt/simt.cpp:404-652 | fetch, predicate, run all micro-ops, commit: the whole new state of the warp, or the first diagnostic |
| WarpState.WarpState.Commit | src/simt/simt.cpp:602-650 | the running frame is replaced by join, fall-through and taken frames, or moves to its next pc |
| StackShape.NearestJoin | src/simt/simt.cpp:333-353 | in a well-shaped stack the top frame reconverges at the join right below it or below its pending sibling, or at the program end if there is none |
| StackShape.FindJoinIsNearest | src/simt/simt.cpp:338-353 | the source's search for a join with the frame's reconvergence pc finds that very join |
| StackShape.DepthBound | src/simt/simt.cpp:608-634 | a well-shaped stack of weight W has at most 2W - 1 frames |
| StackShape.ShapedMerge | src/simt/simt.cpp:333-366 | a path that arrives at its join leaves a well-shaped stack of no more weight |
| StackShape.ShapedSplit | src/simt/simt.cpp:608-634 | so does a divergent branch |
| WarpInvariant.NormalizeStutters | src/simt/simt.cpp:304-372 | normalising keeps the invariant (retired lanes and frame masks partition the initial mask), moves no thread, finishes only when all lanes have retired, and misses a join only if none is pending and some thread has run off the end of the program |
| WarpInvariant.InvBound | src/simt/simt.cpp:217-250 | the invariant bounds the depth by twice the number of lanes minus one and keeps every mask inside the warp |
| Simulation.UopSimulates | src/simt/simt.cpp:489-600 | one micro-op under the mask is, for each active lane, one micro-op of the scalar machine; a diagnostic means that some lane's scalar micro-op faults |
| Simulation.CommitKeeps | src/simt/simt.cpp:602-650 | committing keeps the invariant and puts every lane where the branch or the fall-through sends it |
| Simulation.StepSimulates | src/simt/simt.cpp:391-666 | one turn advances exactly the lanes of the running frame, each by one scalar step, or drains a warp whose lanes have all retired, or ends in a diagnostic because some thread faults on its own |
| Simulation.NeverMissesReconv | src/simt/simt.cpp:536-549 | with the table of a successful analysis the executor's own E_RECONV_MISS cannot occur |
| Diagnostics.StepFailure | src/simt/simt.cpp:391-600 | a turn that ends in a diagnostic names the cause: some thread of the warp has run off the end, stands outside the kernel, at an instruction without descriptor, with a predicate out of range, with two branch targets, or with a micro-op that its unit can refuse; E_RECONV_MISS never occurs |
| CtaRun.RunIsSound | src/simt/simt.cpp:378-666 | under any schedule every thread is where some number of its own scalar steps takes it, and a diagnostic means that some thread faults when run alone |
| CtaRun.StackDepth | src/simt/simt.cpp:608-634 | in every reachable state of every run a warp that started with W lanes has at most 2W - 1 frames |
| Diagnostics.RunFailure | src/simt/simt.cpp:378-666 | a run under any schedule that ends in a diagnostic has a thread that comes to that cause when it runs alone |
| Completion.RunIsComplete | src/simt/simt.cpp:378-666 | if every thread returns on its own, no schedule ends in a diagnostic, and steps taken plus work left never exceed the threads' own work |
| Completion.TurnPays | src/simt/simt.cpp:658-662 | an executed instruction is paid for by the lanes it advances |
| InstructionCount.RunCounts | src/simt/simt.cpp:378-666 | if every thread returns on its own, the steps taken plus the instructions left are, after any turns in any order, the same number, and every warp is on the way to the same final state |
| InstructionCount.RetiredExactly | src/simt/simt.cpp:378-666 | no schedule takes more steps than that number, and all threads have retired exactly when that many were taken |
| InstructionCount.FinishedExactly | src/simt/simt.cpp:378-402 | a run has come to the final state of all its warps exactly when every warp is marked as done |
| InstructionCount.ScheduleIndependence | src/simt/simt.cpp:374-389 | any two schedules that finish a CTA end with identical warps (registers, predicates, local memory, masks, stack, pc) after the same number of steps |
| InstructionCount.InstructionsWithinWork | src/simt/simt.cpp:658-662 | the number of instructions is within the sum of the threads' own steps |
| Reconvergence.NormalizeAbove | src/simt/simt.cpp:304-372 | frame rule: the frames above a point of the stack normalise as a warp of their own; nothing below is looked at until they are gone |
| Reconvergence.ExecuteAbove | src/simt/simt.cpp:404-652 | frame rule: so do they execute, with the same diagnostics |
| Reconvergence.SplitWaits | src/simt/simt.cpp:550-563 | after a divergent branch its join waits at the table's pc for exactly the lanes that took part in the branch |
| Reconvergence.JoinWaitsForAll | src/simt/simt.cpp:325-331 | over any run the join waits, with the frames below untouched, until the turn in which it opens for all lanes of its branch that have not returned, or all have returned |
| Together.InnerComesFirst | src/simt/control_flow_analysis.cpp:207-246 | immediate post-dominators nest: from a branch on the way to an outer reconvergence point its own one is reached first, unless they coincide |
| Together.StaysOnGraph | src/simt/control_flow_analysis.cpp:112-163 | lanes that go on after an instruction continue along an edge of the graph that the analysis built |
| Together.EarlyExactly | src/simt/simt.cpp:325-333 | in a kernel with unpredicated RET whose branches all reach EXIT, a run never has lanes at the pc of a join that waits below them if and only if it never activates a join at that join's own reconvergence pc |
| Together.NoneEarly | src/simt/simt.cpp:606-617 | that never happens before the first turn that splits at a branch which shares the reconvergence point of the running frame |
| Together.SharedSplitRunsEarly | src/simt/simt.cpp:606-617 | in a run that drains it does happen after such a split: no lane can return before that point, so the new join opens there |
| Together.EarlyIffShared | src/simt/simt.cpp:606-617 | so in a run that drains lanes run early if and only if some turn splits at a shared reconvergence point, the guard where the join is pushed |
| Together.EarlyIsBroken | src/simt/simt.cpp:325-331 | a turn with early lanes has lanes of an earlier divergent branch at its reconvergence point while its join has waited since and has not opened |
| Together.BrokenIffShared | src/simt/simt.cpp:606-617 | so in a run that drains the promise of some branch is broken if and only if some turn splits at a shared reconvergence point |
| Together.NestedBranchesApart | src/simt/control_flow_analysis.cpp:207-246 | no run has such a turn if no branch shares the reconvergence point of a branch it is nested in, a condition on the kernel alone |
| Together.BranchesReconverge | src/simt/simt.cpp:325-353 | in every run without such an activation, loops included, the lanes of every divergent branch that have not returned run the instruction at its reconvergence point together |
| SharedReconvergence.NestedRunsEarly | src/simt/simt.cpp:325-331 | without that condition it fails: a concrete kernel, with the table the analysis gives it, runs two lanes at the join of the outer branch while the third waits there |
| ControlFlowAnalysis.ClassifyInst | src/simt/control_flow_analysis.cpp:70-94 | the flags and the target of the last immediate BRA of an instruction |
| ControlFlowAnalysis.BuildCfg | src/simt/control_flow_analysis.cpp:112-163 | builds the graph, or stops because some predicated branch has an invalid target |
| CfgExact.EdgesAreMoves | src/simt/control_flow_analysis.cpp:112-163 | for an instruction that can pass, the graph has an edge to another instruction exactly if the scalar step moves some thread there, and to EXIT exactly if it makes some thread return or leave the kernel, if and only if the instruction is no predicated RET in front of another one, whose fall-through the analysis leaves out |
| CfgExact.RefusedBranches | src/simt/control_flow_analysis.cpp:134-143 | an instruction is refused exactly if it is a predicated branch without RET that has no immediate operand, or whose last one is no address inside the kernel |
| PostDom.ComputePostDominators | src/simt/control_flow_analysis.cpp:167-205 | the sweep ends within as many sweeps as there are nodes, so the exit at 4n + 64 is dead code, with sets that hold exactly the nodes on every path to EXIT |
| PostDom.Sweep | src/simt/control_flow_analysis.cpp:185-204 | one in-place sweep keeps the sets between the exact ones and those for paths of bounded length, and improves the bound by one |
| Graph.PostDominatesIffShort | src/simt/control_flow_analysis.cpp:167-205 | post-dominance over all paths is decided by paths with at most n - 1 edges |
| Ipdom.UniqueIpdom | src/simt/control_flow_analysis.cpp:218-238 | if EXIT can be reached exactly one strict post-dominator post-dominates no other, and all others post-dominate it |
| Ipdom.CandidatesFormChain | src/simt/control_flow_analysis.cpp:214-226 | the strict post-dominators of such a node form a chain |
| Ipdom.MissExactly | src/simt/control_flow_analysis.cpp:240-243 | a branch has no immediate post-dominator exactly if EXIT is out of reach from it and from at least two other nodes |
| ControlFlowAnalysis.SelectIpdom | src/simt/control_flow_analysis.cpp:214-238 | the nested loops return an immediate post-dominator, or none exists |
| ControlFlowAnalysis.AnalyzeControlFlow | src/simt/control_flow_analysis.cpp:98-249 | the table holds the first immediate post-dominator of every predicated branch and nothing else; the two diagnostics occur exactly in the two cases stated |
| CfgExact.IfElseMeets | src/simt/control_flow_analysis.cpp:98-249 | for an if with an else the table sends the branch to the instruction behind the else |
| ControlFlowAnalysis.TableIsComplete | src/simt/control_flow_analysis.cpp:207-246 | for an accepted kernel every predicated branch has an entry |
| WarpScheduling.WarpScheduler.PickNext | src/simt/warp_scheduler.cpp:11-49 | none is returned exactly if every warp is done; in-order picks the first live warp, round-robin the first live one from its cursor upwards, or else from the start |
| WarpScheduling.RoundRobinFair | src/simt/warp_scheduler.cpp:36-49 | in any n consecutive round-robin picks among n warps every warp that stays live is picked |
| WarpScheduling.OneSchedule | src/simt/warp_scheduler.cpp:11-49 | a policy leaves no choice: two schedules that it makes for the same warps agree as far as both go |
| CtaScheduling.FifoCtaScheduler.Submit | src/runtime/cta_scheduler.cpp:13-19 | fifo: the item joins the end of the queue |
| CtaScheduling.FifoCtaScheduler.Acquire | src/runtime/cta_scheduler.cpp:36-46 | fifo: the front item, nothing after a stop or when closed and empty, otherwise the caller waits |
| CtaScheduling.SmRoundRobinCtaScheduler.Submit | src/runtime/cta_scheduler.cpp:64-71 | sm_round_robin: the item joins the queue of SM linear mod n |
| CtaScheduling.SmRoundRobinCtaScheduler.Acquire | src/runtime/cta_scheduler.cpp:88-101 | sm_round_robin: the same with the caller's own queue |
| CtaScheduling.Conservation | src/runtime/cta_scheduler.cpp:13-101 | under every interleaving of all operations delivered plus waiting items are the submitted ones, in order |
| CtaScheduling.DeliveredToOwnSm | src/runtime/cta_scheduler.cpp:56-101 | CTA i is delivered only to SM i mod n |
| CtaScheduling.NoneDeliveredTwice | src/runtime/cta_scheduler.cpp:13-101 | no CTA is delivered twice, neither by one queue nor by two |
| CtaScheduling.NothingMeansAllDelivered | src/runtime/cta_scheduler.cpp:36-46 | without a stop, an SM that is told there is nothing left has got everything submitted to it |
| CtaScheduling.OpenDelivers | src/runtime/cta_scheduler.cpp:36-46 | before close and stop a caller gets the next undelivered item of its queue, and waits exactly if there is none |
| CtaScheduling.StopEndsDelivery | src/runtime/cta_scheduler.cpp:39 | after a stop nobody gets an item any more |
| CtaLoop.TakeTurn | src/simt/simt.cpp:391-402 | a turn is `Step`: a drained warp is skipped, a failing one ends the CTA |
| CtaLoop.RunCta | src/simt/simt.cpp:374-667 | the loop follows the schedule that the warp scheduler's policy makes, pick by pick, so all results about schedules apply; it ends with all warps done, with a diagnostic, or at the step limit, and terminates by steps left and live warps |
| SchedulePolicy.SameTurns | src/simt/simt.cpp:374-391 | two runs of a CTA under one policy are in the same state after the same number of turns |
| SchedulePolicy.NoWarpStarves | src/simt/simt.cpp:374-391 | in a run under round-robin a warp that stays live is picked within as many turns as the CTA has warps |
| KernelRun.RunOneCta | src/simt/simt.cpp:200-668 | one CTA: the analysis diagnostic, justified by the kernel, exactly for kernels it rejects; otherwise a run that the policy makes and that ends with all threads retired in their scalar states, with a diagnostic whose cause some thread comes to on its own, or at the step limit; if all threads return, they have all retired exactly when the CTA's number of instructions has been executed |
| ThreadIdentity.KnowsItself | src/units/exec_core.cpp:66-123 | in the warps that a CTA starts with the builtins of every thread locate it: %tid lies in %ntid, %ctaid in %nctaid, these are the sizes of the launch, and the indices give the place of its lane in the block and its number in the grid |
| ThreadIdentity.NoTwoAlike | src/units/exec_core.cpp:66-123 | two threads of the grid with the same %ctaid and %tid are the same thread |
| ThreadIdentity.EveryIndexHasThread | src/units/exec_core.cpp:66-123 | every index of the grid and of the block belongs to some thread |
| ThreadIdentity.StartsFresh | src/simt/simt.cpp:217-250 | warps start at the first instruction, with exactly the lanes that carry a thread, and with nothing written |
| ThreadIdentity.StartsWithPredicatesTrue | src/simt/simt.cpp:249 | on these warps @p enables every running lane and @!p none |
| KernelRun.DoneIsRetired | src/simt/simt.cpp:378-384 | when no warp is live every thread of the CTA has been retired by RET in the state the scalar machine computes |
| KernelLaunch.SubmitAll | src/simt/simt.cpp:189-198 | submission queues every CTA of the grid once, in the order of its linear index |
| KernelLaunch.CheckLaunch | src/simt/simt.cpp:107-155 | the checks of dimensions, warp size and selectors, first failure first |
| KernelLaunch.AcceptedLaunches | src/simt/simt.cpp:107-155 | exactly which launches pass the checks, and which error comes first |
| KernelLaunch.EffectiveExactly | src/simt/simt.cpp:122 | a launch runs with its own warp size, or with the configured one if it gives none |
| KernelLaunch.SelectedPolicy | src/simt/warp_scheduler.cpp:57-61 | which scheduler a name selects; unknown names that are allowed stand for the in-order one |
| KernelLaunch.RunCtas | src/simt/simt.cpp:698-707 | the driver loop: how a launch ends, with the exact condition for all threads of all CTAs to have retired, the cause of every diagnostic, and every CTA under the configured policy |
| KernelLaunch.RunKernel | src/simt/simt.cpp:99-711 | the whole run: all threads have retired if and only if the kernel is accepted, all threads return on their own, and the step limit is at least the number of instructions of the launch; when they return, completion is always reported, after the smaller of the two numbers of steps; with a limit of 0 it is reported although no thread has run an instruction |
| KernelLaunch.ConfigIndependence | src/simt/simt.cpp:99-711 | two launches under any schedulers and limits that retire all threads take the same number of steps and leave every thread in the same state; with identical warps unless one ended on its step limit |
| KernelLaunch.StepsWithinWork | src/simt/simt.cpp:658-662 | the steps of a launch stay within the sum of the threads' own steps |
| ThreadNumbering.IndexThenLinear | src/units/exec_core.cpp:66-73 | the thread index computed from a linear index lies in the block box and determines it |
| ThreadNumbering.LinearThenIndex | src/units/exec_core.cpp:66-73 | every index of the box comes from exactly one linear index |
| ThreadNumbering.ThreadHasOneLane | src/simt/simt.cpp:219-233 | each thread of the block is carried by exactly one active lane of one warp |
| ThreadNumbering.EveryWarpHasThread | src/simt/simt.cpp:127 | no warp is created without a thread |
| ThreadNumbering.GlobalLinearInjective | src/units/mem_unit.cpp:108-121 | the linear index of a thread in the grid determines the thread |
| ThreadNumbering.WindowsAreDisjoint | src/units/mem_unit.cpp:123-129 | local addresses of two threads coincide only for the same thread and offset, for offsets below 4096 |
| ThreadIdentity.NextWindow | src/units/mem_unit.cpp:123-129 | the windows of neighbouring threads start 4096 bytes apart |
| LocalMemory.MemUnit.StoreLane | src/units/mem_unit.cpp:143-149 | a local store writes its little-endian bytes at the effective address |
| LocalMemory.MemUnit.LoadLane | src/units/mem_unit.cpp:131-141 | a local load reads the bytes there, zero where nothing was written |
| LocalMemory.OwnStoreIsLoaded | src/units/mem_unit.cpp:257-273 | a thread loads back what it has stored |
| LocalMemory.FreshLoadsZero | src/units/mem_unit.cpp:131-141 | local memory starts out as zeros |
| LocalMemory.OtherThreadsAreUntouched | src/units/mem_unit.cpp:338-358 | no store changes what another thread loads |
| LocalMemory.FreshAgrees | src/units/mem_unit.cpp:131-141 | before any access the shared store agrees with empty private memories |
| LocalMemory.SharedIsPrivate | src/units/mem_unit.cpp:123-149 | any run of loads and stores of any threads, inside their windows of the shared store, gives every thread the registers and the memory it has with a private one |
| LocalMemory.PrivateIsScalar | src/units/mem_unit.cpp:257-273 | the private access is a lane-local micro-op of the scalar machine |
| Workload.VisitStream | src/runtime/workload.cpp:584-637 | the front command of a stream runs if it is not a wait for an event that has not been recorded |
| Workload.RunStreams | src/runtime/workload.cpp:574-651 | the sweep runs commands in an order that respects streams and events, gets as far as any such order, and completes exactly if some order runs everything; it terminates |
| Workload.Confluence | src/runtime/workload.cpp:580-647 | all orders that run until nothing is ready have run the same commands |
| Workload.StreamsInOrder | src/runtime/workload.cpp:580-637 | in every order a stream runs its commands one after the other |
| Workload.WaitsForItsEvent | src/runtime/workload.cpp:589-624 | in every order from the start a wait runs only after a command that recorded its event |
| Workload.EffectIsChain | src/runtime/workload.cpp:580-637 | the memory after an order is what its copies and kernels make of it, each given what the one before has left |
| Workload.ChainIsEffect | src/runtime/workload.cpp:580-637 | if each of them succeeds on what the ones before leave, so does the order |
| Workload.StuckIsFurthest | src/runtime/workload.cpp:639-646 | where nothing is ready no order gets further, so a reported deadlock is real |
| WorkloadMemory.SameMemory | src/runtime/workload.cpp:580-647 | if commands that are ready together commute, all complete orders leave the same memory |
| WorkloadMemory.SweepIsDeterministic | src/runtime/workload.cpp:580-647 | in particular the sweep leaves the memory of any other complete order |
| LaneRegisters.ReadAfterWrite | src/units/exec_core.cpp:14-50 | a register write changes one register of one lane, even when it grows the vector |
| LaneRegisters.OperandGives | src/units/exec_core.cpp:125-132 | an immediate is read as its two's complement in 64 bits, a register by its number, negative numbers as register 0, other operands as zero |
| LaneRegisters.FreshRegistersAreZero | src/units/exec_core.cpp:14-31 | registers start out as zero |
| Shuffle.WidthRoundTrip | src/units/exec_core.cpp:153-158 | the clamp of the CUDA wrappers decodes to the width it encodes |
| Shuffle.SourceLane | src/units/exec_core.cpp:391-403 | the source lane lies in the segment of the reading lane, and not below it for a shuffle down |
| ShuffleLaw.ShuffleGives | src/units/exec_core.cpp:374-417 | for every member mask, width and operand each lane ends with what the lane it names held before: for .idx the one at that index of its segment, for .down the one that many places further on; its own value past the segment, past the warp, or if either lane is no member; nothing else changes |
| ShuffleLaw.MemberIsBit | src/units/exec_core.cpp:405-410 | a lane is a member exactly if its bit of the mask is set |
| ShuffleLaw.ParameterWraps | src/units/exec_core.cpp:397-403 | larger operands count modulo 32, an index also modulo the width |
| Shuffle.RegisterFile.ShuffleLanes | src/units/exec_core.cpp:374-417 | the loop over the lanes computes `ShflFrom`, each lane reading what the earlier ones left |
| Shuffle.RegisterFile.ExecShfl | src/units/exec_core.cpp:359-421 | the micro-op with its arity and mode checks |
| Shuffle.ShuffleExactly | src/units/exec_core.cpp:374-417 | the loop gives every lane what it would have read at once, exactly if no lane reads a source that an earlier step has changed |
| Shuffle.ShuffleIsSimultaneous | src/units/exec_core.cpp:374-417 | so it does for any shuffle into another register and for every shuffle down |
| Shuffle.ExchangeInPlaceFails | src/units/exec_core.cpp:374-417 | two lanes that exchange values in place with .idx both end with the value of lane 1 |
| WarpReduce.ReduceAdd | src/units/exec_core.cpp:472-489 | the two loops over the register file compute `ReduceAdded`, or leave it alone when an operand cannot be read |
| WarpReduce.ExecReduceAdd | src/units/exec_core.cpp:460-493 | the micro-op with its arity and type checks |
| WarpReduce.ReduceAddSums | src/units/exec_core.cpp:472-489 | WARP_REDUCE_ADD gives all lanes of the mask their sum in lane order and changes no other register of any lane |
| WarpReduce.AddsLanes | src/units/exec_core.cpp:230-248 | 32-bit ADD gives each enabled lane the sum of its own operands, even if the destination is one of them |
| WarpReduce.TreeIsReduce | src/units/exec_core.cpp:374-488 | for an associative and commutative addition the tree of shuffles down and the final shuffle from lane 0 give every lane of a segment of 2, 4, ..., 32 lanes what WARP_REDUCE_ADD gives it |
| WarpReduce.MachineReduces | src/units/exec_core.cpp:374-489 | the same on the register files: the SHFL and ADD loops of the machine end with the value of WARP_REDUCE_ADD in every lane of the segment |
| WarpReduce.WrapperSetting | cuda/demo/warp_reduce_add_demo_alternative.cu:29-30 | the member mask 0xffffffff and the clamp of the CUDA wrappers meet what that statement asks for |
| WarpReduce.MachineShuffles | src/units/exec_core.cpp:382-412 | the shuffles of that sequence are those of the micro-op with a full member mask |
| JsonCursor.Cursor.ReadString | src/common/json.cpp:50-80 | reads a string with its escapes, rejecting \u and unknown ones, or fails at the source's offset |
| JsonCursor.Cursor.ReadNumber | src/common/json.cpp:82-110 | reads a number by the grammar without leading zeros and gives the value it denotes |
| JsonCursor.Cursor.ReadValue | src/common/json.cpp:155-166 | reads a value; recursion terminates by progress of the cursor |
| JsonCursor.Cursor.ReadArray | src/common/json.cpp:114-126 | reads the elements up to the bracket |
| JsonCursor.Cursor.ReadObject | src/common/json.cpp:128-145 | reads the members into an ordered map in which the first value of a key wins |
| JsonCursor.ParseText | src/common/json.cpp:266-272 | one value, then only white space; on failure the offset where the cursor stands |
| JsonGrammar.ReadsGrammar | src/common/json.cpp:27-166 | every text that the grammar derives is accepted with the value it means: white space anywhere, escapes by their codes, fractions and exponents, repeated keys |
| JsonGrammar.NumeralReads | src/common/json.cpp:82-110 | the number read is the integer that all digits form, moved by the exponent less the places after the point |
| JsonGrammar.OneDigit | src/common/json.cpp:82-110 | a digit stands for its distance from 0 |
| JsonAccepts.OnlyGrammar | src/common/json.cpp:27-166 | nothing else is accepted: an accepted text has a derivation that gives the text and the value |
| JsonCursor.Output.PutValue | src/common/json.cpp:185-222 | appends the text of a value |
| JsonCursor.Output.PutString | src/common/json.cpp:170-183 | appends a string with the five escapes |
| JsonRoundTrip.EmplaceInserts | src/common/json.cpp:139 | insertion keeps the order of keys, and a key that is there keeps its value |
| JsonRoundTrip.LessIsLexicographic | src/common/json.cpp:139 | keys are ordered like the words of a dictionary |
| JsonRoundTrip.StringReads | src/common/json.cpp:50-80 | a written string is read back, for arbitrary characters |
| JsonRoundTrip.NumberReads | src/common/json.cpp:82-110 | an integer of at most six digits is read back |
| JsonRoundTrip.RoundTrip | src/common/json.cpp:266-278 | parse(stringify(v)) is v for all nested values whose numbers are integers below 10^6 in magnitude |
| JsonRoundTrip.ReadWriteRead | src/common/json.cpp:266-278 | any accepted text, once parsed, survives writing and parsing again |
| Params.AssignOffsets | src/frontend/parser.cpp:567-575 | offsets are naturally aligned, in declaration order, without overlap and without avoidable gaps |
| Params.WriteLe | src/runtime/workload.cpp:211-216 | writes the little-endian bytes of a value into the blob and nothing else, or refuses a write past its end |
| Params.PackKernelArgs | src/runtime/workload.cpp:218-291 | the blob of all arguments, or the first error; missing arguments last |
| Params.RefusedArguments | src/runtime/workload.cpp:252-280 | which argument a field refuses, and with which error |
| Params.PackFailure | src/runtime/workload.cpp:245-286 | packing fails with the error of the first refused argument, or at last for a missing one |
| Params.PaddingIsZero | src/runtime/workload.cpp:240 | bytes between the fields are zero |
| Params.LoadsArgument | src/memory/memory.cpp:73-86 | loading a parameter gives exactly the bytes of the argument of that name |
| Params.LoadsWord | src/runtime/workload.cpp:250-281 | a 32-bit argument is loaded modulo 2^32, a 64-bit one and the address of a device buffer modulo 2^64, and raw bytes as they are |
| Params.LookupFinds | src/memory/memory.cpp:60-66 | a name stands for its first declaration, in the layout of the packer and in that of the memory |
| Params.LoadsLowerWord | src/memory/memory.cpp:73-86 | a 32-bit load of a 64-bit parameter gives the lower word |
| Params.OrderDoesNotMatter | src/runtime/workload.cpp:245-281 | the order in which the arguments are packed matters neither to the success nor to any load |
| Words.PackLe | src/units/mem_unit.cpp:153-160 | packing gives the lowest bytes, lowest first |
| Words.ByteIs | src/units/mem_unit.cpp:153-160 | byte i is the digit of weight 256^i |
| Words.UnpackLe | src/units/mem_unit.cpp:162-168 | unpacking adds up the first eight bytes with their weights |
| Words.BytesRoundTrip | src/units/mem_unit.cpp:153-168 | packing and unpacking n bytes keeps the value modulo 2^(8n) |
| GlobalMemory.AddrSpaceManager.AllocGlobal | src/memory/memory.cpp:28-36 | the next aligned address, and the space behind it, in wrapping 64-bit arithmetic |
| GlobalMemory.AllocKeepsApart | src/memory/memory.cpp:28-36 | a new allocation has the first aligned address behind all others, and the next one starts behind it, as long as the 64-bit address space has room |
| GlobalMemory.AddrSpaceManager.IsAllocated | src/memory/memory.cpp:15-26 | the scan accepts exactly the ranges inside one allocation, with 64-bit ends |
| GlobalMemory.AcceptsExactly | src/memory/memory.cpp:15-26 | in plain arithmetic: a non-empty range is accepted exactly if it does not wrap around and one allocation contains all of it |
| GlobalMemory.EmptyRange | src/memory/memory.cpp:15-16 | nothing can be read or written anywhere |
| GlobalMemory.AddrSpaceManager.WriteGlobal | src/memory/memory.cpp:38-45 | writes all bytes or, outside allocations, none |
| GlobalMemory.AddrSpaceManager.ReadGlobal | src/memory/memory.cpp:47-58 | reads the bytes, zero where nothing was written |
| GlobalMemory.FreshReadsZero | src/memory/memory.cpp:53-55 | bytes that have never been written read as zero |
| GlobalMemory.ReadBack | src/memory/memory.cpp:38-58 | what is written is read back |
| DeviceMemory.LookupAgrees | cuda/src/cudart_shim/device_memory.cpp:12-21 | the ordered-map lookup finds the one live allocation that contains the pointer, or there is none |
| DeviceMemory.DeviceMemory.Malloc | cuda/src/cudart_shim/device_memory.cpp:30-47 | allocates with alignment 16 and records the allocation; a size of 0 gives the null pointer |
| DeviceMemory.MallocKeeps | cuda/src/cudart_shim/device_memory.cpp:30-47 | live allocations stay disjoint and known to the memory |
| DeviceMemory.DeviceMemory.Free | cuda/src/cudart_shim/device_memory.cpp:49-56 | removes exactly the allocation with that base, or rejects the pointer |
| DeviceMemory.DeviceMemory.MemcpyHostToDevice | cuda/src/cudart_shim/device_memory.cpp:68-77 | checks the range, then writes all bytes, with all error returns |
| DeviceMemory.DeviceMemory.MemcpyDeviceToHost | cuda/src/cudart_shim/device_memory.cpp:79-87 | checks the range, then reads the bytes, with all error returns |
| DeviceMemory.FreedIsRejected | cuda/src/cudart_shim/device_memory.cpp:49-56 | after a free every range that starts in the allocation is rejected |
| DeviceMemory.AcceptedRange | cuda/src/cudart_shim/device_memory.cpp:23-28 | a range the shim accepts is accepted by the memory exactly if its end, counted from the start of the allocation, fits 64 bits |
| DeviceMemory.WrappingRangeIsAccepted | cuda/src/cudart_shim/device_memory.cpp:27 | a range whose end wraps around is accepted by the shim and refused by the memory |
| DeviceMemory.DeviceMemory.MemcpyDeviceToDevice | cuda/src/cudart_shim/device_memory.cpp:89-99 | the copy through a host buffer, with all its error returns |
| DeviceMemory.CopyInReplies | cuda/src/cudart_shim/device_memory.cpp:68-77 | copying nothing succeeds; otherwise a null pointer is an invalid value, a range outside every live allocation an invalid device pointer, and every other copy succeeds; a refused copy changes nothing |
| DeviceMemory.CopyOutReplies | cuda/src/cudart_shim/device_memory.cpp:79-87 | the same for copies to the host |
| DeviceMemory.CopyWithinReplies | cuda/src/cudart_shim/device_memory.cpp:89-99 | and for copies within the device |
| DeviceMemory.CopyWithinMoves | cuda/src/cudart_shim/device_memory.cpp:89-99 | inside live allocations it never fails and moves all bytes at once even if the ranges overlap; no other byte changes |
| DeviceMemory.CopyInThenOut | cuda/src/cudart_shim/device_memory.cpp:68-87 | bytes copied to the device come back unchanged |

## Left out

- Lane masks and the analysis' bit sets are sets of lanes and of nodes; that the 32-bit masks and 64-bit words with their shifts compute these sets would only add easy members.
- WarpState.WarpState.ExecLanes: lane-local micro-ops are arbitrary functions of one lane's state; what each of MOV, ADD, MUL, SHL, FMA, SETP and the parameter loads computes is not spelled out.
- Global loads and stores, SHFL and WARP_REDUCE_ADD are not lane-local, so kernels that use them are outside the simulation theorems; the two cross-lane micro-ops are treated on their own.
- KernelLaunch.RunKernel: the single-threaded path only; the multi-threaded path with its relaxed atomics and unsynchronised local memory is represented by the CTA schedulers' atomic steps alone.
- KernelLaunch.RunKernel: the fifo CTA scheduler is used; with one SM sm_round_robin has the same specification, one queue.
- KernelLaunch.RunKernel: the widths of 32-bit counters such as the warp index and the lane base.
- Together.BranchesReconverge: asks that RET is not predicated and that EXIT can be reached from every branch, because the analysis gives a predicated RET only its edge to EXIT. Whether a run splits at a shared reconvergence point depends on its data, so the exact condition is on the run, at the guard of the split; the condition on the kernel alone goes one way.
- CfgExact.EdgesAreMoves: asks that the instruction passes in some state whatever its predicate says; one that always faults keeps its edges.
- WarpReduce.AddsLanes: register operands of 32 bits; the 64-bit integer ADD is not modelled.
- WarpReduce.MachineReduces: the shuffles are executed by all lanes of the warp, on 32-bit registers.
- WarpReduce.ExecReduceAdd: the 32-bit float addition is any operation on register words.
- WarpReduce.TreeIsReduce: addition is an abstract associative and commutative operation with a zero; rounding of 32-bit floats is not modelled.
- JsonCursor.Cursor.ReadNumber: the denoted number is a real; strtod's rounding and negative zero are not modelled.
- JsonCursor.Output.PutValue: only numbers that the stream prints in full, integers below 10^6 in magnitude, can be written.
- JsonRoundTrip.RoundTrip: numbers are integers below 10^6 in magnitude, which the stream prints in full; the six-digit rounding of other numbers is not modelled.
- Workload.RunStreams: commands are decoded; reading the workload file, its schema errors and trace events are left out.
- Params.AssignOffsets: declarations are decoded; offsets are unbounded instead of 32-bit.
- GlobalMemory.AllocKeepsApart: asks that the 64-bit address space has room; the source does not check this, and nothing is said about allocations after the next address has wrapped around.
- DeviceMemory.DeviceMemory.MemcpyHostToDevice, MemcpyDeviceToHost and MemcpyDeviceToDevice: the host buffer is the list of bytes itself; that its allocation may fail is not modelled.
- PTX text, operand parsing, descriptor lookup and expansion: the model starts from decoded instructions.
- Trace and statistics events, log output, environment variables, the command line and the CUDA library exports have no effect on machine state.
