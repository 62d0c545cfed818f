# UnitaskFBT behaviour-tree nodes in Dafny

UnitaskFBT is a "functional behaviour tree" library for Unity. Its nodes are
static extension methods over a blackboard object. They take delegates that
return `UniTask<bool>` and combine them with short-circuit boolean logic. This
project models the node combinators of three source files:

- `Baltin.UnitaskFBT.UnitaskFbtNodes` (module `UnitaskFbtNodes`). Covers
  Inverter, If, Selector, Sequencer, ConditionalInverter, ConditionalSelector
  and IfSequencer. These nodes test the optional delegates f1..f8 against null.
- `Baltin.UFBT.MainNodes` (module `MainNodes`). The older versions of If,
  Selector, Sequencer, IfSelector and IfSequencer. Here f1 and f2 are invoked
  without a null test.
- `Baltin.UFBT.ExperimentalNodes` (module `ExperimentalNodes`). Covers the
  allocating `Parallel` node and the tick-polling `ParallelGCFree` node.

How the model represents the runtime:

- A delegate slot is an `Option<bool>`: `None` is a null argument, `Some(b)` a
  unit whose awaited result is `b`. Slots are numbered from 0, so f1 is slot 0.
- A condition is the boolean it returns on the board.
- A sequential node yields a `Run`: its result, plus the slots it invoked in
  invocation order. That trace makes "never invoked" something a contract can
  state.
- Module `Slots` defines the two left-to-right folds, `Select` and `Sequence`,
  and proves what they compute and which slots they invoke. The nodes are
  proved against these folds.
- For the parallel nodes, a launched unit is a `Task(readyAfter, result)`. Its
  `Status.IsCompleted()` on tick `t` is `readyAfter <= t`, and
  `UniTask.Yield` moves to the next tick. A null delegate gets
  `UniTask.FromResult(true)`, which is `Task(0, true)`.
- `ParallelGCFree` is an imperative method. Its eight completion flags
  `c1..c8` and results `r1..r8` are two `bool` arrays. It returns:
  - the node's result;
  - the number of yields;
  - its trace, which lists, in order, the launch step of each slot, each
    access of each polling pass (poll a slot, or read its result) and each
    yield.

The model keeps three behaviours exactly as the code has them. A plain reading
of the library's intent might expect otherwise:

- Sequencer fails on an absent slot. So it succeeds only when all eight slots
  are present and succeed (`Runtime/UnitaskFbtNodes.cs:108-113`,
  `Runtime/MainNodes.cs:97-102`).
- IfSequencer forwards only f1..f6 to Sequencer. The delegated Sequencer then
  meets a null f7, so IfSequencer never returns `true`
  (`Runtime/UnitaskFbtNodes.cs:186`, `Runtime/MainNodes.cs:157`).
- In OR mode the parallel nodes treat an absent slot's filler `true` as a
  success (`Runtime/ExperimentalNodes.cs:37-44, 91-98, 122`). An OR-mode
  parallel node with a null delegate therefore always succeeds, and
  `ParallelGCFree` does so with zero yields.

## Model

| member | source | states |
|---|---|---|
| Slots.SelectResult | Runtime/UnitaskFbtNodes.cs:70-79 | the Selector fold succeeds exactly when some slot holds a unit that succeeds; absent slots count as failures |
| Slots.SelectInvoked | Runtime/UnitaskFbtNodes.cs:70-77 | the Selector fold invokes each slot at most once, in increasing order, and invokes exactly the present slots with no success before them; nothing after the first success |
| Slots.SequenceResult | Runtime/UnitaskFbtNodes.cs:106-115 | the Sequencer fold succeeds exactly when every slot holds a unit that succeeds; an absent slot makes it fail |
| Slots.SequenceInvoked | Runtime/UnitaskFbtNodes.cs:106-113 | the Sequencer fold invokes, in increasing order, exactly the present slots whose predecessors all succeeded; nothing after the first absent slot or failure |
| Slots.SelectAdvance | Runtime/UnitaskFbtNodes.cs:70-77 | one step `s = f is not null && await f(board); if (s) return true;` either decides the Selector with the trace so far, or continues the fold at the next slot |
| Slots.SequenceAdvance | Runtime/UnitaskFbtNodes.cs:106-113 | one Sequencer step either decides the node with `false`, or continues the fold at the next slot |
| Slots.Attempt | Runtime/UnitaskFbtNodes.cs:72 | `f is not null && await f(board)`: an absent unit is a failure and is not invoked; a present one is invoked once and yields its result |
| UnitaskFbtNodes.Inverter | Runtime/UnitaskFbtNodes.cs:25-28 | the result is the negation of the unit's result, and the unit is invoked once |
| UnitaskFbtNodes.If | Runtime/UnitaskFbtNodes.cs:39-43 | succeeds iff the condition holds and the unit succeeds; the unit is invoked only when the condition holds |
| UnitaskFbtNodes.Selector | Runtime/UnitaskFbtNodes.cs:60-80 | equals the Selector fold; so it returns `true` iff some slot succeeds, and its trace is increasing and stops at the first success |
| UnitaskFbtNodes.Sequencer | Runtime/UnitaskFbtNodes.cs:96-116 | equals the Sequencer fold; so it returns `true` iff all eight slots are present and succeed, and its trace stops at the first absent slot or failure |
| UnitaskFbtNodes.ConditionalInverter | Runtime/UnitaskFbtNodes.cs:131-138 | when the condition holds, `!func` and only func is invoked; otherwise `!elseFunc` with only elseFunc invoked, or `false` with nothing invoked when elseFunc is null |
| UnitaskFbtNodes.ConditionalSelector | Runtime/UnitaskFbtNodes.cs:154-163 | `false` with nothing invoked when the condition fails; otherwise Selector over f1..f6: true iff one of them succeeds, with the Selector trace |
| UnitaskFbtNodes.IfSequencer | Runtime/UnitaskFbtNodes.cs:178-186 | never `true`; invokes nothing when the condition fails, else the Sequencer trace over f1..f6 |
| MainNodes.If | Runtime/MainNodes.cs:27-31 | succeeds iff the condition holds and the unit succeeds; the unit is invoked exactly when the condition holds |
| MainNodes.Selector | Runtime/MainNodes.cs:48-68 | with f1 present, and f2 present when f1 fails, equals the Selector fold (result and trace given by Slots.SelectResult and Slots.SelectInvoked), hence the same run as UnitaskFbtNodes.Selector |
| MainNodes.Sequencer | Runtime/MainNodes.cs:85-105 | with f1 present, and f2 present when f1 succeeds, equals the Sequencer fold, hence the same run as UnitaskFbtNodes.Sequencer |
| MainNodes.IfSelector | Runtime/MainNodes.cs:125-134 | `false` with nothing invoked when the condition fails; otherwise true iff one of f1..f6 succeeds, with the Selector trace |
| MainNodes.IfSequencer | Runtime/MainNodes.cs:149-157 | never `true`; invokes nothing when the condition fails, else the Sequencer trace over f1..f6 |
| MainNodes.AgreesWithUnitaskFbt | Runtime/MainNodes.cs:27-157 | where the mandatory delegates are present, If, IfSelector and IfSequencer give the same run as their UnitaskFbtNodes counterparts; their bodies are the same expressions, so this holds by definition, while the agreement of Selector and Sequencer follows from both versions being proved equal to the folds `Select` and `Sequence` |
| ExperimentalNodes.Launched | Runtime/ExperimentalNodes.cs:35-45 | the eight tasks: slot i's unit's task, or a completed `true` for a null delegate |
| ExperimentalNodes.AllTrue | Runtime/ExperimentalNodes.cs:49-53 | the early-returning AND loop is true iff every result is true |
| ExperimentalNodes.AnyTrue | Runtime/ExperimentalNodes.cs:56-58 | the early-returning OR loop is true iff some result is true |
| ExperimentalNodes.Parallel | Runtime/ExperimentalNodes.cs:24-59 | in AND mode true iff every configured unit succeeds, the fillers being neutral; in OR mode true iff some configured unit succeeds or some slot is null |
| ExperimentalNodes.ParallelOfTasks | Runtime/ExperimentalNodes.cs:47-58 | Parallel is the AND (OR) of the eight launched tasks' results |
| ExperimentalNodes.FillerWins | Runtime/ExperimentalNodes.cs:93-123 | in OR mode a null delegate makes the node succeed, with a success already complete on tick 0 |
| ExperimentalNodes.Latest | Runtime/ExperimentalNodes.cs:108-131 | the tick on which the last task completes: no task completes later, and some task completes then |
| ExperimentalNodes.EarliestSuccess | Runtime/ExperimentalNodes.cs:120-123 | the tick on which the first succeeding task completes: some succeeding task completes then, none earlier |
| ExperimentalNodes.LateTaskIrrelevant | Runtime/ExperimentalNodes.cs:120-123 | in OR mode with a success, replacing a task that completes after the first succeeding completion by another such task leaves the earliest success, hence the result and the tick count, unchanged |
| ExperimentalNodes.SweepTakes | Runtime/ExperimentalNodes.cs:110-117 | a pass reads a slot's result exactly on the tick its task completes, and reads that task's result |
| ExperimentalNodes.SweepPolls | Runtime/ExperimentalNodes.cs:110-117 | a pass polls a slot without reading it exactly while its task is not complete |
| ExperimentalNodes.SweepOrdered | Runtime/ExperimentalNodes.cs:110-117 | a pass visits slots in positional order, each at most once |
| ExperimentalNodes.ReadOnce | Runtime/ExperimentalNodes.cs:110-117 | a slot's result is read on one pass only; no later pass polls or reads it, and earlier passes only polled it |
| ExperimentalNodes.PolledUntilComplete | Runtime/ExperimentalNodes.cs:108-131 | each slot is touched on every pass up to the tick its task completes, and on no later pass |
| ExperimentalNodes.PollPass | Runtime/ExperimentalNodes.cs:110-117 | one pass: exactly the tasks complete by this tick end up with their flag set and their result recorded, and the accesses are the sweep of this tick |
| ExperimentalNodes.LaunchAll | Runtime/ExperimentalNodes.cs:90-98 | all eight slots are launched in positional order: the unit is invoked, or a completed `true` stands in for a null delegate; the launch trace lists the steps in that order |
| ExperimentalNodes.PollAll | Runtime/ExperimentalNodes.cs:100-137 | the loop returns the AND (OR) of the task results; in AND mode, or when it fails, after as many yields as the latest completion tick; in OR mode on success, on the first tick when a succeeding task is complete; its trace is the sweep of each tick 0..ticks, with one yield between consecutive passes |
| ExperimentalNodes.RoundsYields | Runtime/ExperimentalNodes.cs:108-131 | the passes on ticks 0..n-1 with their yields contain exactly n yields |
| ExperimentalNodes.RoundsLaunchNothing | Runtime/ExperimentalNodes.cs:108-131 | the polling loop's trace holds no launch step |
| ExperimentalNodes.PollingShape | Runtime/ExperimentalNodes.cs:108-131 | the polling phase's trace yields exactly `ticks` times and launches nothing |
| ExperimentalNodes.TraceShape | Runtime/ExperimentalNodes.cs:90-131 | the node's trace opens with the eight launch steps in positional order, holds no launch after them, so no pass or yield precedes a launch, and yields `ticks` times |
| ExperimentalNodes.ParallelGCFree | Runtime/ExperimentalNodes.cs:77-138 | agrees with Parallel; in AND mode, or when it fails, the number of yields is the latest completion tick; on OR success it is the earliest succeeding completion; in OR mode with a null delegate it is true after zero yields; its trace is the launch steps followed by the sweep of each tick with a yield between consecutive passes, so its first eight entries are the launches in positional order, no launch comes later, and it holds `ticks` yields |

## Left out

- The UniTask and PlayerLoop machinery is not modelled: awaiters,
  `PlayerLoopTiming`, the internals of `WhenAll`. A task is its completion
  tick and its result. A yield is the next tick.
- The claims about garbage collection and allocation, and the
  `AggressiveInlining` attributes, are not stated. They are about runtime cost,
  and the model cannot express them.
- Units that throw are not modelled. The `NullReferenceException` that
  MainNodes' Selector and Sequencer raise on a null f1/f2 is not modelled as
  an error path. It is a precondition (`SelectorCallable`, `SequencerCallable`).
  The same holds for the unconditional `func.Invoke` in Inverter, If and
  ConditionalInverter.
- Units that keep running after an OR-mode early exit, and their effects on
  the board, are not modelled. The board's contents are not modelled either:
  every unit and condition is its outcome on the board.
- A task's completion tick and result are fixed when it is launched. Units
  whose outcome depends on when they are polled are not modelled.
- MainNodes.Selector: its contract gives the run as the Selector fold.
  `Slots.SelectResult` and `Slots.SelectInvoked` then give the result and the
  trace. The contract does not restate them.
- MainNodes.Sequencer: its contract gives the run as the Sequencer fold.
  `Slots.SequenceResult` and `Slots.SequenceInvoked` then give the result and
  the trace.
- The parallel nodes' `board` and `playerLoopTiming` parameters are not
  modelled. They only reach the units and the scheduler.
- ExperimentalNodes.ParallelGCFree, ExperimentalNodes.PollAll and
  ExperimentalNodes.Parallel: a task that never completes is not modelled.
  Every `Task` has a finite completion tick. In the code such a task keeps the
  `while (true)` loop polling and yielding forever in AND mode, and in OR mode
  when no success arrives, and Parallel's `UniTask.WhenAll` never returns in
  either mode. For ParallelGCFree in OR mode with a success, a
  never-completing slot behaves like one completing after the first success: `LateTaskIrrelevant` shows the result and the tick count
  do not depend on such a slot's completion tick.
