/** The parallel nodes of `Baltin.UFBT.ExperimentalNodes`.

    A launched unit is a `Task` that reports completed from tick `readyAfter`
    on, with result `result`; `Status.IsCompleted()` at tick t is
    `readyAfter <= t`, and `UniTask.Yield` advances the tick by one. A null
    delegate gets `UniTask.FromResult(true)`, a task completed at tick 0 with
    result `true`. */
module ExperimentalNodes {
  import opened Slots

  datatype Task = Task(readyAfter: nat, result: bool)

  /** `f?.Invoke(board) ?? UniTask.FromResult(true)`. */
  function Launch(u: Option<Task>): Task
  {
    match u
    case None => Task(0, true)
    case Some(t) => t
  }

  /** The eight tasks t1..t8 as launched. */
  function Launched(units: seq<Option<Task>>): (tasks: seq<Task>)
    ensures |tasks| == |units|
    ensures forall i :: 0 <= i < |units| ==> tasks[i] == Launch(units[i])
  {
    if units == [] then [] else [Launch(units[0])] + Launched(units[1..])
  }

  /** The results array that `UniTask.WhenAll(tasks)` delivers. */
  function Results(tasks: seq<Task>): (results: seq<bool>)
    ensures |results| == |tasks|
    ensures forall i :: 0 <= i < |tasks| ==> results[i] == tasks[i].result
  {
    if tasks == [] then [] else [tasks[0].result] + Results(tasks[1..])
  }

  // ---------------------------------------------------------------------------
  // Parallel: launch all, await WhenAll, then fold.

  /** `foreach (var r in results) if (!r) return false; return true;` */
  function AllTrue(results: seq<bool>): (b: bool)
    ensures b <==> forall i :: 0 <= i < |results| ==> results[i]
  {
    if results == [] then true
    else if !results[0] then false
    else AllTrue(results[1..])
  }

  /** `foreach (var r in results) if (r) return true; return false;` */
  function AnyTrue(results: seq<bool>): (b: bool)
    ensures b <==> exists i :: 0 <= i < |results| && results[i]
  {
    if results == [] then false
    else if results[0] then true
    else AnyTrue(results[1..])
  }

  /** The allocating Parallel node: the AND of all eight results when
      `successIfAll`, else their OR. In AND mode the fillers are neutral; in OR
      mode the code does not tell a filler `true` from a real success. */
  function Parallel(units: seq<Option<Task>>, successIfAll: bool): (r: bool)
    requires |units| == Arity
    ensures successIfAll ==> (r <==> forall i :: 0 <= i < Arity && units[i].Some? ==> units[i].value.result)
    ensures !successIfAll ==> (r <==> exists i :: 0 <= i < Arity && (units[i].None? || units[i].value.result))
  {
    var results := Results(Launched(units));
    if successIfAll then AllTrue(results) else AnyTrue(results)
  }

  /** Parallel in terms of the launched tasks: their AND, or their OR. */
  lemma ParallelOfTasks(units: seq<Option<Task>>, tasks: seq<Task>)
    requires |units| == Arity
    requires tasks == Launched(units)
    ensures Parallel(units, true) == (forall k :: 0 <= k < Arity ==> tasks[k].result)
    ensures Parallel(units, false) == (exists k :: 0 <= k < Arity && tasks[k].result)
  {
  }

  // ---------------------------------------------------------------------------
  // ParallelGCFree: launch all, then poll once per tick.

  /** The tick at which the last task completes. */
  function Latest(tasks: seq<Task>): (m: nat)
    ensures forall i :: 0 <= i < |tasks| ==> tasks[i].readyAfter <= m
    ensures |tasks| > 0 ==> exists i :: 0 <= i < |tasks| && tasks[i].readyAfter == m
    ensures |tasks| == 0 ==> m == 0
  {
    if tasks == [] then 0
    else
      var rest := Latest(tasks[1..]);
      assert forall i :: 1 <= i < |tasks| ==> tasks[i] == tasks[1..][i - 1];
      if tasks[0].readyAfter >= rest then tasks[0].readyAfter else rest
  }

  /** The tick at which the first succeeding task completes. */
  function EarliestSuccess(tasks: seq<Task>): (m: nat)
    requires exists i :: 0 <= i < |tasks| && tasks[i].result
    ensures exists i :: 0 <= i < |tasks| && tasks[i].result && tasks[i].readyAfter == m
    ensures forall i :: 0 <= i < |tasks| && tasks[i].result ==> m <= tasks[i].readyAfter
  {
    assert forall i :: 1 <= i < |tasks| ==> tasks[i] == tasks[1..][i - 1];
    if exists i :: 1 <= i < |tasks| && tasks[i].result then
      assert exists i :: 0 <= i < |tasks[1..]| && tasks[1..][i].result;
      var rest := EarliestSuccess(tasks[1..]);
      if tasks[0].result && tasks[0].readyAfter <= rest then tasks[0].readyAfter else rest
    else
      tasks[0].readyAfter
  }

  /** In OR mode a null delegate decides the node: its filler is a success
      that is complete before the first pass. */
  lemma FillerWins(units: seq<Option<Task>>)
    requires |units| == Arity
    requires exists i :: 0 <= i < Arity && units[i].None?
    ensures Parallel(units, false)
    ensures exists i :: 0 <= i < Arity && Launched(units)[i].result
    ensures EarliestSuccess(Launched(units)) == 0
  {
  }

  /** In OR mode with a success, a slot whose task completes after the first
      succeeding completion does not matter: tasks that differ only there, by
      another task that also completes after it, have the same earliest
      success, and so the same result and tick count. */
  lemma LateTaskIrrelevant(tasks: seq<Task>, moved: seq<Task>, k: nat)
    requires k < |tasks| == |moved|
    requires forall i :: 0 <= i < |tasks| && i != k ==> moved[i] == tasks[i]
    requires exists i :: 0 <= i < |tasks| && tasks[i].result
    requires tasks[k].readyAfter > EarliestSuccess(tasks)
    requires moved[k].readyAfter > EarliestSuccess(tasks)
    ensures exists i :: 0 <= i < |moved| && moved[i].result
    ensures EarliestSuccess(moved) == EarliestSuccess(tasks)
  {
  }

  /** How ParallelGCFree launches slot i, before its first yield. */
  datatype Launching =
    | Invoke(slot: nat)            // f(slot+1) is invoked
    | Fill(slot: nat)              // f(slot+1) is null: the slot gets `UniTask.FromResult(true)`

  /** What one polling pass does with a slot that is not yet complete. */
  datatype Access =
    | Poll(slot: nat)              // its task is polled and is not completed yet
    | Take(slot: nat, value: bool) // its task is completed: the result is read into r(slot+1), c(slot+1) is set

  /** The launch step of slot i. */
  function LaunchStep(u: Option<Task>, i: nat): Launching
  {
    if u.Some? then Invoke(i) else Fill(i)
  }

  /** One entry of ParallelGCFree's trace: a launch step, a slot access of a
      polling pass, or a yield to the next tick. */
  datatype Event =
    | Started(step: Launching)
    | Accessed(access: Access)
    | Yielded

  /** The launch phase's trace: slot by slot, in positional order. */
  function LaunchLog(units: seq<Option<Task>>): (log: seq<Event>)
    ensures |log| == |units|
  {
    seq(|units|, i requires 0 <= i < |units| => Started(LaunchStep(units[i], i)))
  }

  /** The trace of one polling pass. */
  function Accesses(pass: seq<Access>): (log: seq<Event>)
    ensures |log| == |pass|
  {
    seq(|pass|, i requires 0 <= i < |pass| => Accessed(pass[i]))
  }

  /** The passes on ticks 0 .. n-1, each followed by its yield. */
  function Rounds(tasks: seq<Task>, n: nat): seq<Event>
  {
    if n == 0 then [] else Rounds(tasks, n - 1) + Accesses(Sweep(tasks, n - 1, 0)) + [Yielded]
  }

  /** The polling phase's trace when the node returns after the pass on tick
      `ticks`. */
  function Polling(tasks: seq<Task>, ticks: nat): seq<Event>
  {
    Rounds(tasks, ticks) + Accesses(Sweep(tasks, ticks, 0))
  }

  /** The number of yields in a trace. */
  function Yields(log: seq<Event>): nat
  {
    if log == [] then 0 else (if log[0].Yielded? then 1 else 0) + Yields(log[1..])
  }

  lemma {:induction false} YieldsAppend(a: seq<Event>, b: seq<Event>)
    ensures Yields(a + b) == Yields(a) + Yields(b)
  {
    if a == [] {
      assert a + b == b;
    } else {
      assert (a + b)[1..] == a[1..] + b;
      YieldsAppend(a[1..], b);
    }
  }

  /** A trace without yield entries counts none. */
  lemma {:induction false} NoYields(log: seq<Event>)
    requires forall i :: 0 <= i < |log| ==> !log[i].Yielded?
    ensures Yields(log) == 0
  {
    if log != [] {
      assert forall i :: 0 <= i < |log[1..]| ==> log[1..][i] == log[i + 1];
      NoYields(log[1..]);
    }
  }

  /** The passes on ticks 0 .. n-1 yield exactly n times. */
  lemma {:induction false} RoundsYields(tasks: seq<Task>, n: nat)
    ensures Yields(Rounds(tasks, n)) == n
  {
    if n > 0 {
      var prev := Rounds(tasks, n - 1);
      var pass := Accesses(Sweep(tasks, n - 1, 0));
      assert Rounds(tasks, n) == prev + pass + [Yielded];
      RoundsYields(tasks, n - 1);
      YieldsAppend(prev, pass);
      YieldsAppend(prev + pass, [Yielded]);
      NoYields(pass);
      assert Yields([Yielded]) == 1;
    }
  }

  /** The polling phase launches nothing. */
  lemma {:induction false} RoundsLaunchNothing(tasks: seq<Task>, n: nat)
    ensures forall i :: 0 <= i < |Rounds(tasks, n)| ==> !Rounds(tasks, n)[i].Started?
  {
    if n > 0 {
      var prev := Rounds(tasks, n - 1);
      var pass := Accesses(Sweep(tasks, n - 1, 0));
      RoundsLaunchNothing(tasks, n - 1);
      var all := Rounds(tasks, n);
      assert all == prev + pass + [Yielded];
      forall i | 0 <= i < |all| ensures !all[i].Started? {
        if i < |prev| {
          assert all[i] == prev[i];
        } else if i < |prev| + |pass| {
          assert all[i] == pass[i - |prev|];
        }
      }
    }
  }

  /** The polling phase yields `ticks` times and launches nothing. */
  lemma PollingShape(tasks: seq<Task>, ticks: nat)
    ensures Yields(Polling(tasks, ticks)) == ticks
    ensures forall i :: 0 <= i < |Polling(tasks, ticks)| ==> !Polling(tasks, ticks)[i].Started?
  {
    var rounds := Rounds(tasks, ticks);
    var pass := Accesses(Sweep(tasks, ticks, 0));
    RoundsYields(tasks, ticks);
    RoundsLaunchNothing(tasks, ticks);
    YieldsAppend(rounds, pass);
    NoYields(pass);
    var all := Polling(tasks, ticks);
    forall i | 0 <= i < |all| ensures !all[i].Started? {
      if i < |rounds| {
        assert all[i] == rounds[i];
      } else {
        assert all[i] == pass[i - |rounds|];
      }
    }
  }

  /** ParallelGCFree's trace opens with the eight launch steps in positional
      order, launches nothing afterwards and yields as often as the polling
      phase. */
  lemma TraceShape(units: seq<Option<Task>>, tasks: seq<Task>, ticks: nat)
    requires |units| == Arity
    ensures |LaunchLog(units) + Polling(tasks, ticks)| >= Arity
    ensures forall i :: 0 <= i < Arity ==> (LaunchLog(units) + Polling(tasks, ticks))[i] == Started(LaunchStep(units[i], i))
    ensures forall i :: Arity <= i < |LaunchLog(units) + Polling(tasks, ticks)| ==> !(LaunchLog(units) + Polling(tasks, ticks))[i].Started?
    ensures Yields(LaunchLog(units) + Polling(tasks, ticks)) == ticks
  {
    var launches := LaunchLog(units);
    var polling := Polling(tasks, ticks);
    PollingShape(tasks, ticks);
    YieldsAppend(launches, polling);
    NoYields(launches);
    var trace := launches + polling;
    assert forall i :: Arity <= i < |trace| ==> trace[i] == polling[i - Arity];
  }

  /** The pass on `tick`, from slot j on. At the start of the pass exactly the
      tasks with `readyAfter < tick` are complete (they were recorded on
      earlier passes); every other slot is polled, and recorded when its task
      now reports completed. */
  function Sweep(tasks: seq<Task>, tick: nat, j: nat): seq<Access>
    requires j <= |tasks|
    decreases |tasks| - j
  {
    if j == |tasks| then []
    else
      Visit(tasks[j], tick, j) + Sweep(tasks, tick, j + 1)
  }

  /** What the pass on `tick` does at slot j. */
  function Visit(task: Task, tick: nat, j: nat): seq<Access>
  {
    if task.readyAfter < tick then []
    else if task.readyAfter == tick then [Take(j, task.result)]
    else [Poll(j)]
  }

  /** A pass continues from slot j with slot j's visit. */
  lemma SweepStep(tasks: seq<Task>, tick: nat, j: nat, pass: seq<Access>)
    requires j < |tasks|
    requires Sweep(tasks, tick, 0) == pass + Sweep(tasks, tick, j)
    ensures Sweep(tasks, tick, 0) == (pass + Visit(tasks[j], tick, j)) + Sweep(tasks, tick, j + 1)
  {
  }

  /** A pass touches only slots from j on. */
  lemma {:induction false} SweepSlots(tasks: seq<Task>, tick: nat, j: nat)
    requires j <= |tasks|
    ensures forall a :: a in Sweep(tasks, tick, j) ==> j <= a.slot < |tasks|
    decreases |tasks| - j
  {
    if j < |tasks| {
      SweepSlots(tasks, tick, j + 1);
    }
  }

  /** A pass reads the result of a slot exactly when its task completes on that
      very tick, and reads the task's own result. */
  lemma {:induction false} SweepTakes(tasks: seq<Task>, tick: nat, j: nat)
    requires j <= |tasks|
    ensures forall s: nat, v :: Take(s, v) in Sweep(tasks, tick, j) <==>
      j <= s < |tasks| && tasks[s].readyAfter == tick && v == tasks[s].result
    decreases |tasks| - j
  {
    if j < |tasks| {
      SweepTakes(tasks, tick, j + 1);
      SweepSlots(tasks, tick, j + 1);
    }
  }

  /** A pass polls a slot without reading it exactly when its task has not
      completed yet. */
  lemma {:induction false} SweepPolls(tasks: seq<Task>, tick: nat, j: nat)
    requires j <= |tasks|
    ensures forall s: nat :: Poll(s) in Sweep(tasks, tick, j) <==> j <= s < |tasks| && tick < tasks[s].readyAfter
    decreases |tasks| - j
  {
    if j < |tasks| {
      SweepPolls(tasks, tick, j + 1);
      SweepSlots(tasks, tick, j + 1);
    }
  }

  /** A pass visits slots in positional order, each at most once. */
  lemma {:induction false} SweepOrdered(tasks: seq<Task>, tick: nat, j: nat)
    requires j <= |tasks|
    ensures forall a, b :: 0 <= a < b < |Sweep(tasks, tick, j)| ==>
      Sweep(tasks, tick, j)[a].slot < Sweep(tasks, tick, j)[b].slot
    decreases |tasks| - j
  {
    if j < |tasks| {
      SweepOrdered(tasks, tick, j + 1);
      SweepSlots(tasks, tick, j + 1);
      var rest := Sweep(tasks, tick, j + 1);
      var all := Sweep(tasks, tick, j);
      if tasks[j].readyAfter >= tick {
        forall a, b | 0 <= a < b < |all| ensures all[a].slot < all[b].slot {
          assert all[b] == rest[b - 1] && rest[b - 1] in rest;
          if a > 0 {
            assert all[a] == rest[a - 1];
          }
        }
      }
    }
  }

  /** Once a slot's result is read on the pass at `taken`, no later pass polls
      or reads that slot again, and no earlier pass read it. */
  lemma ReadOnce(tasks: seq<Task>, s: nat, v: bool, taken: nat, tick: nat)
    requires Take(s, v) in Sweep(tasks, taken, 0)
    ensures tick != taken ==> forall a :: a in Sweep(tasks, tick, 0) && a.slot == s ==> tick < taken && a == Poll(s)
  {
    SweepTakes(tasks, taken, 0);
    SweepTakes(tasks, tick, 0);
    SweepPolls(tasks, tick, 0);
  }

  /** A slot is polled on every pass until its task completes, and never after:
      the pass at `tick` touches slot s exactly when `tick <= readyAfter`. */
  lemma PolledUntilComplete(tasks: seq<Task>, tick: nat, s: nat)
    requires s < |tasks|
    ensures (exists a :: a in Sweep(tasks, tick, 0) && a.slot == s) <==> tick <= tasks[s].readyAfter
  {
    SweepTakes(tasks, tick, 0);
    SweepPolls(tasks, tick, 0);
    if tick == tasks[s].readyAfter {
      assert Take(s, tasks[s].result) in Sweep(tasks, tick, 0);
    } else if tick < tasks[s].readyAfter {
      assert Poll(s) in Sweep(tasks, tick, 0);
    }
  }

  /** One pass over f1..f8: every slot not yet complete is polled; a task that
      reports completed has its result read and its flag set. */
  method PollPass(tasks: seq<Task>, tick: nat, completed: array<bool>, results: array<bool>)
    returns (pass: seq<Access>)
    requires |tasks| == Arity && completed.Length == Arity && results.Length == Arity
    requires completed != results
    requires forall k :: 0 <= k < Arity ==> completed[k] == (tasks[k].readyAfter < tick)
    requires forall k :: 0 <= k < Arity ==> results[k] == (completed[k] && tasks[k].result)
    modifies completed, results
    ensures pass == Sweep(tasks, tick, 0)
    ensures forall k :: 0 <= k < Arity ==> completed[k] == (tasks[k].readyAfter <= tick)
    ensures forall k :: 0 <= k < Arity ==> results[k] == (completed[k] && tasks[k].result)
  {
    pass := [];
    for j := 0 to Arity
      invariant forall k :: 0 <= k < j ==> completed[k] == (tasks[k].readyAfter <= tick)
      invariant forall k :: j <= k < Arity ==> completed[k] == (tasks[k].readyAfter < tick)
      invariant forall k :: 0 <= k < Arity ==> results[k] == (completed[k] && tasks[k].result)
      invariant Sweep(tasks, tick, 0) == pass + Sweep(tasks, tick, j)
    {
      ghost var before := pass;
      SweepStep(tasks, tick, j, pass);
      if !completed[j] {
        if tasks[j].readyAfter <= tick {
          results[j] := tasks[j].result;
          completed[j] := true;
          pass := pass + [Take(j, results[j])];
        } else {
          pass := pass + [Poll(j)];
        }
      }
      assert pass == before + Visit(tasks[j], tick, j);
      assert completed[j] == (tasks[j].readyAfter <= tick);
    }
  }

  /** No task that completed before `tick` succeeded. */
  predicate NoSuccessBefore(tasks: seq<Task>, tick: nat)
  {
    forall k :: 0 <= k < |tasks| && tasks[k].readyAfter < tick ==> !tasks[k].result
  }

  /** The first tick on which a succeeding task is complete is the earliest
      completion among the succeeding tasks. */
  lemma FirstSuccess(tasks: seq<Task>, tick: nat)
    requires NoSuccessBefore(tasks, tick)
    requires exists k :: 0 <= k < |tasks| && tasks[k].readyAfter <= tick && tasks[k].result
    ensures exists k :: 0 <= k < |tasks| && tasks[k].result
    ensures EarliestSuccess(tasks) == tick
  {
  }

  /** The launch phase: slot by slot, f(i+1) is invoked, or a completed `true`
      stands in for a null delegate. */
  method LaunchAll(units: seq<Option<Task>>) returns (tasks: seq<Task>, log: seq<Event>)
    ensures tasks == Launched(units)
    ensures log == LaunchLog(units)
  {
    tasks := [];
    log := [];
    var i := 0;
    while i < |units|
      invariant 0 <= i <= |units|
      invariant |tasks| == i && |log| == i
      invariant forall k :: 0 <= k < i ==> tasks[k] == Launch(units[k]) && log[k] == Started(LaunchStep(units[k], k))
    {
      match units[i] {
        case Some(t) =>
          tasks := tasks + [t];
          log := log + [Started(Invoke(i))];
        case None =>
          tasks := tasks + [Task(0, true)];
          log := log + [Started(Fill(i))];
      }
      i := i + 1;
    }
  }

  /** The polling phase over launched tasks t1..t8: one pass per tick until all
      are complete, or in OR mode until a pass records a `true`. `r` is the
      AND (OR) of all results, `ticks` the number of yields and `log` the
      passes and yields in order. */
  method PollAll(tasks: seq<Task>, successIfAll: bool) returns (r: bool, ticks: nat, log: seq<Event>)
    requires |tasks| == Arity
    ensures successIfAll ==> (r <==> forall k :: 0 <= k < Arity ==> tasks[k].result)
    ensures !successIfAll ==> (r <==> exists k :: 0 <= k < Arity && tasks[k].result)
    ensures successIfAll || !r ==> ticks == Latest(tasks)
    ensures !successIfAll && r ==> NoSuccessBefore(tasks, ticks) && !NoSuccessBefore(tasks, ticks + 1)
    ensures log == Polling(tasks, ticks)
  {
    // completion flags c1..c8 and results r1..r8
    var completed := new bool[Arity](_ => false);
    var results := new bool[Arity](_ => false);

    var tick: nat := 0;
    log := [];
    while true
      invariant tick <= Latest(tasks)
      invariant log == Rounds(tasks, tick)
      invariant forall k :: 0 <= k < Arity ==> completed[k] == (tasks[k].readyAfter < tick)
      invariant forall k :: 0 <= k < Arity ==> results[k] == (completed[k] && tasks[k].result)
      invariant !successIfAll ==> NoSuccessBefore(tasks, tick)
      decreases Latest(tasks) - tick
    {
      var pass := PollPass(tasks, tick, completed, results);
      log := log + Accesses(pass);

      // early exit for successIfAll = false
      if !successIfAll {
        if exists k :: 0 <= k < Arity && results[k] {
          r, ticks := true, tick;
          return;
        }
      }

      // all the tasks are completed
      if forall k :: 0 <= k < Arity ==> completed[k] {
        break;
      }

      // yield for the next tick
      log := log + [Yielded];
      tick := tick + 1;
    }

    ticks := tick;
    if successIfAll {
      r := forall k :: 0 <= k < Arity ==> results[k];
    } else {
      r := false;
    }
  }

  /** The GC-free Parallel node: the launch phase, then the polling phase.
      `r` is the node's result, `ticks` the number of yields and `trace` what
      the node did, in order. */
  method ParallelGCFree(units: seq<Option<Task>>, successIfAll: bool)
    returns (r: bool, ticks: nat, trace: seq<Event>)
    requires |units| == Arity
    // it agrees with the allocating Parallel node
    ensures r == Parallel(units, successIfAll)
    // it returns on the tick the last task completes, or in OR mode the first succeeding one
    ensures successIfAll || !r ==> ticks == Latest(Launched(units))
    ensures !successIfAll && r ==> exists i :: 0 <= i < Arity && Launched(units)[i].result
    ensures !successIfAll && r ==> ticks == EarliestSuccess(Launched(units))
    // in OR mode an absent slot's filler ends the node on the first pass
    ensures !successIfAll && (exists i :: 0 <= i < Arity && units[i].None?) ==> r && ticks == 0
    // the launches, then one pass per tick with a yield between consecutive passes
    ensures trace == LaunchLog(units) + Polling(Launched(units), ticks)
    // every slot is launched once, in positional order, before any pass or yield
    ensures |trace| >= Arity
    ensures forall i :: 0 <= i < Arity ==> trace[i] == Started(LaunchStep(units[i], i))
    ensures forall i :: Arity <= i < |trace| ==> !trace[i].Started?
    ensures Yields(trace) == ticks
  {
    var tasks, launches := LaunchAll(units);
    var polling;
    r, ticks, polling := PollAll(tasks, successIfAll);
    trace := launches + polling;
    ParallelOfTasks(units, tasks);
    if !successIfAll && r {
      FirstSuccess(tasks, ticks);
    }
    if !successIfAll && exists i :: 0 <= i < Arity && units[i].None? {
      FillerWins(units);
    }
    TraceShape(units, tasks, ticks);
  }
}
