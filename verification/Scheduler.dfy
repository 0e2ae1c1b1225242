/** The scheduler after one `Start`: its run loop, the executions it spawns, and any number of `Stop`
    calls, interleaved in any way. A wait group counts the loop and the executions. */
module Scheduling {

  /** Where the run loop is. It launches the process on entry and on every tick: it tests whether the
      process is running, adds to the wait group, and spawns the execution. */
  datatype Loop = Testing | Adding | Spawning | Selecting | Leaving | Gone

  /** An execution first marks the process as running, and unmarks it when it returns; after that it
      signals the wait group. */
  datatype Execution = Spawned | Executing | Returned | Signalled

  /** A `Stop` call has a helper that waits for the group; `done` once the helper got through. */
  datatype StopResult = Pending | Stopped | TimedOut

  datatype StopCall = StopCall(done: bool, result: StopResult)

  datatype World = World(
    cancelled: bool, counter: int, loop: Loop, executions: seq<Execution>, running: bool, stops: seq<StopCall>)

  datatype Step =
    | Cancel
    | LoopStep
    | Tick(complete: bool)
    | ExecutionStep(e: nat)
    | CallStop
    | WaitReturns(k: nat)
    | StopReturns(k: nat)
    | StopTimesOut(k: nat)

  /** `Start` adds to the group before it spawns the loop. */
  function Started(): World {
    World(false, 1, Testing, [], false, [])
  }

  function LoopNext(w: World): World {
    match w.loop
    case Testing => w.(loop := if w.running then Selecting else Adding)
    case Adding => w.(loop := Spawning, counter := w.counter + 1)
    case Spawning => w.(loop := Selecting, executions := w.executions + [Spawned])
    case Selecting => if w.cancelled then w.(loop := Leaving) else w
    case Leaving => w.(loop := Gone, counter := w.counter - 1)
    case Gone => w
  }

  function ExecutionNext(w: World, e: nat): World
    requires e < |w.executions|
  {
    match w.executions[e]
    case Spawned => w.(executions := w.executions[e := Executing], running := true)
    case Executing => w.(executions := w.executions[e := Returned], running := false)
    case Returned => w.(executions := w.executions[e := Signalled], counter := w.counter - 1)
    case Signalled => w
  }

  function Next(w: World, step: Step): World {
    match step
    case Cancel => w.(cancelled := true)
    case LoopStep => LoopNext(w)
    case Tick(complete) =>
      if w.loop == Selecting then w.(loop := if complete then Leaving else Testing) else w
    case ExecutionStep(e) => if e < |w.executions| then ExecutionNext(w, e) else w
    case CallStop => w.(stops := w.stops + [StopCall(false, Pending)])
    case WaitReturns(k) =>
      if k < |w.stops| && w.counter == 0 then w.(stops := w.stops[k := w.stops[k].(done := true)]) else w
    case StopReturns(k) =>
      if k < |w.stops| && w.stops[k].done && w.stops[k].result == Pending then
        w.(stops := w.stops[k := StopCall(true, Stopped)])
      else
        w
    case StopTimesOut(k) =>
      if k < |w.stops| && w.stops[k].result == Pending then
        w.(stops := w.stops[k := w.stops[k].(result := TimedOut)])
      else
        w
  }

  function RunFrom(w: World, steps: seq<Step>): World {
    if steps == [] then w else Next(RunFrom(w, steps[..|steps| - 1]), steps[|steps| - 1])
  }

  // ---------------------------------------------------------------- the counter

  function InFlight(executions: seq<Execution>): nat {
    if executions == [] then 0
    else InFlight(executions[..|executions| - 1]) + if executions[|executions| - 1] == Signalled then 0 else 1
  }

  lemma {:induction false} InFlightAfterChange(executions: seq<Execution>, e: nat, x: Execution)
    requires e < |executions|
    ensures
      InFlight(executions[e := x]) + (if executions[e] == Signalled then 0 else 1) ==
      InFlight(executions) + if x == Signalled then 0 else 1
  {
    var last := |executions| - 1;
    if e < last {
      assert executions[e := x][..last] == executions[..last][e := x];
      InFlightAfterChange(executions[..last], e, x);
    } else {
      assert executions[e := x][..last] == executions[..last];
    }
  }

  /** The loop, unless it is gone, plus one for an execution that is about to be spawned. */
  function LoopCount(loop: Loop): nat {
    match loop
    case Gone => 0
    case Spawning => 2
    case _ => 1
  }

  /** Nothing runs and nothing can be spawned any more. */
  predicate Quiet(w: World) {
    w.loop == Gone && forall e | 0 <= e < |w.executions| :: w.executions[e] == Signalled
  }

  lemma {:induction false} NoneInFlight(executions: seq<Execution>)
    ensures InFlight(executions) == 0 <==> forall e | 0 <= e < |executions| :: executions[e] == Signalled
  {
    if executions != [] {
      NoneInFlight(executions[..|executions| - 1]);
    }
  }

  predicate Counted(w: World) {
    w.counter == LoopCount(w.loop) + InFlight(w.executions)
  }

  predicate DoneMeansQuiet(w: World) {
    forall k | 0 <= k < |w.stops| :: w.stops[k].done || w.stops[k].result == Stopped ==> Quiet(w)
  }

  lemma LoopKeepsCounted(w: World)
    requires Counted(w)
    ensures Counted(LoopNext(w))
  {
    if w.loop == Spawning {
      assert LoopNext(w).executions[..|w.executions|] == w.executions;
    }
  }

  lemma ExecutionKeepsCounted(w: World, e: nat)
    requires Counted(w) && e < |w.executions|
    ensures Counted(ExecutionNext(w, e))
  {
    if w.executions[e] != Signalled {
      InFlightAfterChange(w.executions, e, ExecutionNext(w, e).executions[e]);
    }
  }

  lemma NextKeepsCounted(w: World, step: Step)
    requires Counted(w)
    ensures Counted(Next(w, step))
  {
    if step == LoopStep {
      LoopKeepsCounted(w);
    } else if step.ExecutionStep? && step.e < |w.executions| {
      ExecutionKeepsCounted(w, step.e);
    }
  }

  /** Once everything is quiet, no step starts anything. */
  lemma QuietForGood(w: World, step: Step)
    requires Quiet(w)
    ensures Quiet(Next(w, step)) && Next(w, step).executions == w.executions
  {
  }

  lemma NextKeepsDoneMeansQuiet(w: World, step: Step)
    requires Counted(w) && DoneMeansQuiet(w)
    ensures DoneMeansQuiet(Next(w, step))
  {
    NoneInFlight(w.executions);
    if Quiet(w) {
      QuietForGood(w, step);
    }
  }

  /** After every run, the wait group counts exactly the run loop and the executions in flight, so it
      never goes below zero, and waiting for it succeeds exactly when everything is quiet. */
  lemma {:induction false} CounterIsExact(steps: seq<Step>)
    ensures
      var w := RunFrom(Started(), steps);
      && w.counter == LoopCount(w.loop) + InFlight(w.executions)
      && (w.counter == 0 <==> Quiet(w))
      && DoneMeansQuiet(w)
  {
    var w := RunFrom(Started(), steps);
    if steps != [] {
      var before := steps[..|steps| - 1];
      CounterIsExact(before);
      NextKeepsCounted(RunFrom(Started(), before), steps[|steps| - 1]);
      NextKeepsDoneMeansQuiet(RunFrom(Started(), before), steps[|steps| - 1]);
    }
    NoneInFlight(w.executions);
  }

  lemma {:induction false} QuietAfterMore(w: World, more: seq<Step>)
    requires Quiet(w)
    ensures Quiet(RunFrom(w, more)) && RunFrom(w, more).executions == w.executions
  {
    if more != [] {
      var before := more[..|more| - 1];
      QuietAfterMore(w, before);
      QuietForGood(RunFrom(w, before), more[|more| - 1]);
    }
  }

  /** Once a `Stop` call has returned without an error, nothing is running, and whatever happens from
      then on, no execution ever starts again. */
  lemma NothingRunsAfterStop(steps: seq<Step>, more: seq<Step>, k: nat)
    requires k < |RunFrom(Started(), steps).stops| && RunFrom(Started(), steps).stops[k].result == Stopped
    ensures
      var w := RunFrom(Started(), steps);
      Quiet(w) && Quiet(RunFrom(w, more)) && RunFrom(w, more).executions == w.executions
  {
    CounterIsExact(steps);
    QuietAfterMore(RunFrom(Started(), steps), more);
  }

  // ---------------------------------------------------------------- coming to rest

  lemma {:induction false} RunBoth(w: World, first: seq<Step>, more: seq<Step>)
    ensures RunFrom(w, first + more) == RunFrom(RunFrom(w, first), more)
  {
    if more == [] {
      assert first + more == first;
    } else {
      var init := more[..|more| - 1];
      assert (first + more)[..|first + more| - 1] == first + init;
      RunBoth(w, first, init);
    }
  }

  /** How many steps the loop of a cancelled scheduler takes at most. */
  function LoopLeft(loop: Loop): nat {
    match loop
    case Testing => 5
    case Adding => 4
    case Spawning => 3
    case Selecting => 2
    case Leaving => 1
    case Gone => 0
  }

  lemma {:induction false} LoopLeaves(w: World) returns (steps: seq<Step>)
    requires w.cancelled
    ensures forall step <- steps :: step == LoopStep
    ensures RunFrom(w, steps).loop == Gone && RunFrom(w, steps).stops == w.stops
    decreases LoopLeft(w.loop)
  {
    if w.loop == Gone {
      return [];
    }
    var rest := LoopLeaves(Next(w, LoopStep));
    assert RunFrom(w, []) == w && [LoopStep][..0] == [];
    RunBoth(w, [LoopStep], rest);
    return [LoopStep] + rest;
  }

  /** How many steps an execution takes. */
  function ExecutionLeft(x: Execution): nat {
    match x
    case Spawned => 3
    case Executing => 2
    case Returned => 1
    case Signalled => 0
  }

  lemma {:induction false} ExecutionsReturn(w: World, n: nat) returns (steps: seq<Step>)
    requires w.loop == Gone && n <= |w.executions|
    requires forall e | n <= e < |w.executions| :: w.executions[e] == Signalled
    ensures forall step <- steps :: step.ExecutionStep?
    ensures Quiet(RunFrom(w, steps)) && RunFrom(w, steps).stops == w.stops
    decreases n, if n > 0 then ExecutionLeft(w.executions[n - 1]) else 0
  {
    if n == 0 {
      return [];
    }
    if w.executions[n - 1] == Signalled {
      steps := ExecutionsReturn(w, n - 1);
    } else {
      var rest := ExecutionsReturn(Next(w, ExecutionStep(n - 1)), n);
      assert RunFrom(w, []) == w && [ExecutionStep(n - 1)][..0] == [];
      RunBoth(w, [ExecutionStep(n - 1)], rest);
      steps := [ExecutionStep(n - 1)] + rest;
    }
  }

  lemma CancelledIsQuietAfter(w: World) returns (more: seq<Step>)
    requires w.cancelled
    ensures forall step <- more :: step == LoopStep || step.ExecutionStep?
    ensures Quiet(RunFrom(w, more)) && RunFrom(w, more).stops == w.stops
  {
    var loops := LoopLeaves(w);
    var executions := ExecutionsReturn(RunFrom(w, loops), |RunFrom(w, loops).executions|);
    RunBoth(w, loops, executions);
    return loops + executions;
  }

  lemma QuietStopReturns(w: World, k: nat)
    requires w.counter == 0 && Quiet(w) && k < |w.stops| && w.stops[k].result == Pending
    ensures
      var w' := RunFrom(w, [WaitReturns(k), StopReturns(k)]);
      Quiet(w') && |w'.stops| == |w.stops| && w'.stops[k].result == Stopped
  {
    var waits := [WaitReturns(k), StopReturns(k)];
    assert waits[..1] == [WaitReturns(k)] && waits[..1][..0] == [] && RunFrom(w, []) == w;
    assert RunFrom(w, waits) == Next(Next(w, WaitReturns(k)), StopReturns(k));
  }

  /** From every state of every run a cancellation lets everything come to rest by the steps of the loop and of the
      executions alone, and then a `Stop` call that still waits returns without an error. */
  lemma {:induction false} CancelledComesToRest(steps: seq<Step>, k: nat) returns (more: seq<Step>)
    requires k < |RunFrom(Started(), steps).stops| && RunFrom(Started(), steps).stops[k].result == Pending
    ensures forall step <- more :: step in {LoopStep, WaitReturns(k), StopReturns(k)} || step.ExecutionStep?
    ensures
      var w := RunFrom(Started(), steps + [Cancel] + more);
      Quiet(w) && k < |w.stops| && w.stops[k].result == Stopped
  {
    var all, waits := steps + [Cancel], [WaitReturns(k), StopReturns(k)];
    assert all[..|steps|] == steps;
    var rest := CancelledIsQuietAfter(RunFrom(Started(), all));
    RunBoth(Started(), all, rest);
    CounterIsExact(all + rest);
    QuietStopReturns(RunFrom(Started(), all + rest), k);
    RunBoth(Started(), all + rest, waits);
    more := rest + waits;
    assert all + more == all + rest + waits;
  }

  // ---------------------------------------------------------------- one execution at a time

  function Active(executions: seq<Execution>): nat {
    if executions == [] then 0
    else
      var x := executions[|executions| - 1];
      Active(executions[..|executions| - 1]) + if x == Spawned || x == Executing then 1 else 0
  }

  lemma {:induction false} ActiveAfterChange(executions: seq<Execution>, e: nat, x: Execution)
    requires e < |executions|
    ensures
      Active(executions[e := x]) + (if executions[e] == Spawned || executions[e] == Executing then 1 else 0) ==
      Active(executions) + if x == Spawned || x == Executing then 1 else 0
  {
    var last := |executions| - 1;
    if e < last {
      assert executions[e := x][..last] == executions[..last][e := x];
      ActiveAfterChange(executions[..last], e, x);
    } else {
      assert executions[e := x][..last] == executions[..last];
    }
  }

  lemma {:induction false} ActiveCountsEach(executions: seq<Execution>, e: nat)
    requires e < |executions| && (executions[e] == Spawned || executions[e] == Executing)
    ensures Active(executions) >= 1
    ensures Active(executions) == 1 ==>
      forall k | 0 <= k < |executions| && k != e :: executions[k] != Spawned && executions[k] != Executing
  {
    var last := |executions| - 1;
    if e < last {
      ActiveCountsEach(executions[..last], e);
    } else if Active(executions) == 1 {
      forall k | 0 <= k < last && (executions[k] == Spawned || executions[k] == Executing)
        ensures false
      {
        ActiveCountsEach(executions[..last], k);
      }
    }
  }

  /** Executions that have begun or are bound to begin. */
  function Launched(w: World): nat {
    Active(w.executions) + if w.loop == Adding || w.loop == Spawning then 1 else 0
  }

  /** At most one execution, and the process knows whether it has begun. */
  predicate OneAtATime(w: World) {
    && Launched(w) <= 1
    && (w.running <==> Executing in w.executions)
  }

  lemma {:induction false} ActiveExists(executions: seq<Execution>)
    ensures Active(executions) > 0 <==> Spawned in executions || Executing in executions
  {
    if executions != [] {
      var last := |executions| - 1;
      ActiveExists(executions[..last]);
      assert executions == executions[..last] + [executions[last]];
    }
  }

  lemma ExecutionKeepsOneAtATime(w: World, e: nat)
    requires OneAtATime(w) && e < |w.executions|
    ensures OneAtATime(ExecutionNext(w, e))
  {
    var before, after := w.executions, ExecutionNext(w, e).executions;
    if before[e] != Signalled {
      ActiveAfterChange(before, e, after[e]);
      assert after[e] in after;
      if before[e] == Spawned || before[e] == Executing {
        ActiveCountsEach(before, e);
      }
      assert forall k | 0 <= k < |before| && k != e :: before[k] == after[k] && before[k] in after;
    }
  }

  lemma LoopKeepsOneAtATime(w: World)
    requires OneAtATime(w) && w.loop != Testing
    ensures OneAtATime(LoopNext(w))
  {
    if w.loop == Spawning {
      var after := LoopNext(w).executions;
      assert after[..|w.executions|] == w.executions;
      assert Executing in after <==> Executing in w.executions;
    }
  }

  /** The test for a running process keeps executions from overlapping exactly when there is no
      execution that was spawned and has not begun: the process is marked as running only by the
      execution itself. No other step makes executions overlap. */
  lemma {:induction false} TestKeepsOneAtATime(w: World, step: Step)
    requires OneAtATime(w)
    ensures
      OneAtATime(Next(w, step)) <==> (step == LoopStep && w.loop == Testing ==> Spawned !in w.executions)
  {
    if step == LoopStep {
      if w.loop != Testing {
        LoopKeepsOneAtATime(w);
      } else {
        ActiveExists(w.executions);
        if Spawned in w.executions {
          var e :| 0 <= e < |w.executions| && w.executions[e] == Spawned;
          ActiveCountsEach(w.executions, e);
        }
      }
    } else if step.ExecutionStep? && step.e < |w.executions| {
      ExecutionKeepsOneAtATime(w, step.e);
    }
  }

  /** A step of the run tests for a running process while an execution has still to begin. */
  predicate TestsTooEarly(steps: seq<Step>, n: nat)
    requires n < |steps|
  {
    var w := RunFrom(Started(), steps[..n]);
    steps[n] == LoopStep && w.loop == Testing && Spawned in w.executions
  }

  lemma NextIsOneAtATime(steps: seq<Step>, n: nat)
    requires n < |steps| && OneAtATime(RunFrom(Started(), steps[..n]))
    ensures OneAtATime(RunFrom(Started(), steps[..n + 1])) <==> !TestsTooEarly(steps, n)
  {
    RunOn(Started(), steps, n);
    TestKeepsOneAtATime(RunFrom(Started(), steps[..n]), steps[n]);
  }

  lemma {:induction false} OneAtATimeUntil(steps: seq<Step>, n: nat)
    requires n <= |steps| && forall k | 0 <= k < n :: !TestsTooEarly(steps, k)
    ensures OneAtATime(RunFrom(Started(), steps[..n]))
  {
    if n == 0 {
      assert steps[..0] == [] && RunFrom(Started(), []) == Started();
    } else {
      OneAtATimeUntil(steps, n - 1);
      NextIsOneAtATime(steps, n - 1);
    }
  }

  /** Over whole runs: at most one execution is launched, begun or bound to begin, at any moment just when the
      loop never tests while an execution has been spawned and has not begun. */
  lemma {:induction false} LaunchesOverlapIffTestedTooEarly(steps: seq<Step>)
    ensures
      (forall n | 0 <= n <= |steps| :: OneAtATime(RunFrom(Started(), steps[..n]))) <==>
      forall n | 0 <= n < |steps| :: !TestsTooEarly(steps, n)
  {
    if forall n | 0 <= n < |steps| :: !TestsTooEarly(steps, n) {
      forall n | 0 <= n <= |steps|
        ensures OneAtATime(RunFrom(Started(), steps[..n]))
      {
        OneAtATimeUntil(steps, n);
      }
    } else {
      var n :| 0 <= n < |steps| && TestsTooEarly(steps, n);
      if OneAtATime(RunFrom(Started(), steps[..n])) {
        NextIsOneAtATime(steps, n);
        assert !OneAtATime(RunFrom(Started(), steps[..n + 1]));
      }
    }
  }

  ghost predicate TwoExecuting(w: World) {
    exists i, j :: 0 <= i < j < |w.executions| && w.executions[i] == w.executions[j] == Executing
  }

  lemma OneAtATimeIsNotTwo(w: World)
    requires OneAtATime(w)
    ensures !TwoExecuting(w)
  {
    if i, j :| 0 <= i < j < |w.executions| && w.executions[i] == w.executions[j] == Executing {
      ActiveCountsEach(w.executions, i);
    }
  }

  /** A test that comes too early finds nothing running, and the loop is about to spawn. */
  lemma EarlyTestGoesThrough(w: World)
    requires OneAtATime(w) && w.loop == Testing && Spawned in w.executions
    ensures LoopNext(w) == w.(loop := Adding)
  {
    var e :| 0 <= e < |w.executions| && w.executions[e] == Spawned;
    ActiveCountsEach(w.executions, e);
    assert Executing !in w.executions;
  }

  /** From there the loop spawns, and both executions begin, without another test. */
  lemma BothBegin(steps: seq<Step>, e: nat) returns (more: seq<Step>)
    requires RunFrom(Started(), steps).loop == Adding
    requires e < |RunFrom(Started(), steps).executions| && RunFrom(Started(), steps).executions[e] == Spawned
    ensures TwoExecuting(RunFrom(Started(), steps + more))
    ensures forall k | |steps| <= k < |steps + more| :: !TestsTooEarly(steps + more, k)
  {
    var w := RunFrom(Started(), steps);
    more := [LoopStep, LoopStep, ExecutionStep(e), ExecutionStep(|w.executions|)];
    var all, n := steps + more, |steps|;
    assert all[..n] == steps && all[..n + 4] == all;
    RunOn(Started(), all, n);
    RunOn(Started(), all, n + 1);
    RunOn(Started(), all, n + 2);
    RunOn(Started(), all, n + 3);
    SpawnedBegins(w, e);
  }

  lemma SpawnedBegins(w: World, e: nat)
    requires w.loop == Adding && e < |w.executions| && w.executions[e] == Spawned
    ensures
      var w2 := Next(Next(w, LoopStep), LoopStep);
      TwoExecuting(Next(Next(w2, ExecutionStep(e)), ExecutionStep(|w.executions|)))
  {
    var m := |w.executions|;
    var w2 := Next(Next(w, LoopStep), LoopStep);
    var w4 := Next(Next(w2, ExecutionStep(e)), ExecutionStep(m));
    assert w2.executions == w.executions + [Spawned];
    assert w4.executions == w2.executions[e := Executing][m := Executing];
    assert w4.executions[e] == w4.executions[m] == Executing;
  }

  /** Over whole runs: without a further early test, two executions can come to be under way together from some
      moment of the run on just when it has had an early test. */
  lemma {:induction false} ExecutionsCanOverlapIffTestedTooEarly(steps: seq<Step>)
    ensures
      (exists n, more ::
         && 0 <= n <= |steps| && TwoExecuting(RunFrom(Started(), steps[..n] + more))
         && forall k | n <= k < |steps[..n] + more| :: !TestsTooEarly(steps[..n] + more, k))
      <==> exists n | 0 <= n < |steps| :: TestsTooEarly(steps, n)
  {
    if n, more :| 0 <= n <= |steps| && TwoExecuting(RunFrom(Started(), steps[..n] + more))
                  && forall k | n <= k < |steps[..n] + more| :: !TestsTooEarly(steps[..n] + more, k) {
      var all := steps[..n] + more;
      if forall k | 0 <= k < |steps| :: !TestsTooEarly(steps, k) {
        forall k | 0 <= k < n
          ensures !TestsTooEarly(all, k)
        {
          assert all[..k] == steps[..k] && !TestsTooEarly(steps, k);
        }
        OneAtATimeUntil(all, |all|);
        assert all[..|all|] == all;
        OneAtATimeIsNotTwo(RunFrom(Started(), all));
      }
    }
    if exists n | 0 <= n < |steps| :: TestsTooEarly(steps, n) {
      var n := FirstEarlyTest(steps, |steps|);
      OneAtATimeUntil(steps, n);
      RunOn(Started(), steps, n);
      EarlyTestGoesThrough(RunFrom(Started(), steps[..n]));
      var e :| 0 <= e < |RunFrom(Started(), steps[..n]).executions|
               && RunFrom(Started(), steps[..n]).executions[e] == Spawned;
      var more := BothBegin(steps[..n + 1], e);
      assert TwoExecuting(RunFrom(Started(), steps[..n + 1] + more));
    }
  }

  lemma {:induction false} FirstEarlyTest(steps: seq<Step>, m: nat) returns (n: nat)
    requires m <= |steps| && exists k | 0 <= k < m :: TestsTooEarly(steps, k)
    ensures n < m && TestsTooEarly(steps, n) && forall k | 0 <= k < n :: !TestsTooEarly(steps, k)
  {
    if exists k | 0 <= k < m - 1 :: TestsTooEarly(steps, k) {
      n := FirstEarlyTest(steps, m - 1);
    } else {
      n := m - 1;
    }
  }

  /** Two executions can be under way together: a tick that comes before the first has begun. */
  lemma {:induction false} ExecutionsCanOverlap()
    ensures
      var steps := [LoopStep, LoopStep, LoopStep, Tick(false), LoopStep, LoopStep, LoopStep,
                    ExecutionStep(0), ExecutionStep(1)];
      RunFrom(Started(), steps).executions == [Executing, Executing]
  {
    var steps := [LoopStep, LoopStep, LoopStep, Tick(false), LoopStep, LoopStep, LoopStep,
                  ExecutionStep(0), ExecutionStep(1)];
    var w := Started();
    RunOn(w, steps, 0);
    RunOn(w, steps, 1);
    RunOn(w, steps, 2);
    RunOn(w, steps, 3);
    RunOn(w, steps, 4);
    RunOn(w, steps, 5);
    RunOn(w, steps, 6);
    RunOn(w, steps, 7);
    RunOn(w, steps, 8);
    assert steps[..9] == steps;
  }

  lemma RunOn(w: World, steps: seq<Step>, n: nat)
    requires n < |steps|
    ensures RunFrom(w, steps[..n + 1]) == Next(RunFrom(w, steps[..n]), steps[n])
  {
    assert steps[..n + 1][..n] == steps[..n];
  }
}
