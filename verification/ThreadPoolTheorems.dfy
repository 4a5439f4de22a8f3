/**
 What a caller of the thread pool relies on, for every number of workers and every run: functions are
 handed over in the order they were scheduled, each runs exactly once, and `wait` returns, with
 everything scheduled before it done, exactly when it can.
*/
module ThreadPoolTheorems {
  import opened ThreadPoolProtocol
  import opened ThreadPoolSafety

  ghost predicate Reaches(numThreads: nat, steps: seq<Step>, t: Pool)
  {
    Leads(Initial(numThreads), steps, t)
  }

  lemma ReachesInv(numThreads: nat, steps: seq<Step>, t: Pool)
    requires Reaches(numThreads, steps, t)
    ensures Inv(t) && |t.threadsT| == numThreads
  {
    InitialInv(numThreads);
    RunKeepsInv(Initial(numThreads), steps, t);
    KeepsNumThreads(Initial(numThreads), steps, t);
  }

  lemma {:induction false} KeepsNumThreads(s: Pool, steps: seq<Step>, t: Pool)
    requires Leads(s, steps, t)
    ensures |t.threadsT| == |s.threadsT|
    decreases |steps|
  {
    if steps != [] {
      KeepsNumThreads(Next(s, steps[0]), steps[1..], t);
    }
  }

  // ----- safety

  /** Functions leave the pool's queue, and reach the workers, in the order schedule was called. */
  lemma HandOverIsFifo(numThreads: nat, steps: seq<Step>, t: Pool)
    requires Reaches(numThreads, steps, t)
    ensures t.handedOver + Hand(t.dispatcher) + t.filaFuncoes == t.scheduled
  {
    ReachesInv(numThreads, steps, t);
  }

  /** Every scheduled function is in exactly one place, as often as it was scheduled. */
  lemma EveryFunctionInOnePlace(numThreads: nat, steps: seq<Step>, t: Pool, fn: Funcao)
    requires Reaches(numThreads, steps, t)
    ensures multiset(t.scheduled)[fn]
         == multiset(t.filaFuncoes)[fn] + multiset(Hand(t.dispatcher))[fn]
          + Holding(t.threadsT, fn, false) + Holding(t.threadsT, fn, true) + multiset(t.finished)[fn]
  {
    ReachesInv(numThreads, steps, t);
    assert Balanced(t, fn);
    assert multiset(t.scheduled)
        == multiset(t.handedOver) + multiset(Hand(t.dispatcher)) + multiset(t.filaFuncoes) by {
      assert t.scheduled == t.handedOver + Hand(t.dispatcher) + t.filaFuncoes;
    }
  }

  /**
   A worker waits in filaThreads at most once and with an empty slot, so the dispatcher never overwrites
   a function, although a worker runs and clears its slot without its mutex.
  */
  lemma HandOverNeverOverwrites(numThreads: nat, steps: seq<Step>, t: Pool)
    requires Reaches(numThreads, steps, t)
    ensures |t.threadsT| == numThreads
    ensures forall k :: 0 <= k < |t.filaThreads| ==>
              t.filaThreads[k] < numThreads && t.threadsT[t.filaThreads[k]].slot == EMPTY_SLOT
    ensures forall j, k :: 0 <= j < k < |t.filaThreads| ==> t.filaThreads[j] != t.filaThreads[k]
    ensures t.dispatcher.HandOver? ==>
              t.dispatcher.t < numThreads && t.threadsT[t.dispatcher.t].slot == EMPTY_SLOT
              && t.threadsT[t.dispatcher.t].pc in {TestSlot, WaitSlot}
  {
    ReachesInv(numThreads, steps, t);
    forall k | 0 <= k < |t.filaThreads| ensures t.threadsT[t.filaThreads[k]].slot == EMPTY_SLOT {
      assert WorkerOk(t.threadsT[t.filaThreads[k]]);
    }
  }

  /** The dispatcher creates no worker or all of them before it lets go of mutexFilaThreads. */
  lemma WorkersCreatedTogether(numThreads: nat, steps: seq<Step>, t: Pool)
    requires Reaches(numThreads, steps, t) && !t.dispatcher.HoldThreads?
    ensures |t.threadsT| == numThreads
    ensures t.quantThreads == 0 || t.quantThreads == numThreads
    ensures forall i :: 0 <= i < numThreads ==> (t.threadsT[i].pc == NotStarted <==> t.quantThreads == 0)
  {
    ReachesInv(numThreads, steps, t);
  }

  /** wait's loop over threadsT meets an uninitialised mutex exactly when the pool, not being empty, was never used. */
  lemma JoinLoopMeetsStartedWorkers(numThreads: nat, steps: seq<Step>, t: Pool, i: nat)
    requires Reaches(numThreads, steps, t) && t.caller == SignalWorker(i) && i < numThreads
    ensures CallerEnabled(t)
    ensures CallerNext(t).caller == UninitializedMutex <==> t.handedOver == []
    ensures t.scheduledBeforeWait > 0 ==> CallerNext(t).caller == JoinWorker(i)
  {
    ReachesInv(numThreads, steps, t);
  }

  /** What wait promises: all that was scheduled before it has run to its end, and nothing still runs. */
  lemma ShutdownIsComplete(numThreads: nat, steps: seq<Step>, t: Pool)
    requires Reaches(numThreads, steps, t) && t.caller == WaitReturned
    ensures |t.threadsT| == numThreads
    ensures t.dispatcher == DispatcherEnded
    ensures forall i :: 0 <= i < numThreads ==> t.threadsT[i] == Worker(WorkerEnded, EMPTY_SLOT)
    ensures t.handedOver <= t.scheduled && t.scheduledBeforeWait <= |t.handedOver|
    ensures multiset(t.finished) == multiset(t.started) == multiset(t.handedOver)
  {
    ReachesInv(numThreads, steps, t);
    assert t.scheduled == t.handedOver + t.filaFuncoes;
    forall i | 0 <= i < numThreads ensures t.threadsT[i] == Worker(WorkerEnded, EMPTY_SLOT) {
      assert t.threadsT[i].pc == WorkerEnded && WorkerOk(t.threadsT[i]);
    }
    forall fn: Funcao ensures multiset(t.finished)[fn] == multiset(t.started)[fn] == multiset(t.handedOver)[fn] {
      assert Balanced(t, fn);
      HoldingNone(t.threadsT, fn, false);
      HoldingNone(t.threadsT, fn, true);
    }
  }

  /** A worker never ends with a function in its slot, and none is filled once the workers may end. */
  lemma NoFunctionIsAbandoned(numThreads: nat, steps: seq<Step>, t: Pool)
    requires Reaches(numThreads, steps, t)
    ensures |t.threadsT| == numThreads
    ensures forall i :: 0 <= i < numThreads && t.threadsT[i].pc == WorkerEnded ==>
              t.threadsT[i].slot == EMPTY_SLOT && t.flagExitTrabalhar
    ensures t.flagExitTrabalhar ==> !Enabled(t, DispatcherStep)
  {
    ReachesInv(numThreads, steps, t);
    forall i | 0 <= i < numThreads && t.threadsT[i].pc == WorkerEnded ensures t.threadsT[i].slot == EMPTY_SLOT {
      assert WorkerOk(t.threadsT[i]);
    }
  }

  // ----- progress

  /** A thread of the pool that can move, in a state where wait has been called. */
  lemma SomeThreadMoves(s: Pool) returns (step: Step)
    requires Inv(s) && s.caller != WaitReturned && s.caller != UninitializedMutex
    requires |s.threadsT| > 0 || !Popped(s)
    ensures OwnStep(step) && Enabled(s, step)
  {
    if CallerEnabled(s) {
      step := CallerStep;
    } else if DispatcherEnabled(s) {
      step := DispatcherStep;
    } else if s.dispatcher.WaitThread? {
      step := WorkerStep(0);
      assert !Parked(s.threadsT[0]) && WorkerOk(s.threadsT[0]);
    } else {
      step := WorkerStep(s.caller.i);
    }
  }

  /** A pool that no longer moves: wait has returned, has met an uninitialised mutex, or waits for workers it cannot have. */
  lemma StuckCases(s: Pool)
    requires Inv(s) && Stuck(s)
    ensures s.caller == WaitReturned || s.caller == UninitializedMutex || (|s.threadsT| == 0 && Popped(s))
  {
    if s.caller != WaitReturned && s.caller != UninitializedMutex && !(|s.threadsT| == 0 && Popped(s)) {
      var step := SomeThreadMoves(s);
    }
  }

  /** With a worker to run them and a function scheduled before wait, some thread can move until wait returns. */
  lemma NoDeadlock(numThreads: nat, steps: seq<Step>, t: Pool)
    requires Reaches(numThreads, steps, t) && numThreads > 0
    requires t.caller != BeforeWait && t.scheduledBeforeWait > 0
    ensures Stuck(t) <==> t.caller == WaitReturned
  {
    ReachesInv(numThreads, steps, t);
    if Stuck(t) {
      StuckCases(t);
    }
    if t.caller == WaitReturned {
      forall step | OwnStep(step) ensures !Enabled(t, step) {
        if step.WorkerStep? && step.i < numThreads {
          assert t.threadsT[step.i].pc == WorkerEnded;
        }
      }
    }
  }

  /**
   Whether wait returns, in any run and whatever is scheduled after it, depends only on the number of workers and on
   whether the dispatcher ever took a function: wait returns unless workers were asked for and never used, or a function
   was taken and there are no workers.
  */
  lemma WaitReturnsIff(numThreads: nat, steps: seq<Step>, t: Pool)
    requires Reaches(numThreads, steps, t) && Stuck(t)
    ensures t.caller == WaitReturned <==> (numThreads == 0 <==> !Popped(t))
  {
    ReachesInv(numThreads, steps, t);
    StuckCases(t);
    if t.caller == WaitReturned && numThreads > 0 {
      assert t.threadsT[0].pc == WorkerEnded;
    }
  }

  /** When nothing is scheduled after wait, the dispatcher took a function exactly when something was scheduled. */
  lemma WaitReturnsByScheduled(numThreads: nat, steps: seq<Step>, t: Pool)
    requires Reaches(numThreads, steps, t) && Stuck(t)
    requires |t.scheduled| == t.scheduledBeforeWait
    ensures t.caller == WaitReturned <==> (numThreads == 0 <==> t.scheduledBeforeWait == 0)
  {
    WaitReturnsIff(numThreads, steps, t);
    ReachesInv(numThreads, steps, t);
    StuckCases(t);
  }

  // ----- termination of wait

  /** How far a worker still has to go. */
  function WorkerWork(w: Worker): nat
  {
    match w.pc
    case NotStarted => 6
    case Announce => 5
    case TestSlot => if w.slot.f != NULL then 10 else 2
    case WaitSlot => 1
    case CallFunction => 9
    case Executing => 8
    case ClearFunction => 7
    case ClearParam => 6
    case WorkerEnded => 0
  }

  function Work(ws: seq<Worker>): nat
  {
    if ws == [] then 0 else Work(ws[..|ws| - 1]) + WorkerWork(ws[|ws| - 1])
  }

  function DispatcherWork(d: DispatcherPc): nat
  {
    match d
    case DispatcherEnded => 0
    case RaiseExitFlag => 1
    case WaitFunction => 2
    case TakeFunction => 3
    case HandOver(_, _) => 13
    case WaitThread(_) => 14
    case HoldThreads(_) => 15
    case LockThreads(_) => 16
  }

  function CallerWork(c: CallerPc, numThreads: nat): int
  {
    match c
    case BeforeWait => 3 * numThreads + 4
    case JoinDispatcher => 3 * numThreads + 2
    case SignalWorker(i) => 3 * (numThreads - i) + 1
    case JoinWorker(i) => 3 * (numThreads - i) - 1
    case WaitReturned => 0
    case UninitializedMutex => 0
  }

  /** The work left in the pool: an upper bound on the steps it can take before the next schedule. */
  function Measure(s: Pool): int
  {
    14 * |s.filaFuncoes| + DispatcherWork(s.dispatcher) + Work(s.threadsT) + CallerWork(s.caller, |s.threadsT|)
  }

  lemma {:induction false} WorkUpdate(ws: seq<Worker>, i: nat, w: Worker)
    requires i < |ws|
    ensures Work(ws[i := w]) == Work(ws) - WorkerWork(ws[i]) + WorkerWork(w)
  {
    var n := |ws| - 1;
    if i == n {
      assert ws[i := w][..n] == ws[..n];
    } else {
      WorkUpdate(ws[..n], i, w);
      assert ws[i := w][..n] == ws[..n][i := w];
    }
  }

  lemma MeasureIsNat(s: Pool)
    requires JoinsOk(s)
    ensures Measure(s) >= 0
  {
  }

  lemma DispatcherWorks(s: Pool)
    requires DispatcherEnabled(s) && Spawned(s.threadsT, s.quantThreads)
    requires s.dispatcher.HandOver? ==> Parked(s.threadsT[s.dispatcher.t])
    ensures Measure(DispatcherNext(s)) < Measure(s)
  {
    match s.dispatcher
    case HoldThreads(_) =>
      if s.filaThreads == [] && s.quantThreads < |s.threadsT| {
        WorkUpdate(s.threadsT, s.quantThreads, Worker(Announce, EMPTY_SLOT));
      }
    case HandOver(fn, t) =>
      WorkUpdate(s.threadsT, t, SignalContinue(s.threadsT[t].(slot := fn)));
    case _ =>
  }

  lemma WorkerWorks(s: Pool, i: nat)
    requires i < |s.threadsT| && WorkerEnabled(s, i) && WorkerOk(s.threadsT[i])
    ensures Measure(WorkerNext(s, i)) < Measure(s)
  {
    WorkUpdate(s.threadsT, i, WorkerNext(s, i).threadsT[i]);
  }

  lemma CallerWorks(s: Pool)
    requires JoinsOk(s) && WorkersOk(s) && CallerEnabled(s)
    ensures Measure(CallerNext(s)) < Measure(s)
  {
    match s.caller
    case SignalWorker(i) =>
      assert i == Joined(s);
      if i < |s.threadsT| {
        assert WorkerOk(s.threadsT[i]);
        WorkUpdate(s.threadsT, i, SignalContinue(s.threadsT[i]));
      }
    case _ =>
  }

  lemma OwnStepWorks(s: Pool, step: Step)
    requires Inv(s) && OwnStep(step) && Enabled(s, step)
    ensures Measure(Next(s, step)) < Measure(s)
  {
    match step
    case DispatcherStep => DispatcherWorks(s);
    case WorkerStep(i) => WorkerWorks(s, i);
    case CallerStep => CallerWorks(s);
  }

  // ----- what the environment adds

  /** The work that a step of the environment can add: a function to run, or a thread that looks at its condition again. */
  function Added(step: Step): nat
  {
    match step
    case Schedule(_) => 15
    case WakeDispatcher => 2
    case WakeWorker(_) => 1
    case _ => 0
  }

  function AddedBy(steps: seq<Step>): nat
  {
    if steps == [] then 0 else Added(steps[0]) + AddedBy(steps[1..])
  }

  /** How many steps of a run the pool's own threads take. */
  function OwnSteps(steps: seq<Step>): nat
  {
    if steps == [] then 0 else (if OwnStep(steps[0]) then 1 else 0) + OwnSteps(steps[1..])
  }

  lemma EnvironmentAdds(s: Pool, step: Step)
    requires Inv(s) && Enabled(s, step) && !OwnStep(step)
    ensures Measure(Next(s, step)) <= Measure(s) + Added(step)
  {
    if step.WakeWorker? {
      assert WorkerOk(s.threadsT[step.i]);
      WorkUpdate(s.threadsT, step.i, SignalContinue(s.threadsT[step.i]));
    }
  }

  /** In any run the threads take no more steps than there was work, and than the environment has added since. */
  lemma {:induction false} OwnStepsAreFew(s: Pool, steps: seq<Step>, t: Pool)
    requires Inv(s) && Leads(s, steps, t)
    ensures OwnSteps(steps) <= Measure(s) - Measure(t) + AddedBy(steps) && Measure(t) >= 0
    decreases |steps|
  {
    hide Measure, Inv, Next, Enabled;
    if steps == [] {
      MeasureOfInv(s);
    } else {
      if OwnStep(steps[0]) {
        OwnStepWorks(s, steps[0]);
      } else {
        EnvironmentAdds(s, steps[0]);
      }
      StepKeepsInv(s, steps[0]);
      OwnStepsAreFew(Next(s, steps[0]), steps[1..], t);
    }
  }

  lemma MeasureOfInv(s: Pool)
    requires Inv(s)
    ensures Measure(s) >= 0
  {
    MeasureIsNat(s);
  }

  lemma {:induction false} OwnRunCounts(steps: seq<Step>)
    requires OwnRun(steps)
    ensures OwnSteps(steps) == |steps| && AddedBy(steps) == 0
  {
    if steps != [] {
      assert OwnStep(steps[0]);
      assert forall k :: 0 <= k < |steps[1..]| ==> steps[1..][k] == steps[k + 1];
      OwnRunCounts(steps[1..]);
    }
  }

  /** So the pool cannot move for ever by itself. */
  lemma OwnRunsAreShort(s: Pool, steps: seq<Step>, t: Pool)
    requires Inv(s) && OwnRun(steps) && Leads(s, steps, t)
    ensures |steps| <= Measure(s) - Measure(t) && Measure(t) >= 0
  {
    OwnStepsAreFew(s, steps, t);
    OwnRunCounts(steps);
  }

  /**
   wait terminates: from any state in which wait has been called, however the threads are interleaved, whatever is scheduled
   and whichever threads wake up without a signal, the threads take no more steps than there was work and than was added;
   when they come to rest wait has returned, and then every function that was scheduled before it has finished.
  */
  lemma WaitTerminates(numThreads: nat, before: seq<Step>, s: Pool, after: seq<Step>, t: Pool)
    requires Reaches(numThreads, before, s) && numThreads > 0
    requires s.caller != BeforeWait && s.scheduledBeforeWait > 0
    requires Leads(s, after, t)
    ensures OwnSteps(after) <= Measure(s) + AddedBy(after)
    ensures Stuck(t) <==> t.caller == WaitReturned
    ensures t.caller == WaitReturned ==>
              s.scheduledBeforeWait <= |t.scheduled|
              && multiset(t.scheduled[..s.scheduledBeforeWait]) <= multiset(t.finished)
  {
    hide Measure, Inv;
    ReachesInv(numThreads, before, s);
    OwnStepsAreFew(s, after, t);
    LeadsThrough(Initial(numThreads), before, s, after, t);
    KeepsScheduledBeforeWait(s, after, t);
    NoDeadlock(numThreads, before + after, t);
    if t.caller == WaitReturned {
      ShutdownIsComplete(numThreads, before + after, t);
      var n := s.scheduledBeforeWait;
      assert t.scheduled[..n] == t.handedOver[..n];
      assert t.handedOver == t.handedOver[..n] + t.handedOver[n..];
    }
  }

  lemma {:induction false} LeadsThrough(s: Pool, before: seq<Step>, u: Pool, after: seq<Step>, t: Pool)
    requires Leads(s, before, u) && Leads(u, after, t)
    ensures Leads(s, before + after, t)
    decreases |before|
  {
    if before == [] {
      assert before + after == after;
    } else {
      LeadsThrough(Next(s, before[0]), before[1..], u, after, t);
      assert (before + after)[1..] == before[1..] + after;
    }
  }

  lemma {:induction false} KeepsScheduledBeforeWait(s: Pool, steps: seq<Step>, t: Pool)
    requires Leads(s, steps, t) && s.caller != BeforeWait
    ensures t.caller != BeforeWait && t.scheduledBeforeWait == s.scheduledBeforeWait
    decreases |steps|
  {
    if steps != [] {
      KeepsScheduledBeforeWait(Next(s, steps[0]), steps[1..], t);
    }
  }

  // ----- the two ways in which wait fails to return

  /** Calling wait on a pool of at least one worker to which nothing was scheduled locks an uninitialised mutex. */
  lemma WaitOnUnusedPool(numThreads: nat) returns (steps: seq<Step>, t: Pool)
    requires numThreads > 0
    ensures Reaches(numThreads, steps, t) && Stuck(t) && t.scheduled == []
    ensures t.caller == UninitializedMutex
  {
    var s0 := Initial(numThreads);
    var s1 := Next(s0, CallerStep);
    var s2 := Next(s1, DispatcherStep);
    var s3 := Next(s2, DispatcherStep);
    var s4 := Next(s3, CallerStep);
    t := Next(s4, CallerStep);
    steps := [CallerStep, DispatcherStep, DispatcherStep, CallerStep, CallerStep];
    assert Leads(s4, [CallerStep], t);
    assert steps[4..] == [CallerStep] && Leads(s3, steps[3..], t) by { assert steps[3..][1..] == [CallerStep]; }
    assert Leads(s2, steps[2..], t) by { assert steps[2..][1..] == steps[3..]; }
    assert Leads(s1, steps[1..], t) by { assert steps[1..][1..] == steps[2..]; }
  }

  /** A function scheduled on a pool without workers is never run, and wait blocks for ever. */
  lemma WaitOnPoolWithoutWorkers(fn: Funcao) returns (steps: seq<Step>, t: Pool)
    requires fn.f != NULL
    ensures Reaches(0, steps, t) && Stuck(t) && t.scheduled == [fn]
    ensures t.caller == JoinDispatcher && t.finished == []
  {
    var s0 := Initial(0);
    var s1 := Next(s0, Schedule(fn));
    var s2 := Next(s1, CallerStep);
    var s3 := Next(s2, DispatcherStep);
    var s4 := Next(s3, DispatcherStep);
    t := Next(s4, DispatcherStep);
    steps := [Schedule(fn), CallerStep, DispatcherStep, DispatcherStep, DispatcherStep];
    assert Leads(s4, [DispatcherStep], t);
    assert steps[4..] == [DispatcherStep] && Leads(s3, steps[3..], t) by { assert steps[3..][1..] == [DispatcherStep]; }
    assert Leads(s2, steps[2..], t) by { assert steps[2..][1..] == steps[3..]; }
    assert Leads(s1, steps[1..], t) by { assert steps[1..][1..] == steps[2..]; }
  }
}
