/**
 What every run of the thread pool keeps: hand-over order, exactly-once execution, all workers created
 at once, and complete shutdown.
*/
module ThreadPoolSafety {
  import opened ThreadPoolProtocol

  // ----- where the functions are

  /** How many workers hold fn: with running, those inside it; otherwise, those that have yet to call it. */
  ghost function Holding(ws: seq<Worker>, fn: Funcao, running: bool): nat
  {
    if ws == [] then 0 else Holding(ws[..|ws| - 1], fn, running) + Holds(ws[|ws| - 1], fn, running)
  }

  ghost function Holds(w: Worker, fn: Funcao, running: bool): nat
  {
    if w.slot == fn && fn.f != NULL && (if running then w.pc == Executing else w.pc != Executing && w.pc != ClearFunction)
    then 1 else 0
  }

  lemma {:induction false} HoldingUpdate(ws: seq<Worker>, i: nat, w: Worker, fn: Funcao, running: bool)
    requires i < |ws|
    ensures Holding(ws[i := w], fn, running) == Holding(ws, fn, running) - Holds(ws[i], fn, running) + Holds(w, fn, running)
  {
    var n := |ws| - 1;
    if i == n {
      assert ws[i := w][..n] == ws[..n];
    } else {
      HoldingUpdate(ws[..n], i, w, fn, running);
      assert ws[i := w][..n] == ws[..n][i := w];
    }
  }

  lemma {:induction false} HoldingNone(ws: seq<Worker>, fn: Funcao, running: bool)
    requires forall i :: 0 <= i < |ws| ==> Holds(ws[i], fn, running) == 0
    ensures Holding(ws, fn, running) == 0
  {
    if ws != [] {
      HoldingNone(ws[..|ws| - 1], fn, running);
    }
  }

  // ----- the invariant

  /** A worker that nothing keeps from being given a function: parked, with an empty slot. */
  predicate Parked(w: Worker)
  {
    (w.pc == TestSlot || w.pc == WaitSlot) && w.slot == EMPTY_SLOT
  }

  /** The counter and the slot of a worker fit together. */
  predicate WorkerOk(w: Worker)
  {
    match w.pc
    case NotStarted => w.slot == EMPTY_SLOT
    case Announce => w.slot == EMPTY_SLOT
    case TestSlot => w.slot.f == NULL ==> w.slot == EMPTY_SLOT
    case WaitSlot => w.slot == EMPTY_SLOT
    case ClearParam => w.slot.f == NULL
    case WorkerEnded => w.slot == EMPTY_SLOT
    case _ => w.slot.f != NULL
  }

  /** Every copy of fn that was handed over waits in a slot, is being run, or has returned. */
  ghost predicate Balanced(s: Pool, fn: Funcao)
  {
    && multiset(s.handedOver)[fn] == Holding(s.threadsT, fn, false) + multiset(s.started)[fn]
    && multiset(s.started)[fn] == Holding(s.threadsT, fn, true) + multiset(s.finished)[fn]
  }

  ghost predicate Conserved(s: Pool)
  {
    && s.handedOver + Hand(s.dispatcher) + s.filaFuncoes == s.scheduled
    && (forall k :: 0 <= k < |s.scheduled| ==> s.scheduled[k].f != NULL)
    && (forall fn: Funcao :: Balanced(s, fn))
  }

  /** Some function has left filaFuncoes. */
  predicate Popped(s: Pool)
  {
    s.handedOver != [] || Hand(s.dispatcher) != []
  }

  /** Workers exist from 0 to quantThreads; they are all created in one stay inside mutexFilaThreads. */
  ghost predicate SpawnedTogether(s: Pool)
  {
    && Spawned(s.threadsT, s.quantThreads)
    && (!s.dispatcher.HoldThreads? ==> s.quantThreads == 0 || s.quantThreads == |s.threadsT|)
    && (s.dispatcher.WaitThread? || s.dispatcher.HandOver? ==> s.quantThreads == |s.threadsT|)
    && (s.handedOver != [] ==> s.quantThreads == |s.threadsT| > 0)
    && (s.quantThreads > 0 ==> Popped(s))
  }

  ghost predicate Spawned(ws: seq<Worker>, quantThreads: nat)
  {
    && quantThreads <= |ws|
    && (forall i :: 0 <= i < |ws| ==> (ws[i].pc == NotStarted <==> i >= quantThreads))
    && (quantThreads < |ws| ==> forall i :: 0 <= i < quantThreads ==> ws[i].pc == Announce)
  }

  /** filaThreads lists, once each, exactly the parked workers, less the one the dispatcher has chosen. */
  ghost predicate FreeListOk(s: Pool)
  {
    && FreeList(s.filaThreads, s.threadsT, if s.dispatcher.HandOver? then s.dispatcher.t else -1)
    && (s.dispatcher.WaitThread? ==> s.filaThreads == [])
  }

  ghost predicate FreeList(fila: seq<nat>, ws: seq<Worker>, chosen: int)
  {
    && (forall k :: 0 <= k < |fila| ==> fila[k] < |ws| && (Parked(ws[fila[k]]) || ws[fila[k]].pc == WorkerEnded))
    && (forall j, k :: 0 <= j < k < |fila| ==> fila[j] != fila[k])
    && (forall i :: 0 <= i < |ws| && Parked(ws[i]) ==> i in fila || i == chosen)
    && (0 <= chosen ==> chosen < |ws| && chosen !in fila && Parked(ws[chosen]))
  }

  lemma FreeListPop(fila: seq<nat>, ws: seq<Worker>)
    requires FreeList(fila, ws, -1) && fila != [] && ws[fila[0]].pc != WorkerEnded
    ensures FreeList(fila[1..], ws, fila[0])
  {
  }

  lemma FreeListPush(fila: seq<nat>, ws: seq<Worker>, chosen: int, i: nat, w: Worker)
    requires FreeList(fila, ws, chosen) && i < |ws| && ws[i].pc == Announce && Parked(w)
    ensures FreeList(fila + [i], ws[i := w], chosen)
  {
  }

  lemma FreeListFill(fila: seq<nat>, ws: seq<Worker>, i: nat, w: Worker)
    requires FreeList(fila, ws, i) && !Parked(w)
    ensures FreeList(fila, ws[i := w], -1)
  {
  }

  lemma FreeListUpdate(fila: seq<nat>, ws: seq<Worker>, chosen: int, i: nat, w: Worker)
    requires FreeList(fila, ws, chosen) && i < |ws|
    requires Parked(ws[i]) ==> Parked(w) || (w.pc == WorkerEnded && chosen != i)
    requires !Parked(ws[i]) ==> !Parked(w) && ws[i].pc != WorkerEnded
    ensures FreeList(fila, ws[i := w], chosen)
  {
  }

  ghost predicate WorkersOk(s: Pool)
  {
    && (forall i :: 0 <= i < |s.threadsT| ==> WorkerOk(s.threadsT[i]))
    && (forall i :: 0 <= i < |s.threadsT| && s.threadsT[i].pc == WorkerEnded ==> s.flagExitTrabalhar)
  }

  /** The exit protocol: who has seen which flag. */
  ghost predicate ShutdownOk(s: Pool)
  {
    && (s.flagExitTrabalhar <==> s.dispatcher.DispatcherEnded?)
    && (s.flagExitDispatcher <==> !s.caller.BeforeWait?)
    && (s.dispatcher.WaitFunction? ==> s.filaFuncoes == [] && !s.flagExitDispatcher)
    && (s.dispatcher.RaiseExitFlag? || s.dispatcher.DispatcherEnded? ==>
          s.flagExitDispatcher && s.scheduledBeforeWait <= |s.handedOver|)
    && s.scheduledBeforeWait <= |s.scheduled|
    && (s.caller.BeforeWait? ==> s.scheduledBeforeWait == 0)
    && (!s.caller.BeforeWait? && !s.caller.JoinDispatcher? ==> s.dispatcher.DispatcherEnded?)
  }

  /** How many workers the caller has joined. */
  function Joined(s: Pool): nat
  {
    match s.caller
    case SignalWorker(i) => i
    case JoinWorker(i) => i
    case WaitReturned => |s.threadsT|
    case _ => 0
  }

  ghost predicate JoinsOk(s: Pool)
  {
    && Joined(s) <= |s.threadsT|
    && (forall i :: 0 <= i < Joined(s) ==> s.threadsT[i].pc == WorkerEnded)
    && (s.caller.JoinWorker? ==>
          && s.caller.i < |s.threadsT|
          && s.threadsT[s.caller.i].pc != NotStarted
          && s.threadsT[s.caller.i].pc != WaitSlot)
    && (s.caller.UninitializedMutex? ==> |s.threadsT| > 0 && s.quantThreads == 0)
  }

  ghost predicate Inv(s: Pool)
  {
    && Conserved(s)
    && SpawnedTogether(s)
    && FreeListOk(s)
    && WorkersOk(s)
    && ShutdownOk(s)
    && JoinsOk(s)
  }

  lemma InitialInv(numThreads: nat)
    ensures Inv(Initial(numThreads))
  {
    forall fn: Funcao ensures Balanced(Initial(numThreads), fn) {
      HoldingNone(Initial(numThreads).threadsT, fn, false);
      HoldingNone(Initial(numThreads).threadsT, fn, true);
    }
  }

  // ----- each part of the invariant is kept by every step

  lemma BalancedKept(s: Pool, t: Pool, i: nat, fn: Funcao)
    requires Balanced(s, fn)
    requires i < |s.threadsT| == |t.threadsT| && t.threadsT == s.threadsT[i := t.threadsT[i]]
    requires multiset(t.handedOver)[fn] + Holds(s.threadsT[i], fn, false) + multiset(s.started)[fn]
          == multiset(s.handedOver)[fn] + Holds(t.threadsT[i], fn, false) + multiset(t.started)[fn]
    requires multiset(t.started)[fn] + Holds(s.threadsT[i], fn, true) + multiset(s.finished)[fn]
          == multiset(s.started)[fn] + Holds(t.threadsT[i], fn, true) + multiset(t.finished)[fn]
    ensures Balanced(t, fn)
  {
    HoldingUpdate(s.threadsT, i, t.threadsT[i], fn, false);
    HoldingUpdate(s.threadsT, i, t.threadsT[i], fn, true);
  }

  lemma SpawnBalances(s: Pool, fn: Funcao)
    requires Balanced(s, fn) && s.dispatcher.HoldThreads? && s.filaThreads == [] && s.quantThreads < |s.threadsT|
    requires s.threadsT[s.quantThreads].slot == EMPTY_SLOT
    ensures Balanced(DispatcherNext(s), fn)
  {
    BalancedKept(s, DispatcherNext(s), s.quantThreads, fn);
  }

  lemma HandOverBalances(s: Pool, fn: Funcao)
    requires Balanced(s, fn) && s.dispatcher.HandOver? && DispatcherEnabled(s)
    requires s.dispatcher.fn.f != NULL && Parked(s.threadsT[s.dispatcher.t])
    ensures Balanced(DispatcherNext(s), fn)
  {
    var t := DispatcherNext(s);
    assert multiset(t.handedOver) == multiset(s.handedOver) + multiset{s.dispatcher.fn};
    BalancedKept(s, t, s.dispatcher.t, fn);
  }

  lemma DispatcherBalances(s: Pool)
    requires Conserved(s) && FreeListOk(s) && WorkersOk(s) && DispatcherEnabled(s)
    requires Spawned(s.threadsT, s.quantThreads)
    ensures forall fn: Funcao :: Balanced(DispatcherNext(s), fn)
  {
    var t := DispatcherNext(s);
    if s.dispatcher.HandOver? {
      assert s.dispatcher.fn == s.scheduled[|s.handedOver|];
      forall fn: Funcao ensures Balanced(t, fn) {
        assert Balanced(s, fn);
        HandOverBalances(s, fn);
      }
    } else if s.dispatcher.HoldThreads? && s.filaThreads == [] && s.quantThreads < |s.threadsT| {
      forall fn: Funcao ensures Balanced(t, fn) {
        assert Balanced(s, fn);
        SpawnBalances(s, fn);
      }
    } else {
      assert t.threadsT == s.threadsT && t.handedOver == s.handedOver;
      forall fn: Funcao ensures Balanced(t, fn) {
        assert Balanced(s, fn);
      }
    }
  }

  lemma DispatcherConserves(s: Pool)
    requires Conserved(s) && FreeListOk(s) && WorkersOk(s) && DispatcherEnabled(s)
    requires Spawned(s.threadsT, s.quantThreads)
    ensures Conserved(DispatcherNext(s))
  {
    DispatcherBalances(s);
    var t := DispatcherNext(s);
    assert t.handedOver + Hand(t.dispatcher) + t.filaFuncoes == s.scheduled;
  }

  lemma WorkerConserves(s: Pool, i: nat)
    requires Conserved(s) && WorkersOk(s) && i < |s.threadsT| && WorkerEnabled(s, i)
    ensures Conserved(WorkerNext(s, i))
  {
    var t := WorkerNext(s, i);
    forall fn: Funcao ensures Balanced(t, fn) {
      assert Balanced(s, fn);
      BalancedKept(s, t, i, fn);
    }
  }

  lemma CallerConserves(s: Pool)
    requires Conserved(s) && CallerEnabled(s)
    ensures Conserved(CallerNext(s))
  {
    var t := CallerNext(s);
    if s.caller.SignalWorker? && t.caller.JoinWorker? {
      forall fn: Funcao ensures Balanced(t, fn) {
        assert Balanced(s, fn);
        BalancedKept(s, t, s.caller.i, fn);
      }
    } else {
      forall fn: Funcao ensures Balanced(t, fn) {
        assert Balanced(s, fn);
      }
    }
  }

  lemma EnvironmentConserves(s: Pool, step: Step)
    requires Conserved(s) && Enabled(s, step) && !OwnStep(step)
    ensures Conserved(Next(s, step))
  {
    var t := Next(s, step);
    forall fn: Funcao ensures Balanced(t, fn) {
      assert Balanced(s, fn);
      if step.WakeWorker? {
        BalancedKept(s, t, step.i, fn);
      }
    }
  }

  lemma DispatcherSpawnsTogether(s: Pool)
    requires SpawnedTogether(s) && FreeListOk(s) && DispatcherEnabled(s)
    ensures SpawnedTogether(DispatcherNext(s))
  {
    if s.dispatcher.HoldThreads? && s.filaThreads != [] {
      assert s.threadsT[s.filaThreads[0]].pc != Announce;
    }
  }

  lemma WorkerSpawnsTogether(s: Pool, i: nat)
    requires SpawnedTogether(s) && i < |s.threadsT| && WorkerEnabled(s, i)
    ensures SpawnedTogether(WorkerNext(s, i))
  {
  }

  lemma OtherSpawnsTogether(s: Pool, step: Step)
    requires SpawnedTogether(s) && Enabled(s, step) && !step.DispatcherStep? && !step.WorkerStep?
    ensures SpawnedTogether(Next(s, step))
  {
  }

  lemma DispatcherKeepsFreeList(s: Pool)
    requires FreeListOk(s) && Spawned(s.threadsT, s.quantThreads) && WorkersOk(s) && !s.flagExitTrabalhar
    requires Hand(s.dispatcher) != [] ==> Hand(s.dispatcher)[0].f != NULL
    requires DispatcherEnabled(s)
    ensures FreeListOk(DispatcherNext(s))
  {
    var t := DispatcherNext(s);
    match s.dispatcher
    case HoldThreads(fn) =>
      if s.filaThreads != [] {
        FreeListPop(s.filaThreads, s.threadsT);
      } else if s.quantThreads < |s.threadsT| {
        FreeListUpdate([], s.threadsT, -1, s.quantThreads, t.threadsT[s.quantThreads]);
      }
    case HandOver(fn, i) =>
      FreeListFill(s.filaThreads, s.threadsT, i, t.threadsT[i]);
    case _ =>
  }

  lemma WorkerKeepsFreeList(s: Pool, i: nat)
    requires FreeListOk(s) && WorkersOk(s) && (s.flagExitTrabalhar ==> s.dispatcher.DispatcherEnded?)
    requires i < |s.threadsT| && WorkerEnabled(s, i)
    ensures FreeListOk(WorkerNext(s, i))
  {
    var w := WorkerNext(s, i).threadsT[i];
    var chosen := if s.dispatcher.HandOver? then s.dispatcher.t else -1;
    if s.threadsT[i].pc == Announce {
      FreeListPush(s.filaThreads, s.threadsT, chosen, i, w);
    } else {
      FreeListUpdate(s.filaThreads, s.threadsT, chosen, i, w);
    }
  }

  lemma CallerKeepsFreeList(s: Pool)
    requires FreeListOk(s) && CallerEnabled(s)
    ensures FreeListOk(CallerNext(s))
  {
    var chosen := if s.dispatcher.HandOver? then s.dispatcher.t else -1;
    if s.caller.SignalWorker? && s.caller.i < |s.threadsT| {
      var w := s.threadsT[s.caller.i];
      if w.pc == WaitSlot {
        FreeListUpdate(s.filaThreads, s.threadsT, chosen, s.caller.i, SignalContinue(w));
      } else {
        assert s.threadsT[s.caller.i := w] == s.threadsT;
      }
    }
  }

  lemma EnvironmentKeepsFreeList(s: Pool, step: Step)
    requires FreeListOk(s) && Enabled(s, step) && !OwnStep(step)
    ensures FreeListOk(Next(s, step))
  {
    if step.WakeWorker? {
      var chosen := if s.dispatcher.HandOver? then s.dispatcher.t else -1;
      FreeListUpdate(s.filaThreads, s.threadsT, chosen, step.i, SignalContinue(s.threadsT[step.i]));
    }
  }

  lemma DispatcherKeepsWorkers(s: Pool)
    requires FreeListOk(s) && WorkersOk(s) && Conserved(s) && DispatcherEnabled(s)
    ensures WorkersOk(DispatcherNext(s))
  {
    if s.dispatcher.HandOver? {
      assert s.dispatcher.fn == s.scheduled[|s.handedOver|];
    }
  }

  lemma OtherKeepsWorkers(s: Pool, step: Step)
    requires WorkersOk(s) && Enabled(s, step) && !step.DispatcherStep?
    ensures WorkersOk(Next(s, step))
  {
  }

  lemma ShutdownKept(s: Pool, step: Step)
    requires ShutdownOk(s) && Conserved(s) && Enabled(s, step)
    ensures ShutdownOk(Next(s, step))
  {
  }

  lemma JoinsKept(s: Pool, step: Step)
    requires JoinsOk(s) && SpawnedTogether(s) && FreeListOk(s) && ShutdownOk(s) && Enabled(s, step)
    ensures JoinsOk(Next(s, step))
  {
  }

  lemma StepKeepsInv(s: Pool, step: Step)
    requires Inv(s) && Enabled(s, step)
    ensures Inv(Next(s, step))
  {
    ShutdownKept(s, step);
    JoinsKept(s, step);
    match step
    case DispatcherStep =>
      DispatcherConserves(s);
      DispatcherSpawnsTogether(s);
      if Hand(s.dispatcher) != [] {
        assert Hand(s.dispatcher)[0] == s.scheduled[|s.handedOver|];
      }
      DispatcherKeepsFreeList(s);
      DispatcherKeepsWorkers(s);
    case WorkerStep(i) =>
      WorkerConserves(s, i);
      WorkerSpawnsTogether(s, i);
      WorkerKeepsFreeList(s, i);
      OtherKeepsWorkers(s, step);
    case CallerStep =>
      CallerConserves(s);
      OtherSpawnsTogether(s, step);
      CallerKeepsFreeList(s);
      OtherKeepsWorkers(s, step);
    case _ =>
      EnvironmentConserves(s, step);
      OtherSpawnsTogether(s, step);
      EnvironmentKeepsFreeList(s, step);
      OtherKeepsWorkers(s, step);
  }

  lemma {:induction false} RunKeepsInv(s: Pool, steps: seq<Step>, t: Pool)
    requires Inv(s) && Leads(s, steps, t)
    ensures Inv(t)
    decreases |steps|
  {
    if steps != [] {
      StepKeepsInv(s, steps[0]);
      RunKeepsInv(Next(s, steps[0]), steps[1..], t);
    }
  }
}
