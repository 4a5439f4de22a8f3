/**
 The thread pool's code. Each method is one critical section of a thread, or one access outside every
 critical section, and is proved to take the matching step of the protocol. The fields `dispatcher`,
 `caller` and the counters in `threadsT` say where each thread is; the ghost fields record what happened.
*/
module ThreadPoolCode {
  import opened ThreadPoolProtocol

  class ThreadPool {
    var filaFuncoes: seq<Funcao>
    var filaThreads: seq<nat>
    const threadsT: array<Worker>
    var quantThreads: nat
    var flagExitDispatcher: bool
    var flagExitTrabalhar: bool
    var dispatcher: DispatcherPc
    var caller: CallerPc

    ghost var scheduled: seq<Funcao>
    ghost var handedOver: seq<Funcao>
    ghost var started: seq<Funcao>
    ghost var finished: seq<Funcao>
    ghost var scheduledBeforeWait: nat

    ghost function State(): Pool
      reads this, threadsT
    {
      Pool(filaFuncoes, filaThreads, threadsT[..], quantThreads, flagExitDispatcher, flagExitTrabalhar,
           dispatcher, caller, scheduled, handedOver, started, finished, scheduledBeforeWait)
    }

    constructor (numThreads: nat)
      ensures fresh(threadsT)
      ensures State() == Initial(numThreads)
    {
      threadsT := new Worker[numThreads](_ => Worker(NotStarted, EMPTY_SLOT));
      filaFuncoes, filaThreads, quantThreads := [], [], 0;
      flagExitDispatcher, flagExitTrabalhar := false, false;
      dispatcher, caller := TakeFunction, BeforeWait;
      scheduled, handedOver, started, finished, scheduledBeforeWait := [], [], [], [], 0;
    }

    method Schedule(fn: Funcao)
      requires fn.f != NULL
      modifies this
      ensures State() == Next(old(State()), Step.Schedule(fn))
    {
      filaFuncoes := filaFuncoes + [fn];
      if dispatcher.WaitFunction? {
        dispatcher := TakeFunction;
      }
      scheduled := scheduled + [fn];
    }

    /** The dispatcher under mutexFilaFuncoes. */
    method DispatcherTakesFunction()
      requires dispatcher.TakeFunction?
      modifies this
      ensures State() == DispatcherNext(old(State()))
    {
      if !flagExitDispatcher && filaFuncoes == [] {
        dispatcher := WaitFunction;
      } else if flagExitDispatcher && filaFuncoes == [] {
        dispatcher := RaiseExitFlag;
      } else {
        dispatcher := LockThreads(filaFuncoes[0]);
        filaFuncoes := filaFuncoes[1..];
      }
    }

    method DispatcherRaisesExitFlag()
      requires dispatcher.RaiseExitFlag?
      modifies this
      ensures State() == DispatcherNext(old(State()))
    {
      flagExitTrabalhar := true;
      dispatcher := DispatcherEnded;
    }

    /** One turn of the dispatcher's loop over filaThreads, under mutexFilaThreads. */
    method DispatcherLooksForThread()
      requires dispatcher.HoldThreads?
      modifies this, threadsT
      ensures State() == DispatcherNext(old(State()))
    {
      if filaThreads == [] {
        if quantThreads < threadsT.Length {
          NovaThreadTrabalhar(quantThreads);
          quantThreads := quantThreads + 1;
        } else {
          dispatcher := WaitThread(dispatcher.fn);
        }
      } else {
        dispatcher := HandOver(dispatcher.fn, filaThreads[0]);
        filaThreads := filaThreads[1..];
      }
    }

    method NovaThreadTrabalhar(i: nat)
      requires i < threadsT.Length
      modifies threadsT
      ensures threadsT[..] == old(threadsT[..])[i := Worker(Announce, EMPTY_SLOT)]
    {
      threadsT[i] := Worker(Announce, Funcao(NULL, 0));
    }

    /** The dispatcher under the mutex of the worker it has chosen. */
    method DispatcherHandsOver()
      requires dispatcher.HandOver? && dispatcher.t < threadsT.Length
      modifies this, threadsT
      ensures State() == DispatcherNext(old(State()))
    {
      var t, fn := dispatcher.t, dispatcher.fn;
      threadsT[t] := threadsT[t].(slot := fn);
      SignalContinuar(t);
      handedOver := handedOver + [fn];
      dispatcher := TakeFunction;
    }

    method SignalContinuar(i: nat)
      requires i < threadsT.Length
      modifies threadsT
      ensures threadsT[..] == old(threadsT[..])[i := SignalContinue(old(threadsT[i]))]
    {
      if threadsT[i].pc == WaitSlot {
        threadsT[i] := threadsT[i].(pc := TestSlot);
      }
    }

    method DispatcherMoves()
      requires DispatcherEnabled(State())
      modifies this, threadsT
      ensures State() == Next(old(State()), DispatcherStep)
    {
      match dispatcher {
        case TakeFunction => DispatcherTakesFunction();
        case RaiseExitFlag => DispatcherRaisesExitFlag();
        case LockThreads(fn) => dispatcher := HoldThreads(fn);
        case HoldThreads(fn) => DispatcherLooksForThread();
        case HandOver(fn, t) => DispatcherHandsOver();
      }
    }

    /** A worker under mutexFilaThreads. */
    method WorkerAnnounces(i: nat)
      requires i < threadsT.Length && threadsT[i].pc == Announce && !dispatcher.HoldThreads?
      modifies this, threadsT
      ensures State() == WorkerNext(old(State()), i)
    {
      filaThreads := filaThreads + [i];
      if dispatcher.WaitThread? {
        dispatcher := LockThreads(dispatcher.fn);
      }
      threadsT[i] := threadsT[i].(pc := TestSlot);
    }

    /** A worker under its own mutex. */
    method WorkerTestsSlot(i: nat)
      requires i < threadsT.Length && threadsT[i].pc == TestSlot
      modifies this, threadsT
      ensures State() == WorkerNext(old(State()), i)
    {
      if !flagExitTrabalhar && threadsT[i].slot.f == NULL {
        threadsT[i] := threadsT[i].(pc := WaitSlot);
      } else if flagExitTrabalhar && threadsT[i].slot.f == NULL {
        threadsT[i] := threadsT[i].(pc := WorkerEnded);
      } else {
        threadsT[i] := threadsT[i].(pc := CallFunction);
      }
    }

    method WorkerMoves(i: nat)
      requires i < threadsT.Length && WorkerEnabled(State(), i)
      modifies this, threadsT
      ensures State() == Next(old(State()), WorkerStep(i))
    {
      match threadsT[i].pc {
        case Announce => WorkerAnnounces(i);
        case TestSlot => WorkerTestsSlot(i);
        case CallFunction =>
          started := started + [threadsT[i].slot];
          threadsT[i] := threadsT[i].(pc := Executing);
        case Executing =>
          finished := finished + [threadsT[i].slot];
          threadsT[i] := threadsT[i].(pc := ClearFunction);
        case ClearFunction =>
          threadsT[i] := Worker(ClearParam, threadsT[i].slot.(f := NULL));
        case ClearParam =>
          threadsT[i] := Worker(Announce, threadsT[i].slot.(param := 0));
      }
    }

    /** The thread that calls wait: its critical sections and its joins, in turn. */
    method CallerMoves()
      requires CallerEnabled(State())
      modifies this, threadsT
      ensures State() == Next(old(State()), CallerStep)
    {
      match caller {
        case BeforeWait =>
          flagExitDispatcher := true;
          if dispatcher.WaitFunction? {
            dispatcher := TakeFunction;
          }
          scheduledBeforeWait := |scheduled|;
          caller := JoinDispatcher;
        case JoinDispatcher =>
          caller := SignalWorker(0);
        case SignalWorker(i) =>
          if i < threadsT.Length {
            if threadsT[i].pc == NotStarted {
              caller := UninitializedMutex;
            } else {
              SignalContinuar(i);
              caller := JoinWorker(i);
            }
          } else {
            caller := WaitReturned;
          }
        case JoinWorker(i) =>
          caller := SignalWorker(i + 1);
      }
    }

    /** Any interleaving of the threads, of calls of schedule and of spurious wake-ups is a run of the protocol. */
    method Execute(steps: seq<Step>)
      requires Possible(State(), steps)
      modifies this, threadsT
      ensures Leads(old(State()), steps, State())
    {
      for k := 0 to |steps|
        invariant Possible(State(), steps[k..])
        invariant Leads(old(State()), steps[..k], State())
      {
        ghost var s := State();
        match steps[k] {
          case Schedule(fn) => Schedule(fn);
          case WakeDispatcher =>
            dispatcher := if dispatcher.WaitThread? then LockThreads(dispatcher.fn) else TakeFunction;
          case WakeWorker(i) => SignalContinuar(i);
          case DispatcherStep => DispatcherMoves();
          case WorkerStep(i) => WorkerMoves(i);
          case CallerStep => CallerMoves();
        }
        LeadsOneMore(old(State()), steps[..k], s, steps[k], State());
        assert steps[..k] + [steps[k]] == steps[..k + 1];
        assert steps[k..][1..] == steps[k + 1..];
      }
      assert steps[..|steps|] == steps;
    }
  }

  /** Each of the steps, in turn, is enabled. */
  ghost predicate Possible(s: Pool, steps: seq<Step>)
    decreases |steps|
  {
    steps == [] || (Enabled(s, steps[0]) && Possible(Next(s, steps[0]), steps[1..]))
  }

  lemma {:induction false} LeadsOneMore(s: Pool, steps: seq<Step>, u: Pool, step: Step, t: Pool)
    requires Leads(s, steps, u) && Enabled(u, step) && t == Next(u, step)
    ensures Leads(s, steps + [step], t)
    decreases |steps|
  {
    if steps != [] {
      LeadsOneMore(Next(s, steps[0]), steps[1..], u, step, t);
      assert (steps + [step])[1..] == steps[1..] + [step];
    } else {
      assert (steps + [step])[1..] == [];
    }
  }
}
