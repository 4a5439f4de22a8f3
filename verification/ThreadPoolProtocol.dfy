/**
 The thread pool's protocol (5/thread-pool.cc, 5/thread-pool.h) as a state machine.

 A step is one critical section, or one access made outside every critical section. A mutex is
 free between steps, except `mutexFilaThreads`, which the dispatcher keeps while it creates workers:
 it is held exactly when the dispatcher's program counter is `HoldThreads`. A thread blocked in
 `pthread_cond_wait` sits at a `Wait...` counter; a signal moves it to the counter from which it takes
 the mutex again and re-evaluates its loop condition.

 `Schedule` may happen at any time, from any thread, and a blocked thread may wake up without a signal:
 these are the environment's steps. All others are the pool's own.
*/
module ThreadPoolProtocol {

  /** A function pointer and its argument; the pointer 0 is NULL. */
  datatype Funcao = Funcao(f: int, param: int)

  const NULL := 0
  const EMPTY_SLOT := Funcao(NULL, 0)

  datatype DispatcherPc =
    | TakeFunction                    // about to lock mutexFilaFuncoes and look at the queue
    | WaitFunction                    // blocked on condNovaFuncaoNaFila
    | RaiseExitFlag                   // left the queue for good, about to set flagExitTrabalhar
    | LockThreads(fn: Funcao)         // about to lock mutexFilaThreads
    | HoldThreads(fn: Funcao)         // owns mutexFilaThreads, at the head of the loop over filaThreads
    | WaitThread(fn: Funcao)          // blocked on condNovaThreadNaFila
    | HandOver(fn: Funcao, t: nat)    // about to fill the slot of worker t under that worker's mutex
    | DispatcherEnded

  datatype WorkerPc =
    | NotStarted
    | Announce         // about to push itself on filaThreads
    | TestSlot         // about to lock its own mutex and look at its slot and at the exit flag
    | WaitSlot         // blocked on condContinuar
    | CallFunction     // has unlocked its mutex, about to call through its slot
    | Executing        // inside the function
    | ClearFunction    // the function has returned, about to write NULL to funcaoTrabalhar.f
    | ClearParam       // about to write NULL to funcaoTrabalhar.param
    | WorkerEnded

  datatype Worker = Worker(pc: WorkerPc, slot: Funcao)

  /** The thread that calls `wait`. */
  datatype CallerPc =
    | BeforeWait
    | JoinDispatcher
    | SignalWorker(i: nat)    // about to lock, signal and unlock threadsT[i]
    | JoinWorker(i: nat)      // blocked in pthread_join on threadsT[i]
    | WaitReturned
    | UninitializedMutex      // has locked the mutex of a worker that was never initialised

  datatype Pool = Pool(
    filaFuncoes: seq<Funcao>,
    filaThreads: seq<nat>,
    threadsT: seq<Worker>,
    quantThreads: nat,
    flagExitDispatcher: bool,
    flagExitTrabalhar: bool,
    dispatcher: DispatcherPc,
    caller: CallerPc,
    // What has happened so far.
    scheduled: seq<Funcao>,       // arguments of schedule, in order
    handedOver: seq<Funcao>,        // functions written to a slot, in order
    started: seq<Funcao>,         // functions called, in order
    finished: seq<Funcao>,        // functions that have returned, in order
    scheduledBeforeWait: nat      // how many functions had been scheduled when wait set its flag
  )

  function Initial(numThreads: nat): Pool
  {
    Pool([], [], seq(numThreads, _ => Worker(NotStarted, EMPTY_SLOT)), 0, false, false, TakeFunction, BeforeWait,
         [], [], [], [], 0)
  }

  /** The function the dispatcher has popped and not yet handed over. */
  function Hand(d: DispatcherPc): seq<Funcao>
  {
    match d
    case LockThreads(fn) => [fn]
    case HoldThreads(fn) => [fn]
    case WaitThread(fn) => [fn]
    case HandOver(fn, _) => [fn]
    case _ => []
  }

  // ----- steps

  datatype Step =
    | Schedule(fn: Funcao)
    | WakeDispatcher
    | WakeWorker(i: nat)
    | DispatcherStep
    | WorkerStep(i: nat)
    | CallerStep

  predicate OwnStep(step: Step)
  {
    step.DispatcherStep? || step.WorkerStep? || step.CallerStep?
  }

  predicate Enabled(s: Pool, step: Step)
  {
    match step
    case Schedule(fn) => fn.f != NULL
    case WakeDispatcher => s.dispatcher.WaitFunction? || s.dispatcher.WaitThread?
    case WakeWorker(i) => i < |s.threadsT| && s.threadsT[i].pc == WaitSlot
    case DispatcherStep => DispatcherEnabled(s)
    case WorkerStep(i) => i < |s.threadsT| && WorkerEnabled(s, i)
    case CallerStep => CallerEnabled(s)
  }

  predicate DispatcherEnabled(s: Pool)
  {
    match s.dispatcher
    case WaitFunction => false
    case WaitThread(_) => false
    case DispatcherEnded => false
    case HandOver(_, t) => t < |s.threadsT|
    case _ => true
  }

  predicate WorkerEnabled(s: Pool, i: nat)
    requires i < |s.threadsT|
  {
    match s.threadsT[i].pc
    case NotStarted => false
    case WaitSlot => false
    case WorkerEnded => false
    case Announce => !s.dispatcher.HoldThreads?    // mutexFilaThreads must be free
    case _ => true
  }

  predicate CallerEnabled(s: Pool)
  {
    match s.caller
    case JoinDispatcher => s.dispatcher.DispatcherEnded?
    case JoinWorker(i) => i < |s.threadsT| && s.threadsT[i].pc == WorkerEnded
    case WaitReturned => false
    case UninitializedMutex => false
    case _ => true
  }

  function Next(s: Pool, step: Step): Pool
    requires Enabled(s, step)
  {
    match step
    case Schedule(fn) =>
      s.(filaFuncoes := s.filaFuncoes + [fn], dispatcher := SignalNewFunction(s.dispatcher),
         scheduled := s.scheduled + [fn])
    case WakeDispatcher => s.(dispatcher := SignalNewThread(SignalNewFunction(s.dispatcher)))
    case WakeWorker(i) => s.(threadsT := s.threadsT[i := SignalContinue(s.threadsT[i])])
    case DispatcherStep => DispatcherNext(s)
    case WorkerStep(i) => WorkerNext(s, i)
    case CallerStep => CallerNext(s)
  }

  /** pthread_cond_signal on condNovaFuncaoNaFila, on which only the dispatcher waits. */
  function SignalNewFunction(d: DispatcherPc): DispatcherPc
  {
    if d.WaitFunction? then TakeFunction else d
  }

  /** pthread_cond_signal on condNovaThreadNaFila, on which only the dispatcher waits. */
  function SignalNewThread(d: DispatcherPc): DispatcherPc
  {
    if d.WaitThread? then LockThreads(d.fn) else d
  }

  /** pthread_cond_signal on a worker's condContinuar, on which only that worker waits. */
  function SignalContinue(w: Worker): Worker
  {
    if w.pc == WaitSlot then w.(pc := TestSlot) else w
  }

  function DispatcherNext(s: Pool): Pool
    requires DispatcherEnabled(s)
  {
    match s.dispatcher
    case TakeFunction =>
      if s.filaFuncoes != [] then
        s.(dispatcher := LockThreads(s.filaFuncoes[0]), filaFuncoes := s.filaFuncoes[1..])
      else if s.flagExitDispatcher then
        s.(dispatcher := RaiseExitFlag)
      else
        s.(dispatcher := WaitFunction)
    case RaiseExitFlag =>
      s.(dispatcher := DispatcherEnded, flagExitTrabalhar := true)
    case LockThreads(fn) =>
      s.(dispatcher := HoldThreads(fn))
    case HoldThreads(fn) =>
      if s.filaThreads != [] then
        s.(dispatcher := HandOver(fn, s.filaThreads[0]), filaThreads := s.filaThreads[1..])
      else if s.quantThreads < |s.threadsT| then
        s.(threadsT := s.threadsT[s.quantThreads := Worker(Announce, EMPTY_SLOT)], quantThreads := s.quantThreads + 1)
      else
        s.(dispatcher := WaitThread(fn))
    case HandOver(fn, t) =>
      s.(dispatcher := TakeFunction, handedOver := s.handedOver + [fn],
         threadsT := s.threadsT[t := SignalContinue(s.threadsT[t].(slot := fn))])
  }

  function WorkerNext(s: Pool, i: nat): Pool
    requires i < |s.threadsT| && WorkerEnabled(s, i)
  {
    var w := s.threadsT[i];
    match w.pc
    case Announce =>
      s.(filaThreads := s.filaThreads + [i], dispatcher := SignalNewThread(s.dispatcher),
         threadsT := s.threadsT[i := w.(pc := TestSlot)])
    case TestSlot =>
      var pc := if w.slot.f != NULL then CallFunction else if s.flagExitTrabalhar then WorkerEnded else WaitSlot;
      s.(threadsT := s.threadsT[i := w.(pc := pc)])
    case CallFunction =>
      s.(threadsT := s.threadsT[i := w.(pc := Executing)], started := s.started + [w.slot])
    case Executing =>
      s.(threadsT := s.threadsT[i := w.(pc := ClearFunction)], finished := s.finished + [w.slot])
    case ClearFunction =>
      s.(threadsT := s.threadsT[i := w.(pc := ClearParam, slot := w.slot.(f := NULL))])
    case ClearParam =>
      s.(threadsT := s.threadsT[i := w.(pc := Announce, slot := w.slot.(param := 0))])
  }

  function CallerNext(s: Pool): Pool
    requires CallerEnabled(s)
  {
    match s.caller
    case BeforeWait =>
      s.(caller := JoinDispatcher, flagExitDispatcher := true, dispatcher := SignalNewFunction(s.dispatcher),
         scheduledBeforeWait := |s.scheduled|)
    case JoinDispatcher =>
      s.(caller := SignalWorker(0))
    case SignalWorker(i) =>
      if i >= |s.threadsT| then
        s.(caller := WaitReturned)
      else if s.threadsT[i].pc == NotStarted then
        s.(caller := UninitializedMutex)
      else
        s.(caller := JoinWorker(i), threadsT := s.threadsT[i := SignalContinue(s.threadsT[i])])
    case JoinWorker(i) =>
      s.(caller := SignalWorker(i + 1))
  }

  // ----- runs

  /** `steps` is a run that leads from s to t. */
  ghost predicate Leads(s: Pool, steps: seq<Step>, t: Pool)
    decreases |steps|
  {
    if steps == [] then s == t
    else Enabled(s, steps[0]) && Leads(Next(s, steps[0]), steps[1..], t)
  }

  ghost predicate OwnRun(steps: seq<Step>)
  {
    forall k :: 0 <= k < |steps| ==> OwnStep(steps[k])
  }

  /** No thread of the pool can move. */
  ghost predicate Stuck(s: Pool)
  {
    forall step :: OwnStep(step) ==> !Enabled(s, step)
  }
}
