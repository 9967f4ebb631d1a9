/**
 What a trigger achieves, in every run of the state machine: who leaves Trigger leaves a worker, and a worker calls the
 callback before it gives running_ back and calls it again as often as it is asked to
 (src/core/StateMachine.cpp:30-45, 71-92).
 */
module StateMachineCalls {
  import opened StateMachineModel
  import opened StateMachineRuns
  import opened Runs

  predicate LeavingTrigger(s: State) {
    s.holder == Client(ClientRelease(Trigger))
  }

  ghost predicate TriggerKept(s: State) {
    Invariant(s) && (LeavingTrigger(s) ==> s.shutdown || s.running)
  }

  lemma ClientKeepsTrigger(s: State)
    requires Invariant(s) && Enabled(s, ClientStep) && LeavingTrigger(ClientNext(s))
    ensures ClientNext(s).shutdown || ClientNext(s).running
  {
  }

  lemma WorkerKeepsTrigger(s: State, w: nat, result: bool)
    requires TriggerKept(s) && Enabled(s, WorkerStep(w, result)) && LeavingTrigger(WorkerNext(s, w, result))
    ensures WorkerNext(s, w, result).shutdown || WorkerNext(s, w, result).running
  {
    assert w == |s.workers| - 1;
  }

  lemma NextKeepsTrigger(s: State, a: Action)
    requires TriggerKept(s) && Enabled(s, a)
    ensures TriggerKept(Next(s, a))
  {
    NextKeeps(s, a);
    if LeavingTrigger(Next(s, a)) {
      match a
      case ClientStep => ClientKeepsTrigger(s);
      case WorkerStep(w, result) => WorkerKeepsTrigger(s, w, result);
      case _ =>
    }
  }

  /** Whoever returns from Trigger leaves a worker that still has running_, unless the machine is shutting down. */
  lemma TriggerLeavesWorker(run: seq<State>, k: nat)
    requires IsRun(run) && k < |run| && run[k].holder == Client(ClientRelease(Trigger))
    ensures run[k].shutdown || (run[k].running && Working(run[k]) && run[k].joinable)
  {
    InitialInvariant(run[0]);
    forall s, t | TriggerKept(s) && Step(s, t)
      ensures TriggerKept(t)
    {
      var a :| Enabled(s, a) && t == Next(s, a);
      NextKeepsTrigger(s, a);
    }
    KeptAlong(run, (s, t) => Step(s, t), s => TriggerKept(s), 0, k);
  }

  /** The worker is in the loop of execute(). */
  predicate InLoop(pc: WorkerPc) {
    pc in {Before, InCallback, Returned(false), Returned(true)}
  }

  /** How a thread goes through the loop, one step at a time, or not at all. */
  predicate Moves(from: WorkerPc, to: WorkerPc, shutdown: bool) {
    || to == from
    || (from == Before && to == InCallback)
    || (from == InCallback && to.Returned?)
    || (from == Returned(true) && !shutdown && to == Before)
    || (from == Returned(true) && shutdown && to == Finishing)
    || (from == Returned(false) && to == Finishing)
    || (!InLoop(from) && !InLoop(to))
  }

  lemma TriggerLeavesWorkers(s: State)
    requires s.waits != [] && ClientEnabled(s)
    requires s.holder.pc in {TriggerLoad, TriggerExchange, TriggerJoin, TriggerReset, TriggerFuture}
    ensures ClientNext(s).workers == s.workers && (s.shutdown ==> ClientNext(s).shutdown)
  {
  }

  lemma StopLeavesWorkers(s: State)
    requires s.waits != [] && ClientEnabled(s) && s.holder.pc in {StopLoad, StopStore, StopCheck, StopSet, StopClean}
    ensures ClientNext(s).workers == s.workers && (s.shutdown ==> ClientNext(s).shutdown)
  {
  }

  lemma WaitLeavesWorkers(s: State)
    requires s.waits != [] && ClientEnabled(s) && s.holder.pc in {WaitLoad, WaitReset, WaitFuture, WaitSet}
    ensures ClientNext(s).workers == s.workers && (s.shutdown ==> ClientNext(s).shutdown)
  {
  }

  lemma ClientKeepsWorkers(s: State)
    requires s.waits != [] && ClientEnabled(s)
    ensures s.workers <= ClientNext(s).workers && (s.shutdown ==> ClientNext(s).shutdown)
  {
    match s.holder.pc
    case TriggerSpawn =>
    case StopLoad | StopStore | StopCheck | StopSet | StopClean => StopLeavesWorkers(s);
    case WaitLoad | WaitReset | WaitFuture | WaitSet => WaitLeavesWorkers(s);
    case ClientRelease(_) =>
    case _ => TriggerLeavesWorkers(s);
  }

  lemma LoopMoves(s: State, w: nat, result: bool)
    requires s.waits != [] && WorkerEnabled(s, w) && InLoop(s.workers[w])
    ensures w < |WorkerNext(s, w, result).workers|
    ensures Moves(s.workers[w], WorkerNext(s, w, result).workers[w], s.shutdown)
  {
  }

  lemma EndMoves(s: State, w: nat, result: bool)
    requires s.waits != [] && WorkerEnabled(s, w) && s.workers[w] in {Finishing, StoreIdle, SetWait, CheckStop}
    ensures w < |WorkerNext(s, w, result).workers| && !InLoop(WorkerNext(s, w, result).workers[w])
  {
  }

  lemma LastMoves(s: State, w: nat, result: bool)
    requires s.waits != [] && WorkerEnabled(s, w)
    requires s.workers[w] in {SetStop, StoreClean, ReleaseLock, Leaving}
    ensures w < |WorkerNext(s, w, result).workers| && !InLoop(WorkerNext(s, w, result).workers[w])
  {
  }

  lemma WorkerMoves(s: State, w: nat, result: bool)
    requires s.waits != [] && WorkerEnabled(s, w)
    ensures w < |WorkerNext(s, w, result).workers|
    ensures Moves(s.workers[w], WorkerNext(s, w, result).workers[w], s.shutdown)
  {
    match s.workers[w]
    case Finishing | StoreIdle | SetWait | CheckStop => EndMoves(s, w, result);
    case SetStop | StoreClean | ReleaseLock | Leaving => LastMoves(s, w, result);
    case _ => LoopMoves(s, w, result);
  }

  /** The other workers are where they were. */
  predicate OnlyOneMoves(s: State, t: State, v: nat) {
    |t.workers| == |s.workers| && t.shutdown == s.shutdown
    && forall w :: 0 <= w < |s.workers| && w != v ==> t.workers[w] == s.workers[w]
  }

  lemma LoopKeepsOthers(s: State, v: nat, result: bool)
    requires s.waits != [] && WorkerEnabled(s, v) && InLoop(s.workers[v])
    ensures OnlyOneMoves(s, WorkerNext(s, v, result), v)
  {
  }

  lemma EndKeepsOthers(s: State, v: nat, result: bool)
    requires s.waits != [] && WorkerEnabled(s, v) && s.workers[v] in {Finishing, StoreIdle, SetWait, CheckStop}
    ensures OnlyOneMoves(s, WorkerNext(s, v, result), v)
  {
  }

  lemma LastKeepsOthers(s: State, v: nat, result: bool)
    requires s.waits != [] && WorkerEnabled(s, v)
    requires s.workers[v] in {SetStop, StoreClean, ReleaseLock, Leaving}
    ensures OnlyOneMoves(s, WorkerNext(s, v, result), v)
  {
  }

  lemma WorkerKeepsOthers(s: State, v: nat, result: bool)
    requires s.waits != [] && WorkerEnabled(s, v)
    ensures OnlyOneMoves(s, WorkerNext(s, v, result), v)
  {
    match s.workers[v]
    case Finishing | StoreIdle | SetWait | CheckStop => EndKeepsOthers(s, v, result);
    case SetStop | StoreClean | ReleaseLock | Leaving => LastKeepsOthers(s, v, result);
    case _ => LoopKeepsOthers(s, v, result);
  }

  lemma StepMoves(s: State, t: State, w: nat)
    requires Step(s, t) && w < |s.workers|
    ensures w < |t.workers| && Moves(s.workers[w], t.workers[w], s.shutdown)
  {
    var a :| Enabled(s, a) && t == Next(s, a);
    match a
    case ClientStep => ClientKeepsWorkers(s);
    case WorkerStep(v, result) =>
      WorkerKeepsOthers(s, v, result);
      if v == w {
        WorkerMoves(s, w, result);
      }
    case _ =>
  }

  lemma ShutdownStep(s: State, t: State)
    requires Step(s, t) && s.shutdown
    ensures t.shutdown
  {
    var a :| Enabled(s, a) && t == Next(s, a);
    match a
    case ClientStep => ClientKeepsWorkers(s);
    case WorkerStep(v, result) => WorkerKeepsOthers(s, v, result);
    case _ =>
  }

  /** A worker does not get past the call of the callback without calling it. */
  lemma {:induction false} StartedIsCalled(run: seq<State>, k: nat, m: nat, w: nat) returns (j: nat)
    requires IsRun(run) && k < m < |run| && w < |run[k].workers| && run[k].workers[w] == Before
    requires w < |run[m].workers| && run[m].workers[w] != Before
    ensures k < j <= m && w < |run[j].workers| && run[j].workers[w] == InCallback
    decreases m - k
  {
    StepMoves(run[k], run[k + 1], w);
    if run[k + 1].workers[w] == Before {
      j := StartedIsCalled(run, k + 1, m, w);
    } else {
      j := k + 1;
    }
  }

  lemma ShutdownStays(run: seq<State>, k: nat, m: nat)
    requires IsRun(run) && k <= m < |run| && run[k].shutdown
    ensures run[m].shutdown
  {
    forall s: State, t: State | s.shutdown && Step(s, t)
      ensures t.shutdown
    {
      ShutdownStep(s, t);
    }
    KeptAlong(run, (s, t) => Step(s, t), (s: State) => s.shutdown, k, m);
  }

  /** If the callback asks to be called again, it is, unless the machine is shutting down. */
  lemma {:induction false} AskedIsCalledAgain(run: seq<State>, k: nat, m: nat, w: nat) returns (j: nat)
    requires IsRun(run) && k < m < |run| && w < |run[k].workers| && run[k].workers[w] == Returned(true)
    requires w < |run[m].workers| && run[m].workers[w] !in {Returned(true), Before} && !run[m].shutdown
    ensures k < j <= m && w < |run[j].workers| && run[j].workers[w] == InCallback
    decreases m - k
  {
    StepMoves(run[k], run[k + 1], w);
    if run[k].shutdown {
      ShutdownStays(run, k, m);
    }
    if run[k + 1].workers[w] == Returned(true) {
      j := AskedIsCalledAgain(run, k + 1, m, w);
    } else {
      j := StartedIsCalled(run, k + 1, m, w);
    }
  }

  /** Once the callback has returned false, this worker never calls it again. */
  lemma {:induction false} RefusalIsFinal(run: seq<State>, k: nat, m: nat, w: nat)
    requires IsRun(run) && k <= m < |run| && w < |run[k].workers|
    requires run[k].workers[w] == Returned(false) || !InLoop(run[k].workers[w])
    ensures w < |run[m].workers| && (run[m].workers[w] == Returned(false) || !InLoop(run[m].workers[w]))
    decreases m - k
  {
    if k < m {
      StepMoves(run[k], run[k + 1], w);
      RefusalIsFinal(run, k + 1, m, w);
    }
  }
}
