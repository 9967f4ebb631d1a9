/** What holds in every run of the state machine, for every interleaving. */
module StateMachineRuns {
  import opened StateMachineModel
  import opened Runs

  lemma InitialInvariant(s: State)
    requires Initial(s)
    ensures Invariant(s)
  {
  }

  lemma AcquireKeeps(s: State, op: Op)
    requires Invariant(s) && Enabled(s, Acquire(op))
    ensures Invariant(s.SetClient(Entry(op)))
  {
  }

  lemma DestructionKeeps(s: State)
    requires Invariant(s) && Enabled(s, BeginDestruction)
    ensures Invariant(s.(destructor := Check))
  {
  }

  lemma DestructorStopKeeps(s: State)
    requires Invariant(s) && Enabled(s, DestructorStep) && s.destructor == WantStop
    ensures Invariant(s.(destructor := Stopping, holder := Client(StopLoad)))
  {
  }

  lemma DestructorJoinKeeps(s: State)
    requires Invariant(s) && Enabled(s, DestructorStep) && s.destructor == Join
    ensures Invariant(s.(destructor := Destroyed, joinable := false))
  {
  }

  lemma DestructorKeeps(s: State)
    requires Invariant(s) && Enabled(s, DestructorStep)
    ensures Invariant(DestructorNext(s))
  {
    match s.destructor
    case Check => assert Invariant(s.(destructor := if s.clean then Join else WantStop));
    case WantStop => DestructorStopKeeps(s);
    case _ => DestructorJoinKeeps(s);
  }

  lemma TriggerKeeps(s: State)
    requires Invariant(s) && Enabled(s, ClientStep) && s.holder.pc in {TriggerLoad, TriggerExchange, TriggerJoin}
    ensures Invariant(ClientNext(s))
  {
  }

  lemma TriggerResetKeeps(s: State)
    requires Invariant(s) && Enabled(s, ClientStep) && s.holder.pc == TriggerReset
    ensures Invariant(ClientNext(s))
  {
  }

  lemma TriggerFutureKeeps(s: State)
    requires Invariant(s) && Enabled(s, ClientStep) && s.holder.pc == TriggerFuture
    ensures Invariant(ClientNext(s))
  {
  }

  lemma SpawnKeeps(s: State)
    requires Invariant(s) && Enabled(s, ClientStep) && s.holder.pc == TriggerSpawn
    ensures Invariant(ClientNext(s))
  {
  }

  lemma StopKeeps(s: State)
    requires Invariant(s) && Enabled(s, ClientStep) && s.holder.pc in {StopLoad, StopStore, StopCheck}
    ensures Invariant(ClientNext(s))
  {
  }

  lemma StopCleanKeeps(s: State)
    requires Invariant(s) && Enabled(s, ClientStep) && s.holder.pc in {StopSet, StopClean}
    ensures Invariant(ClientNext(s))
  {
  }

  lemma WaitKeeps(s: State)
    requires Invariant(s) && Enabled(s, ClientStep) && s.holder.pc == WaitLoad
    ensures Invariant(s.SetClient(if s.running then ClientRelease(Wait) else WaitReset))
  {
  }

  lemma WaitResetKeeps(s: State)
    requires Invariant(s) && Enabled(s, ClientStep) && s.holder.pc == WaitReset
    ensures Invariant(s.SetClient(WaitFuture).(waits := s.waits + [Promise(false, 0)]))
  {
  }

  lemma WaitFutureKeeps(s: State)
    requires Invariant(s) && Enabled(s, ClientStep) && s.holder.pc == WaitFuture
    ensures Invariant(ClientNext(s))
  {
  }

  lemma WaitSetKeeps(s: State)
    requires Invariant(s) && Enabled(s, ClientStep) && s.holder.pc == WaitSet
    ensures Invariant(ClientNext(s))
  {
  }

  lemma ReleaseKeeps(s: State)
    requires Invariant(s) && Enabled(s, ClientStep) && s.holder.pc.ClientRelease?
    ensures Invariant(ClientNext(s))
  {
  }

  lemma ClientKeeps(s: State)
    requires Invariant(s) && Enabled(s, ClientStep)
    ensures Invariant(ClientNext(s))
  {
    match s.holder.pc
    case TriggerLoad | TriggerExchange | TriggerJoin => TriggerKeeps(s);
    case TriggerReset => TriggerResetKeeps(s);
    case TriggerFuture => TriggerFutureKeeps(s);
    case TriggerSpawn => SpawnKeeps(s);
    case StopLoad | StopStore | StopCheck => StopKeeps(s);
    case StopSet | StopClean => StopCleanKeeps(s);
    case WaitLoad => WaitKeeps(s);
    case WaitReset => WaitResetKeeps(s);
    case WaitFuture => WaitFutureKeeps(s);
    case WaitSet => WaitSetKeeps(s);
    case ClientRelease(_) => ReleaseKeeps(s);
  }

  lemma LoopKeeps(s: State, w: nat, result: bool)
    requires Invariant(s) && Enabled(s, WorkerStep(w, result))
    requires s.workers[w] in {Before, InCallback, Returned(false), Returned(true)}
    ensures Invariant(WorkerNext(s, w, result))
  {
    assert w == |s.workers| - 1;
  }

  lemma FinishingKeeps(s: State, w: nat, result: bool)
    requires Invariant(s) && Enabled(s, WorkerStep(w, result)) && s.workers[w] in {Finishing, StoreIdle}
    ensures Invariant(WorkerNext(s, w, result))
  {
    assert w == |s.workers| - 1;
  }

  lemma SetWaitKeeps(s: State, w: nat, result: bool)
    requires Invariant(s) && Enabled(s, WorkerStep(w, result)) && s.workers[w] == SetWait
    ensures Invariant(WorkerNext(s, w, result))
  {
    assert w == |s.workers| - 1;
  }

  lemma SetStopKeeps(s: State, w: nat, result: bool)
    requires Invariant(s) && Enabled(s, WorkerStep(w, result)) && s.workers[w] in {CheckStop, SetStop}
    ensures Invariant(WorkerNext(s, w, result))
  {
    assert w == |s.workers| - 1;
  }

  lemma UnlockKeeps(s: State, w: nat, result: bool)
    requires Invariant(s) && Enabled(s, WorkerStep(w, result)) && s.workers[w] == ReleaseLock
    ensures Invariant(s.SetWorker(w, Leaving).(holder := Free))
  {
    assert w == |s.workers| - 1;
  }

  lemma LeavingKeeps(s: State, w: nat, result: bool)
    requires Invariant(s) && Enabled(s, WorkerStep(w, result)) && s.workers[w] == Leaving
    ensures Invariant(WorkerNext(s, w, result))
  {
    assert w == |s.workers| - 1;
  }

  lemma CleanKeeps(s: State, w: nat, result: bool)
    requires Invariant(s) && Enabled(s, WorkerStep(w, result)) && s.workers[w] == StoreClean
    ensures Invariant(WorkerNext(s, w, result))
  {
    assert w == |s.workers| - 1;
  }

  lemma WorkerKeeps(s: State, w: nat, result: bool)
    requires Invariant(s) && Enabled(s, WorkerStep(w, result))
    ensures Invariant(WorkerNext(s, w, result))
  {
    match s.workers[w]
    case SetWait => SetWaitKeeps(s, w, result);
    case CheckStop | SetStop => SetStopKeeps(s, w, result);
    case StoreClean => CleanKeeps(s, w, result);
    case ReleaseLock => UnlockKeeps(s, w, result);
    case Leaving => LeavingKeeps(s, w, result);
    case Finishing | StoreIdle => FinishingKeeps(s, w, result);
    case _ => LoopKeeps(s, w, result);
  }

  lemma NextKeeps(s: State, a: Action)
    requires Invariant(s) && Enabled(s, a)
    ensures Invariant(Next(s, a))
  {
    match a
    case Acquire(op) => AcquireKeeps(s, op);
    case ClientStep => ClientKeeps(s);
    case WorkerStep(w, result) => WorkerKeeps(s, w, result);
    case BeginDestruction => DestructionKeeps(s);
    case DestructorStep => DestructorKeeps(s);
  }

  lemma StepKeeps(s: State, t: State)
    requires Invariant(s) && Step(s, t)
    ensures Invariant(t)
  {
    var a :| Enabled(s, a) && t == Next(s, a);
    NextKeeps(s, a);
  }

  lemma RunKeepsInvariant(run: seq<State>, k: nat)
    requires IsRun(run) && k < |run|
    ensures Invariant(run[k])
  {
    InitialInvariant(run[0]);
    forall s, t | Invariant(s) && Step(s, t)
      ensures Invariant(t)
    {
      StepKeeps(s, t);
    }
    KeptAlong(run, (s, t) => Step(s, t), s => Invariant(s), 0, k);
  }

  // ----- Safety -----

  /** At most one worker is ever in the callback. */
  lemma OneCallback(run: seq<State>, k: nat, v: nat, w: nat)
    requires IsRun(run) && k < |run| && v < |run[k].workers| && w < |run[k].workers|
    requires run[k].workers[v] == InCallback && run[k].workers[w] == InCallback
    ensures v == w
  {
    RunKeepsInvariant(run, k);
  }

  /** Each promise is set at most once, and none is replaced while its future is pending. */
  lemma PromisesSetOnce(run: seq<State>, k: nat)
    requires IsRun(run) && k < |run|
    ensures run[k].stopSets <= 1
    ensures forall i :: 0 <= i < |run[k].waits| ==> run[k].waits[i].sets <= 1
    ensures forall i :: 0 <= i < |run[k].waits| - 1 ==> !run[k].waits[i].Pending()
  {
    RunKeepsInvariant(run, k);
  }

  /** Wait hands out a future that is pending if a worker has running_, and ready if nobody has. */
  lemma WaitFutures(run: seq<State>, k: nat)
    requires IsRun(run) && k < |run| && run[k].holder == Client(ClientRelease(Wait))
    ensures run[k].waits != []
    ensures run[k].waits[|run[k].waits| - 1] == Promise(true, if run[k].running then 0 else 1)
  {
    RunKeepsInvariant(run, k);
  }

  /** Every wait future handed out is ready as soon as running_ is given back and the lock is free again. */
  lemma NobodyWaitsWhenIdle(run: seq<State>, k: nat)
    requires IsRun(run) && k < |run| && run[k].holder == Free && !run[k].running
    ensures forall i :: 0 <= i < |run[k].waits| ==> !run[k].waits[i].Pending()
  {
    RunKeepsInvariant(run, k);
  }

  /** After shutdown_ is set the callback starts at most once more. */
  lemma OneLateStart(run: seq<State>, k: nat)
    requires IsRun(run) && k < |run|
    ensures run[k].lateStarts <= 1
  {
    RunKeepsInvariant(run, k);
  }

  predicate Idle(s: State) {
    forall w :: 0 <= w < |s.workers| ==> s.workers[w] !in {Before, InCallback, Returned(false), Returned(true)}
  }

  lemma StoppedIsIdle(s: State)
    requires Invariant(s) && s.stopSets == 1
    ensures s.shutdown && Idle(s)
  {
  }

  ghost predicate StoppedWith(s: State, lateStarts: nat) {
    Invariant(s) && s.stopSets == 1 && s.lateStarts == lateStarts
  }

  lemma StoppedStays(run: seq<State>, k: nat, m: nat)
    requires IsRun(run) && k <= m < |run| && run[k].stopSets == 1
    ensures StoppedWith(run[m], run[k].lateStarts)
  {
    var n := run[k].lateStarts;
    RunKeepsInvariant(run, k);
    forall s, t | StoppedWith(s, n) && Step(s, t)
      ensures StoppedWith(t, n)
    {
      StoppedSteps(s, t);
    }
    KeptAlong(run, (s, t) => Step(s, t), s => StoppedWith(s, n), k, m);
  }

  /** Once the stop promise is set, no callback runs and none ever starts again. */
  lemma StoppedForGood(run: seq<State>, k: nat, m: nat)
    requires IsRun(run) && k <= m < |run| && run[k].stopSets == 1
    ensures run[m].stopSets == 1 && run[m].lateStarts == run[k].lateStarts
    ensures run[m].shutdown && Idle(run[m])
  {
    StoppedStays(run, k, m);
    StoppedIsIdle(run[m]);
  }

  lemma StoppedSteps(s: State, t: State)
    requires Invariant(s) && s.stopSets == 1 && Step(s, t)
    ensures Invariant(t) && t.stopSets == 1 && t.lateStarts == s.lateStarts
  {
    var a :| Enabled(s, a) && t == Next(s, a);
    NextKeeps(s, a);
    StoppedStep(s, a);
  }

  lemma StoppedStep(s: State, a: Action)
    requires Invariant(s) && Enabled(s, a) && s.stopSets == 1
    ensures Next(s, a).stopSets == 1 && Next(s, a).lateStarts == s.lateStarts
  {
    match a
    case ClientStep => StoppedClient(s);
    case WorkerStep(w, result) => StoppedWorker(s, w, result);
    case _ =>
  }

  lemma StoppedWorker(s: State, w: nat, result: bool)
    requires Invariant(s) && Enabled(s, WorkerStep(w, result)) && s.stopSets == 1
    ensures WorkerNext(s, w, result).stopSets == 1 && WorkerNext(s, w, result).lateStarts == s.lateStarts
  {
    assert w == |s.workers| - 1;
  }

  lemma StoppedClient(s: State)
    requires Invariant(s) && Enabled(s, ClientStep) && s.stopSets == 1
    ensures ClientNext(s).stopSets == 1 && ClientNext(s).lateStarts == s.lateStarts
  {
  }

  // ----- Progress -----

  /** Steps that go on with what has begun; the others begin a new call. */
  predicate Internal(a: Action) {
    a.ClientStep? || a.WorkerStep? || a.DestructorStep?
  }

  /** Something has begun and is not over. */
  predicate Busy(s: State) {
    s.holder.Client? || s.LastWorker() != Exited || s.destructor !in {Alive, Destroyed}
  }

  /** The join in trigger waits, with the lock held, for a thread that no longer needs the lock. */
  lemma JoinNeverDeadlocks(run: seq<State>, k: nat)
    requires IsRun(run) && k < |run| && run[k].holder == Client(TriggerJoin) && !Enabled(run[k], ClientStep)
    ensures run[k].LastWorker() == Leaving && Enabled(run[k], WorkerStep(|run[k].workers| - 1, false))
  {
    RunKeepsInvariant(run, k);
  }

  /** As long as something has begun, some thread can go on. */
  lemma NoDeadlock(run: seq<State>, k: nat) returns (a: Action)
    requires IsRun(run) && k < |run| && Busy(run[k])
    ensures Internal(a) && Enabled(run[k], a)
  {
    RunKeepsInvariant(run, k);
    var s := run[k];
    if s.holder.Client? && ClientEnabled(s) {
      a := ClientStep;
    } else if s.LastWorker() != Exited {
      a := WorkerStep(|s.workers| - 1, false);
    } else {
      a := DestructorStep;
    }
  }

  function WorkerRank(pc: WorkerPc): nat {
    match pc
    case Before => 11
    case InCallback => 10
    case Returned(_) => 9
    case Finishing => 8
    case StoreIdle => 7
    case SetWait => 6
    case CheckStop => 5
    case SetStop => 4
    case StoreClean => 3
    case ReleaseLock => 2
    case Leaving => 1
    case Exited => 0
  }

  function ClientRank(h: Holder): nat {
    match h
    case Client(pc) => (
      match pc
      case TriggerLoad => 7 case TriggerExchange => 6 case TriggerJoin => 5 case TriggerReset => 4
      case TriggerFuture => 3 case TriggerSpawn => 2
      case StopLoad => 6 case StopStore => 5 case StopCheck => 4 case StopSet => 3 case StopClean => 2
      case WaitLoad => 5 case WaitReset => 4 case WaitFuture => 3 case WaitSet => 2
      case ClientRelease(_) => 1)
    case _ => 0
  }

  function DestructorRank(d: Destructor): nat {
    match d
    case Alive => 0
    case Check => 20
    case WantStop => 10
    case Stopping => 2
    case Join => 1
    case Destroyed => 0
  }

  /** How many internal steps can follow once shutdown_ is set. */
  function Rank(s: State): nat {
    WorkerRank(s.LastWorker()) + ClientRank(s.holder) + DestructorRank(s.destructor)
  }

  lemma TriggerRankFalls(s: State)
    requires s.waits != [] && s.shutdown && ClientEnabled(s) && !Starting(s)
    requires s.holder.pc in {TriggerLoad, TriggerExchange}
    ensures Rank(ClientNext(s)) < Rank(s) && ClientNext(s).shutdown
  {
  }

  lemma StopRankFalls(s: State)
    requires s.waits != [] && s.shutdown && ClientEnabled(s) && !Starting(s)
    requires s.holder.pc in {StopLoad, StopStore, StopCheck, StopSet, StopClean}
    ensures Rank(ClientNext(s)) < Rank(s) && ClientNext(s).shutdown
  {
  }

  lemma WaitRankFalls(s: State)
    requires s.waits != [] && s.shutdown && ClientEnabled(s) && !Starting(s)
    requires s.holder.pc in {WaitLoad, WaitReset, WaitFuture, WaitSet}
    ensures Rank(ClientNext(s)) < Rank(s) && ClientNext(s).shutdown
  {
  }

  lemma ReleaseRankFalls(s: State)
    requires s.waits != [] && s.shutdown && ClientEnabled(s) && s.holder.pc.ClientRelease?
    ensures Rank(ClientNext(s)) < Rank(s) && ClientNext(s).shutdown
  {
  }

  lemma ClientRankFalls(s: State)
    requires s.waits != [] && s.shutdown && ClientEnabled(s) && !Starting(s)
    ensures Rank(ClientNext(s)) < Rank(s) && ClientNext(s).shutdown
  {
    match s.holder.pc
    case TriggerLoad | TriggerExchange => TriggerRankFalls(s);
    case StopLoad | StopStore | StopCheck | StopSet | StopClean => StopRankFalls(s);
    case WaitLoad | WaitReset | WaitFuture | WaitSet => WaitRankFalls(s);
    case _ => ReleaseRankFalls(s);
  }

  lemma WorkerRankFalls(s: State, w: nat, result: bool)
    requires s.waits != [] && s.shutdown && WorkerEnabled(s, w) && w == |s.workers| - 1
    requires s.workers[w] == ReleaseLock ==> s.holder.Worker?
    ensures Rank(WorkerNext(s, w, result)) < Rank(s) && WorkerNext(s, w, result).shutdown
  {
  }

  lemma DestructorRankFalls(s: State)
    requires Invariant(s) && s.shutdown && Enabled(s, DestructorStep)
    ensures Rank(DestructorNext(s)) < Rank(s) && DestructorNext(s).shutdown
  {
  }

  /** With shutdown_ set, what has begun comes to an end. */
  lemma ShutdownTerminates(s: State, a: Action)
    requires Invariant(s) && s.shutdown && Enabled(s, a) && Internal(a)
    ensures Rank(Next(s, a)) < Rank(s) && Next(s, a).shutdown
  {
    match a
    case ClientStep => ClientRankFalls(s);
    case WorkerStep(w, result) =>
      assert w == |s.workers| - 1;
      WorkerRankFalls(s, w, result);
    case _ => DestructorRankFalls(s);
  }

  /** And when it has, the stop promise is set and no wait future is pending. */
  lemma ShutdownEndsStopped(run: seq<State>, k: nat)
    requires IsRun(run) && k < |run| && run[k].shutdown && !Busy(run[k])
    ensures run[k].stopSets == 1 && run[k].LastWorker() == Exited
    ensures forall i :: 0 <= i < |run[k].waits| ==> !run[k].waits[i].Pending()
  {
    RunKeepsInvariant(run, k);
  }

  /** The destructor leaves no thread behind, and the stop future ready. */
  lemma DestroyedIsStopped(run: seq<State>, k: nat)
    requires IsRun(run) && k < |run| && run[k].destructor == Destroyed
    ensures run[k].stopSets == 1 && !run[k].joinable
    ensures forall w :: 0 <= w < |run[k].workers| ==> run[k].workers[w] == Exited
  {
    RunKeepsInvariant(run, k);
  }
}
