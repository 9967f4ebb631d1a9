/**
 The state machine of src/core/StateMachine.cpp and src/core/StateMachine.hpp:67-72 as a transition system. One step is
 one atomic access, one operation on the lock, a thread or a promise, or the start or return of the callback. Any
 number of clients call Trigger, Stop and Wait; only the one that holds the lock is between two steps.
 */
module StateMachineModel {
  /** Where a worker thread is in execute(). */
  datatype WorkerPc =
    | Before                    // about to call the callback
    | InCallback
    | Returned(again: bool)     // about to look at shutdown_
    | Finishing                 // about to take the lock
    | StoreIdle                 // running_.store(false)
    | SetWait                   // waiting_.set_value()
    | CheckStop                 // shutdown_.load()
    | SetStop                   // stopping_.set_value()
    | StoreClean                // clean_.store(true)
    | ReleaseLock
    | Leaving                   // lock released, thread not yet over
    | Exited

  datatype Op = Trigger | Stop | Wait

  /** Where the client that holds the lock is. */
  datatype ClientPc =
    | TriggerLoad               // shutdown_.load()
    | TriggerExchange           // running_.exchange(true)
    | TriggerJoin               // handle_.join() if joinable
    | TriggerReset              // waiting_ = {}
    | TriggerFuture             // waiting_.get_future()
    | TriggerSpawn              // handle_ = std::thread(...)
    | StopLoad                  // clean_.load()
    | StopStore                 // shutdown_.store(true)
    | StopCheck                 // running_.load()
    | StopSet                   // stopping_.set_value()
    | StopClean                 // clean_.store(true)
    | WaitLoad                  // running_.load()
    | WaitReset
    | WaitFuture
    | WaitSet                   // waiting_.set_value()
    | ClientRelease(op: Op)     // the call is done

  datatype Holder = Free | Client(pc: ClientPc) | Worker(id: nat)

  /** The destructor: looks at clean_, calls Stop, joins. */
  datatype Destructor = Alive | Check | WantStop | Stopping | Join | Destroyed

  /** A promise: whether its future was taken, and how often its value was set. */
  datatype Promise = Promise(taken: bool, sets: nat)
  {
    predicate Pending() {
      taken && sets == 0
    }
  }

  datatype State = State(
    holder: Holder,
    shutdown: bool,
    running: bool,
    clean: bool,
    joinable: bool,
    workers: seq<WorkerPc>,     // every thread ever started; handle_ is the last
    waits: seq<Promise>,        // every waiting_ there ever was; the last is current
    stopSets: nat,              // how often stopping_ was set
    lateStarts: nat,            // how often the callback was started with shutdown_ set
    destructor: Destructor)
  {
    function LastWorker(): WorkerPc {
      if workers == [] then Exited else workers[|workers| - 1]
    }

    function SetWorker(w: nat, pc: WorkerPc): State
      requires w < |workers|
    {
      this.(workers := workers[w := pc])
    }

    function SetClient(pc: ClientPc): State {
      this.(holder := Client(pc))
    }
  }

  predicate Initial(s: State) {
    s == State(Free, false, false, false, false, [], [Promise(false, 0)], 0, 0, Alive)
  }

  datatype Action =
    | Acquire(op: Op)           // a client takes the lock
    | ClientStep                // the client that holds it goes on
    | WorkerStep(id: nat, result: bool) // a worker goes on; `result` is what the callback returns
    | BeginDestruction
    | DestructorStep

  function Entry(op: Op): ClientPc {
    match op
    case Trigger => TriggerLoad
    case Stop => StopLoad
    case Wait => WaitLoad
  }

  // ----- Workers -----

  predicate WorkerEnabled(s: State, w: nat) {
    w < |s.workers| && s.workers[w] != Exited && (s.workers[w] == Finishing ==> s.holder == Free)
  }

  function WorkerNext(s: State, w: nat, result: bool): State
    requires WorkerEnabled(s, w) && s.waits != []
  {
    var last := s.waits[|s.waits| - 1];
    match s.workers[w]
    case Before => s.SetWorker(w, InCallback).(lateStarts := if s.shutdown then s.lateStarts + 1 else s.lateStarts)
    case InCallback => s.SetWorker(w, Returned(result))
    case Returned(again) => s.SetWorker(w, if s.shutdown || !again then Finishing else Before)
    case Finishing => s.SetWorker(w, StoreIdle).(holder := Worker(w))
    case StoreIdle => s.SetWorker(w, SetWait).(running := false)
    case SetWait => s.SetWorker(w, CheckStop).(waits := s.waits[|s.waits| - 1 := last.(sets := last.sets + 1)])
    case CheckStop => s.SetWorker(w, if s.shutdown then SetStop else ReleaseLock)
    case SetStop => s.SetWorker(w, StoreClean).(stopSets := s.stopSets + 1)
    case StoreClean => s.SetWorker(w, ReleaseLock).(clean := true)
    case ReleaseLock => s.SetWorker(w, Leaving).(holder := Free)
    case Leaving => s.SetWorker(w, Exited)
    case Exited => s
  }

  // ----- Clients -----

  predicate ClientEnabled(s: State) {
    s.holder.Client? && (s.holder.pc == TriggerJoin && s.joinable ==> s.LastWorker() == Exited)
  }

  function ClientNext(s: State): State
    requires ClientEnabled(s) && s.waits != []
  {
    var n, last := |s.waits| - 1, s.waits[|s.waits| - 1];
    match s.holder.pc
    case TriggerLoad => s.SetClient(if s.shutdown then ClientRelease(Trigger) else TriggerExchange)
    case TriggerExchange => s.SetClient(if s.running then ClientRelease(Trigger) else TriggerJoin).(running := true)
    case TriggerJoin => s.SetClient(TriggerReset).(joinable := false)
    case TriggerReset => s.SetClient(TriggerFuture).(waits := s.waits + [Promise(false, 0)])
    case TriggerFuture => s.SetClient(TriggerSpawn).(waits := s.waits[n := last.(taken := true)])
    case TriggerSpawn => s.SetClient(ClientRelease(Trigger)).(workers := s.workers + [Before], joinable := true)
    case StopLoad => s.SetClient(if s.clean then ClientRelease(Stop) else StopStore)
    case StopStore => s.SetClient(StopCheck).(shutdown := true)
    case StopCheck => s.SetClient(if s.running then ClientRelease(Stop) else StopSet)
    case StopSet => s.SetClient(StopClean).(stopSets := s.stopSets + 1)
    case StopClean => s.SetClient(ClientRelease(Stop)).(clean := true)
    case WaitLoad => s.SetClient(if s.running then ClientRelease(Wait) else WaitReset)
    case WaitReset => s.SetClient(WaitFuture).(waits := s.waits + [Promise(false, 0)])
    case WaitFuture => s.SetClient(WaitSet).(waits := s.waits[n := last.(taken := true)])
    case WaitSet => s.SetClient(ClientRelease(Wait)).(waits := s.waits[n := last.(sets := last.sets + 1)])
    case ClientRelease(_) => s.(holder := Free, destructor := if s.destructor == Stopping then Join else s.destructor)
  }

  // ----- All steps -----

  predicate DestructorEnabled(s: State) {
    match s.destructor
    case Check => true
    case WantStop => s.holder == Free
    case Join => s.joinable ==> s.LastWorker() == Exited
    case _ => false
  }

  function DestructorNext(s: State): State
    requires DestructorEnabled(s)
  {
    match s.destructor
    case Check => s.(destructor := if s.clean then Join else WantStop)
    case WantStop => s.(destructor := Stopping, holder := Client(StopLoad))
    case _ => s.(destructor := Destroyed, joinable := false)
  }

  predicate Enabled(s: State, a: Action) {
    s.waits != [] &&
    match a
    case Acquire(_) => s.destructor == Alive && s.holder == Free
    case ClientStep => ClientEnabled(s)
    case WorkerStep(w, _) => WorkerEnabled(s, w)
    case BeginDestruction => s.destructor == Alive && !s.holder.Client? // no call is in progress
    case DestructorStep => DestructorEnabled(s)
  }

  function Next(s: State, a: Action): State
    requires Enabled(s, a)
  {
    match a
    case Acquire(op) => s.SetClient(Entry(op))
    case ClientStep => ClientNext(s)
    case WorkerStep(w, result) => WorkerNext(s, w, result)
    case BeginDestruction => s.(destructor := Check)
    case DestructorStep => DestructorNext(s)
  }

  ghost predicate Step(s: State, t: State) {
    exists a :: Enabled(s, a) && t == Next(s, a)
  }

  ghost predicate IsRun(run: seq<State>) {
    run != [] && Initial(run[0]) && forall i :: 0 <= i < |run| - 1 ==> Step(run[i], run[i + 1])
  }

  // ----- What every run keeps -----

  /** Threads before the last are over, and the lock is held by a worker exactly while it is in its critical section. */
  ghost predicate ThreadsInvariant(s: State) {
    && (forall i :: 0 <= i < |s.workers| - 1 ==> s.workers[i] == Exited)
    && (s.holder.Worker? <==> s.LastWorker() in {StoreIdle, SetWait, CheckStop, SetStop, StoreClean, ReleaseLock})
    && (s.holder.Worker? ==> s.holder.id == |s.workers| - 1)
    && (s.LastWorker() != Exited ==> s.joinable)
  }

  /** A client is between taking running_ and starting the thread. */
  predicate Starting(s: State) {
    s.holder.Client? && s.holder.pc in {TriggerJoin, TriggerReset, TriggerFuture, TriggerSpawn}
  }

  /** A worker has not given running_ back. */
  predicate Working(s: State) {
    s.LastWorker() in {Before, InCallback, Returned(false), Returned(true), Finishing, StoreIdle}
  }

  ghost predicate RunningInvariant(s: State) {
    && (s.running <==> Starting(s) || Working(s))
    && !(Starting(s) && Working(s))
    && (s.holder.Client? && s.holder.pc in {TriggerReset, TriggerFuture, TriggerSpawn} ==> !s.joinable)
  }

  /** What the current promise must look like. */
  predicate PromiseFits(s: State, last: Promise) {
    if s.holder.Client? && s.holder.pc in {TriggerFuture, WaitFuture} then last == Promise(false, 0)
    else if s.holder.Client? && s.holder.pc in {TriggerSpawn, WaitSet} then last == Promise(true, 0)
    else if Working(s) || s.LastWorker() == SetWait then last == Promise(true, 0)
    else last == Promise(true, 1) || (last == Promise(false, 0) && |s.waits| == 1)
  }

  ghost predicate PromiseInvariant(s: State) {
    && s.waits != []
    && (forall i :: 0 <= i < |s.waits| ==> s.waits[i].sets <= 1)
    && (forall i :: 0 <= i < |s.waits| - 1 ==> !s.waits[i].Pending())
    && PromiseFits(s, s.waits[|s.waits| - 1])
    && (s.holder.Client? && s.holder.pc in {WaitReset, WaitFuture, WaitSet} ==> !s.running)
    && (s.holder == Client(ClientRelease(Wait)) ==> s.waits[|s.waits| - 1].taken)
  }

  ghost predicate StopInvariant(s: State) {
    && s.stopSets <= 1
    && (s.clean ==> s.stopSets == 1)
    && (s.stopSets == 1 ==> s.shutdown && !s.running)
    && (s.stopSets == 1 ==> s.clean || s.holder == Client(StopClean) || s.LastWorker() == StoreClean)
    && (s.holder == Client(StopClean) || s.LastWorker() == StoreClean ==> s.stopSets == 1 && !s.clean)
    && (s.shutdown && s.stopSets == 0 ==>
          s.running || s.LastWorker() in {SetWait, CheckStop, SetStop}
          || s.holder == Client(StopCheck) || s.holder == Client(StopSet))
    && (s.holder.Client? && s.holder.pc in {StopStore, StopCheck, StopSet} ==> s.stopSets == 0)
    && (s.holder.Client? && s.holder.pc in {StopCheck, StopSet, StopClean} ==> s.shutdown)
    && (s.holder == Client(StopSet) || s.holder == Client(StopClean) ==> !s.running)
    && (s.LastWorker() in {SetWait, CheckStop, SetStop} ==> s.stopSets == 0)
    && (s.LastWorker() == SetStop ==> s.shutdown)
    && (s.holder == Client(TriggerExchange) || Starting(s) ==> !s.shutdown)
  }

  /** The callback is started at most once after shutdown_ is set. */
  ghost predicate LateInvariant(s: State) {
    && (!s.shutdown ==> s.lateStarts == 0)
    && s.lateStarts + (if s.LastWorker() == Before then 1 else 0) <= 1
  }

  ghost predicate DestructorInvariant(s: State) {
    && (s.destructor in {Check, WantStop, Join, Destroyed} ==> !s.holder.Client?)
    && (s.destructor == Stopping ==> 
          s.holder.Client?
          && s.holder.pc in {StopLoad, StopStore, StopCheck, StopSet, StopClean, ClientRelease(Stop)})
    && (s.destructor == Stopping && s.holder.pc == ClientRelease(Stop) ==> s.shutdown)
    && (s.destructor in {Join, Destroyed} ==> s.shutdown)
    && (s.destructor == Destroyed ==> !s.joinable)
  }

  ghost predicate Invariant(s: State) {
    && ThreadsInvariant(s) && RunningInvariant(s) && PromiseInvariant(s) && StopInvariant(s) && LateInvariant(s)
    && DestructorInvariant(s)
  }
}
