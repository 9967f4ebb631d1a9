/**
 What each call, a worker and the destructor do to the state machine when nobody else moves: the sequential meaning of
 the steps in between (src/core/StateMachine.cpp:24-101, src/core/StateMachine.hpp:67-72).
 */
module StateMachineAlone {
  import opened StateMachineModel

  /** Whose steps are taken: the client's that holds the lock, the last worker's, or the destructor's. */
  datatype Mover = Caller | Thread(result: bool) | Destruction

  ghost predicate Goes(s: State, t: State, who: Mover) {
    s.waits != [] &&
    match who
    case Caller => ClientEnabled(s) && t == ClientNext(s)
    case Thread(result) =>
      s.workers != [] && WorkerEnabled(s, |s.workers| - 1) && t == WorkerNext(s, |s.workers| - 1, result)
    case Destruction =>
      if s.destructor == Stopping then ClientEnabled(s) && t == ClientNext(s)
      else
        DestructorEnabled(s) && t == DestructorNext(s)
  }

  ghost predicate Undisturbed(path: seq<State>, who: Mover) {
    path != [] && forall i :: 0 <= i < |path| - 1 ==> Goes(path[i], path[i + 1], who)
  }

  ghost predicate Reaches(s: State, t: State, who: Mover) {
    exists path :: Undisturbed(path, who) && path[0] == s && path[|path| - 1] == t
  }

  lemma Stay(s: State, who: Mover)
    ensures Reaches(s, s, who)
  {
    assert Undisturbed([s], who);
  }

  lemma Then(s: State, t: State, u: State, who: Mover)
    requires Reaches(s, t, who) && Goes(t, u, who)
    ensures Reaches(s, u, who)
  {
    var path :| Undisturbed(path, who) && path[0] == s && path[|path| - 1] == t;
    assert Undisturbed(path + [u], who);
  }

  /** No call, no worker, and the machine was not stopped. */
  ghost predicate AtRest(s: State) {
    Invariant(s) && s.holder == Free && s.LastWorker() == Exited && s.destructor == Alive && !s.shutdown
  }

  lemma RestIsNotRunning(s: State)
    requires AtRest(s)
    ensures !s.running && !s.clean && s.stopSets == 0 && s.waits != []
  {
  }

  // ----- Trigger -----

  lemma TriggerTakesRunning(s: State)
    requires s.waits != [] && !s.shutdown && !s.running && s.LastWorker() == Exited
    ensures Reaches(s.SetClient(TriggerLoad), s.SetClient(TriggerReset).(running := true, joinable := false), Caller)
  {
    var a, b := s.SetClient(TriggerLoad), s.SetClient(TriggerExchange);
    var c, d := b.(holder := Client(TriggerJoin), running := true), b.(holder := Client(TriggerReset), running := true);
    Stay(a, Caller);
    Then(a, a, b, Caller);
    Then(a, b, c, Caller);
    Then(a, c, d.(joinable := false), Caller);
  }

  lemma TriggerMakesPromise(a: State, s: State, waits: seq<Promise>)
    requires s.waits != [] && Reaches(a, s, Caller) && s.holder == Client(TriggerReset)
    requires waits == s.waits + [Promise(true, 0)]
    ensures Reaches(a, s.(holder := Client(TriggerSpawn), waits := waits), Caller)
  {
    var b := s.(holder := Client(TriggerFuture), waits := s.waits + [Promise(false, 0)]);
    Then(a, s, b, Caller);
    assert b.waits[|b.waits| - 1 := Promise(true, 0)] == waits;
    Then(a, b, b.(holder := Client(TriggerSpawn), waits := waits), Caller);
  }

  lemma TriggerStarts(a: State, s: State)
    requires s.waits != [] && Reaches(a, s, Caller) && s.holder == Client(TriggerSpawn) && s.destructor == Alive
    ensures Reaches(a, s.(holder := Free, joinable := true, workers := s.workers + [Before]), Caller)
  {
    var b := s.(holder := Client(ClientRelease(Trigger)), joinable := true, workers := s.workers + [Before]);
    Then(a, s, b, Caller);
    Then(a, b, b.(holder := Free), Caller);
  }

  /** Trigger on a machine at rest: a fresh promise whose future is taken, and a worker about to call the callback. */
  lemma TriggerAlone(s: State)
    requires AtRest(s)
    ensures Enabled(s, Acquire(Trigger))
    ensures Reaches(Next(s, Acquire(Trigger)),
                    s.(running := true, joinable := true, workers := s.workers + [Before],
                       waits := s.waits + [Promise(true, 0)]),
                    Caller)
  {
    RestIsNotRunning(s);
    var a, waits := s.SetClient(TriggerLoad), s.waits + [Promise(true, 0)];
    TriggerTakesRunning(s);
    var b := s.SetClient(TriggerReset).(running := true, joinable := false);
    TriggerMakesPromise(a, b, waits);
    TriggerStarts(a, b.(holder := Client(TriggerSpawn), waits := waits));
  }

  /** With a worker that has running_, or after shutdown, Trigger changes nothing. */
  lemma TriggerInVain(s: State)
    requires s.waits != [] && s.holder == Free && s.destructor == Alive && (s.shutdown || s.running)
    ensures Enabled(s, Acquire(Trigger)) && Reaches(Next(s, Acquire(Trigger)), s, Caller)
  {
    var a, b := s.SetClient(TriggerLoad), s.SetClient(TriggerExchange);
    var c := s.SetClient(ClientRelease(Trigger));
    Stay(a, Caller);
    if !s.shutdown {
      Then(a, a, b, Caller);
      Then(a, b, c, Caller);
    } else {
      Then(a, a, c, Caller);
    }
    Then(a, c, s, Caller);
  }

  // ----- Wait -----

  lemma WaitMakesPromise(a: State, s: State)
    requires s.waits != [] && Reaches(a, s, Caller) && s.holder == Client(WaitReset)
    ensures Reaches(a, s.(holder := Client(WaitSet), waits := s.waits + [Promise(true, 0)]), Caller)
  {
    var b := s.(holder := Client(WaitFuture), waits := s.waits + [Promise(false, 0)]);
    Then(a, s, b, Caller);
    assert b.waits[|b.waits| - 1 := Promise(true, 0)] == s.waits + [Promise(true, 0)];
    Then(a, b, s.(holder := Client(WaitSet), waits := s.waits + [Promise(true, 0)]), Caller);
  }

  lemma WaitSetsPromise(a: State, s: State, waits: seq<Promise>)
    requires Reaches(a, s, Caller) && s.holder == Client(WaitSet) && s.waits == waits + [Promise(true, 0)]
    requires s.destructor == Alive
    ensures Reaches(a, s.(holder := Free, waits := waits + [Promise(true, 1)]), Caller)
  {
    var b := s.(holder := Client(ClientRelease(Wait)), waits := waits + [Promise(true, 1)]);
    assert s.waits[|s.waits| - 1 := Promise(true, 1)] == waits + [Promise(true, 1)];
    Then(a, s, b, Caller);
    Then(a, b, b.(holder := Free), Caller);
  }

  /** Wait on a machine at rest hands out a future that is ready. */
  lemma WaitAlone(s: State)
    requires AtRest(s)
    ensures Enabled(s, Acquire(Wait))
    ensures Reaches(Next(s, Acquire(Wait)), s.(waits := s.waits + [Promise(true, 1)]), Caller)
  {
    RestIsNotRunning(s);
    var a, b := s.SetClient(WaitLoad), s.SetClient(WaitReset);
    Stay(a, Caller);
    Then(a, a, b, Caller);
    WaitMakesPromise(a, b);
    WaitSetsPromise(a, b.(holder := Client(WaitSet), waits := s.waits + [Promise(true, 0)]), s.waits);
  }

  /** With a worker that has running_ it hands out another future of the promise there is. */
  lemma WaitWhileRunning(s: State)
    requires s.waits != [] && s.holder == Free && s.destructor == Alive && s.running
    ensures Enabled(s, Acquire(Wait)) && Reaches(Next(s, Acquire(Wait)), s, Caller)
  {
    var a, b := s.SetClient(WaitLoad), s.SetClient(ClientRelease(Wait));
    Stay(a, Caller);
    Then(a, a, b, Caller);
    Then(a, b, s, Caller);
  }

  // ----- Stop -----

  lemma StopShutsDown(s: State, who: Mover)
    requires s.waits != [] && !s.clean && who == if s.destructor == Stopping then Destruction else Caller
    ensures Reaches(s.SetClient(StopLoad), s.SetClient(StopCheck).(shutdown := true), who)
  {
    var a := s.SetClient(StopLoad);
    Stay(a, who);
    Then(a, a, s.SetClient(StopStore), who);
    Then(a, s.SetClient(StopStore), s.SetClient(StopCheck).(shutdown := true), who);
  }

  lemma StopCleans(a: State, s: State, who: Mover)
    requires s.waits != [] && s.holder == Client(StopCheck) && !s.running && s.stopSets == 0
    requires who == (if s.destructor == Stopping then Destruction else Caller) && Reaches(a, s, who)
    ensures Reaches(a, s.(holder := Client(ClientRelease(Stop)), stopSets := 1, clean := true), who)
  {
    var b, c := s.(holder := Client(StopSet)), s.(holder := Client(StopClean), stopSets := 1);
    Then(a, s, b, who);
    Then(a, b, c, who);
    Then(a, c, c.(holder := Client(ClientRelease(Stop)), clean := true), who);
  }

  /** The part of Stop behind the lock, for a client and for the destructor. */
  lemma StopsAtRest(s: State, who: Mover)
    requires s.waits != [] && !s.clean && !s.running && s.stopSets == 0
    requires who == if s.destructor == Stopping then Destruction else Caller
    ensures Reaches(s.SetClient(StopLoad),
                    s.(holder := Client(ClientRelease(Stop)), shutdown := true, stopSets := 1, clean := true), who)
  {
    StopShutsDown(s, who);
    StopCleans(s.SetClient(StopLoad), s.SetClient(StopCheck).(shutdown := true), who);
  }

  /** Stop on a machine at rest stops it for good. */
  lemma StopAlone(s: State)
    requires AtRest(s)
    ensures Enabled(s, Acquire(Stop))
    ensures Reaches(Next(s, Acquire(Stop)), s.(shutdown := true, stopSets := 1, clean := true), Caller)
  {
    RestIsNotRunning(s);
    var a := s.SetClient(StopLoad);
    StopsAtRest(s, Caller);
    var b := s.(holder := Client(ClientRelease(Stop)), shutdown := true, stopSets := 1, clean := true);
    Then(a, b, b.(holder := Free), Caller);
  }

  /** With a worker that has running_ it tells it to stop. */
  lemma StopWhileRunning(s: State)
    requires s.waits != [] && s.holder == Free && s.destructor == Alive && s.running && !s.clean
    ensures Enabled(s, Acquire(Stop)) && Reaches(Next(s, Acquire(Stop)), s.(shutdown := true), Caller)
  {
    StopShutsDown(s, Caller);
    var a, c := s.SetClient(StopLoad), s.SetClient(StopCheck).(shutdown := true);
    var d := c.(holder := Client(ClientRelease(Stop)));
    Then(a, c, d, Caller);
    Then(a, d, d.(holder := Free), Caller);
  }

  // ----- The worker -----

  /** A worker about to call the callback, with nobody in its way. */
  ghost predicate AtWork(s: State) {
    Invariant(s) && s.holder == Free && s.LastWorker() == Before
  }

  lemma WorkIsNotStopped(s: State)
    requires AtWork(s)
    ensures s.workers != [] && s.waits != [] && s.waits[|s.waits| - 1] == Promise(true, 0)
    ensures s.stopSets == 0 && !s.clean
  {
  }

  /** If the callback returns true, the worker is back where it was: the callback runs again and again. */
  lemma WorkerGoesOn(s: State)
    requires AtWork(s) && !s.shutdown
    ensures exists t :: Goes(s, t, Thread(true)) && t.LastWorker() == InCallback && Reaches(t, s, Thread(true))
  {
    var w := |s.workers| - 1;
    var t, u := s.SetWorker(w, InCallback), s.SetWorker(w, Returned(true));
    Stay(t, Thread(true));
    Then(t, t, u, Thread(true));
    assert u.SetWorker(w, Before) == s;
    Then(t, u, s, Thread(true));
    assert Goes(s, t, Thread(true));
  }

  lemma WorkerCalls(s: State, n: State, w: nat, result: bool)
    requires s.waits != [] && w == |s.workers| - 1 && s.workers[w] == Before
    requires n == s.(lateStarts := s.lateStarts + if s.shutdown then 1 else 0)
    ensures Reaches(s, n.SetWorker(w, Returned(result)), Thread(result))
  {
    var t := n.SetWorker(w, InCallback);
    Stay(s, Thread(result));
    Then(s, s, t, Thread(result));
    assert t.SetWorker(w, Returned(result)) == n.SetWorker(w, Returned(result));
    Then(s, t, n.SetWorker(w, Returned(result)), Thread(result));
  }

  /** The callback, and out of the loop: it returned false, or the machine is shutting down. */
  lemma WorkerLeavesLoop(s: State, w: nat, result: bool)
    requires s.waits != [] && w == |s.workers| - 1 && s.workers[w] == Before && (s.shutdown || !result)
    ensures Reaches(s, s.SetWorker(w, Finishing).(lateStarts := s.lateStarts + if s.shutdown then 1 else 0),
              Thread(result))
  {
    var n := s.(lateStarts := s.lateStarts + if s.shutdown then 1 else 0);
    var u := n.SetWorker(w, Returned(result));
    WorkerCalls(s, n, w, result);
    assert u.SetWorker(w, Finishing) == n.SetWorker(w, Finishing);
    Then(s, u, n.SetWorker(w, Finishing), Thread(result));
  }

  lemma WorkerTakesLock(a: State, s: State, w: nat, result: bool)
    requires s.waits != [] && w == |s.workers| - 1 && s.workers[w] == Finishing && s.holder == Free
    requires Reaches(a, s, Thread(result))
    ensures Reaches(a, s.(holder := Worker(w), workers := s.workers[w := SetWait], running := false), Thread(result))
  {
    var t := s.(holder := Worker(w), workers := s.workers[w := StoreIdle]);
    Then(a, s, t, Thread(result));
    assert t.workers[w := SetWait] == s.workers[w := SetWait];
    Then(a, t, t.(workers := s.workers[w := SetWait], running := false), Thread(result));
  }

  /** It gives running_ back and makes the wait future ready. */
  lemma WorkerGivesBack(a: State, s: State, w: nat, result: bool, waits: seq<Promise>)
    requires s.waits != [] && w == |s.workers| - 1 && s.workers[w] == Finishing && s.holder == Free
    requires Reaches(a, s, Thread(result)) && s.waits[|s.waits| - 1] == Promise(true, 0)
    requires waits == s.waits[|s.waits| - 1 := Promise(true, 1)]
    ensures Reaches(a, s.(holder := Worker(w), workers := s.workers[w := CheckStop], running := false, waits := waits),
              Thread(result))
  {
    WorkerTakesLock(a, s, w, result);
    var u := s.(holder := Worker(w), workers := s.workers[w := SetWait], running := false);
    assert u.workers[w := CheckStop] == s.workers[w := CheckStop];
    Then(a, u, u.(workers := s.workers[w := CheckStop], waits := waits), Thread(result));
  }

  lemma WorkerUnlocks(a: State, s: State, w: nat, result: bool)
    requires s.waits != [] && w == |s.workers| - 1 && s.workers[w] == ReleaseLock && Reaches(a, s, Thread(result))
    ensures Reaches(a, s.(holder := Free, workers := s.workers[w := Exited]), Thread(result))
  {
    var t := s.(holder := Free, workers := s.workers[w := Leaving]);
    Then(a, s, t, Thread(result));
    assert t.workers[w := Exited] == s.workers[w := Exited];
    Then(a, t, t.(workers := s.workers[w := Exited]), Thread(result));
  }

  lemma WorkerStops(a: State, s: State, w: nat, result: bool)
    requires s.waits != [] && w == |s.workers| - 1 && s.workers[w] == CheckStop && Reaches(a, s, Thread(result))
    requires s.stopSets == 0 && !s.clean
    ensures Reaches(a, s.(workers := s.workers[w := ReleaseLock], stopSets := if s.shutdown then 1 else 0,
                          clean := s.shutdown),
              Thread(result))
  {
    if s.shutdown {
      var t := s.(workers := s.workers[w := SetStop]);
      Then(a, s, t, Thread(result));
      var u := t.(workers := s.workers[w := StoreClean], stopSets := 1);
      assert t.workers[w := StoreClean] == s.workers[w := StoreClean];
      Then(a, t, u, Thread(result));
      assert u.workers[w := ReleaseLock] == s.workers[w := ReleaseLock];
      Then(a, u, u.(workers := s.workers[w := ReleaseLock], clean := true), Thread(result));
    } else {
      Then(a, s, s.(workers := s.workers[w := ReleaseLock]), Thread(result));
    }
  }

  /**
   A worker whose callback returns false, or that finds the machine shutting down, gives running_ back, makes the wait
   future ready and ends; if the machine is shutting down it is stopped afterwards.
   */
  lemma WorkerEnds(s: State, result: bool, waits: seq<Promise>)
    requires AtWork(s) && (s.shutdown || !result) && s.waits != []
    requires waits == s.waits[|s.waits| - 1 := Promise(true, 1)]
    ensures Reaches(s, s.(workers := s.workers[|s.workers| - 1 := Exited], running := false, waits := waits,
                          stopSets := if s.shutdown then 1 else 0, clean := s.shutdown,
                          lateStarts := s.lateStarts + if s.shutdown then 1 else 0),
              Thread(result))
  {
    WorkIsNotStopped(s);
    WorkerRunsOut(s, |s.workers| - 1, result, waits);
  }

  lemma WorkerRunsOut(s: State, w: nat, result: bool, waits: seq<Promise>)
    requires s.waits != [] && w == |s.workers| - 1 && s.workers[w] == Before && s.holder == Free
    requires s.waits[|s.waits| - 1] == Promise(true, 0) && s.stopSets == 0 && !s.clean && (s.shutdown || !result)
    requires waits == s.waits[|s.waits| - 1 := Promise(true, 1)]
    ensures Reaches(s, s.(workers := s.workers[w := Exited], running := false, waits := waits,
                          stopSets := if s.shutdown then 1 else 0, clean := s.shutdown,
                          lateStarts := s.lateStarts + if s.shutdown then 1 else 0),
              Thread(result))
  {
    WorkerLeavesLoop(s, w, result);
    var t := s.SetWorker(w, Finishing).(lateStarts := s.lateStarts + if s.shutdown then 1 else 0);
    WorkerGivesBack(s, t, w, result, waits);
    var u := t.(holder := Worker(w), workers := t.workers[w := CheckStop], running := false, waits := waits);
    WorkerStops(s, u, w, result);
    var v := u.(workers := u.workers[w := ReleaseLock], stopSets := if s.shutdown then 1 else 0, clean := s.shutdown);
    WorkerUnlocks(s, v, w, result);
    assert v.workers[w := Exited] == s.workers[w := Exited];
  }

  // ----- The destructor -----

  lemma DestructorStops(s: State)
    requires s.waits != [] && !s.clean && s.holder == Free
    ensures Reaches(s.(destructor := Check), s.(destructor := Stopping, holder := Client(StopLoad)), Destruction)
  {
    var a, b := s.(destructor := Check), s.(destructor := WantStop);
    Stay(a, Destruction);
    Then(a, a, b, Destruction);
    Then(a, b, s.(destructor := Stopping, holder := Client(StopLoad)), Destruction);
  }

  lemma DestructorJoins(a: State, s: State)
    requires s.waits != [] && s.holder == Client(ClientRelease(Stop)) && s.destructor == Stopping
    requires s.LastWorker() == Exited && Reaches(a, s, Destruction)
    ensures Reaches(a, s.(destructor := Destroyed, holder := Free, joinable := false), Destruction)
  {
    var b := s.(destructor := Join, holder := Free);
    Then(a, s, b, Destruction);
    Then(a, b, b.(destructor := Destroyed, joinable := false), Destruction);
  }

  /** Destroying a machine at rest stops it and joins its last thread. */
  lemma DestructorAlone(s: State)
    requires AtRest(s)
    ensures Enabled(s, BeginDestruction)
    ensures Reaches(Next(s, BeginDestruction),
                    s.(destructor := Destroyed, shutdown := true, stopSets := 1, clean := true, joinable := false),
                    Destruction)
  {
    RestIsNotRunning(s);
    var a, c := s.(destructor := Check), s.(destructor := Stopping);
    DestructorStops(s);
    StopsAtRest(c, Destruction);
    var d := c.(holder := Client(ClientRelease(Stop)), shutdown := true, stopSets := 1, clean := true);
    Append(a, c.SetClient(StopLoad), d, Destruction);
    DestructorJoins(a, d);
  }

  /** Behind a Stop that is over, only the join is left. */
  lemma DestructorAfterStop(s: State)
    requires s.waits != [] && s.holder == Free && s.LastWorker() == Exited && s.destructor == Alive && s.clean
    ensures Enabled(s, BeginDestruction)
    ensures Reaches(Next(s, BeginDestruction), s.(destructor := Destroyed, joinable := false), Destruction)
  {
    var a, b := s.(destructor := Check), s.(destructor := Join);
    Stay(a, Destruction);
    Then(a, a, b, Destruction);
    Then(a, b, b.(destructor := Destroyed, joinable := false), Destruction);
  }

  lemma Append(s: State, t: State, u: State, who: Mover)
    requires Reaches(s, t, who) && Reaches(t, u, who)
    ensures Reaches(s, u, who)
  {
    var p :| Undisturbed(p, who) && p[0] == s && p[|p| - 1] == t;
    var q :| Undisturbed(q, who) && q[0] == t && q[|q| - 1] == u;
    var r := p + q[1..];
    forall i | 0 <= i < |r| - 1
      ensures Goes(r[i], r[i + 1], who)
    {
      if i >= |p| - 1 {
        assert r[i] == q[i - (|p| - 1)] && r[i + 1] == q[i - (|p| - 1) + 1];
      }
    }
    assert Undisturbed(r, who);
  }
}
