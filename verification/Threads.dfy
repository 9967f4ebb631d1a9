/**
 The multi-threaded fill, external/argon2/core.c:335-419: a main thread that creates one thread per
 lane, never keeps more than `threads` of them, and joins them all before the next slice, while the
 created threads construct their blocks at any speed.
 */
module Threads {
  import opened Words
  import opened Layout
  import opened Fill
  import opened Interleaving

  /** The thread of one lane: not created, running with block `index` still to be constructed, or joined. */
  datatype Thread = NotCreated | Running(index: u32) | Joined

  /** Where the main thread is: before a lane of the creation loop, about to create it, in the final joins, done. */
  datatype Main = AtLane(lane: nat) | AtCreate(lane: nat) | AtJoin(lane: nat) | AllJoined

  datatype State = State(rows: Rows, threads: seq<Thread>, main: Main)

  /** One slice to fill: the block construction, the instance, and the memory the slice starts from. */
  datatype Job = Job(next: Construct, inst: Instance, before: Rows, pass: u32, slice: u32)
  {
    ghost predicate Valid() {
      && inst.threads <= inst.lanes
      && ValidSlice(inst, pass, slice)
      && ValidRows(inst, before)
      && Local(next, inst)
    }

    function Start(): u32 {
      StartIndex(pass, slice)
    }

    /** The memory single-threaded filling of this slice leaves. */
    function Sequential(): Rows
      requires ValidSlice(inst, pass, slice) && ValidRows(inst, before)
    {
      Slice(next, inst, before, pass, slice, inst.lanes)
    }
  }

  function Initial(job: Job): State {
    State(job.before, seq(job.inst.lanes, _ => NotCreated), AtLane(0))
  }

  // ----- Steps -----

  /** pthread_join returns: the thread has constructed its last block. */
  ghost predicate JoinStep(job: Job, s: State, t: State, lane: nat, main: Main) {
    && lane < |s.threads|
    && s.threads[lane] == Running(job.inst.segmentLength)
    && t == State(s.rows, s.threads[lane := Joined], main)
  }

  ghost predicate MainStep(job: Job, s: State, t: State)
    requires job.Valid()
  {
    var lanes, threads := job.inst.lanes, job.inst.threads;
    match s.main
    case AtLane(l) =>
      if l >= lanes then t == s.(main := AtJoin(lanes - threads))
      else if l >= threads then JoinStep(job, s, t, l - threads, AtCreate(l))
      else t == s.(main := AtCreate(l))
    case AtCreate(l) =>
      && l < |s.threads|
      && s.threads[l] == NotCreated
      && t == State(s.rows, s.threads[l := Running(job.Start())], AtLane(l + 1))
    case AtJoin(l) =>
      if l >= lanes then t == s.(main := AllJoined)
      else JoinStep(job, s, t, l, AtJoin(l + 1))
    case AllJoined => false
  }

  ghost predicate WorkerStep(job: Job, s: State, t: State, lane: nat)
    requires job.Valid() && ValidRows(job.inst, s.rows)
  {
    && lane < job.inst.lanes && lane < |s.threads|
    && s.threads[lane].Running?
    && job.Start() <= s.threads[lane].index < job.inst.segmentLength
    && t.rows == Step(job.next, job.inst, s.rows, Position(job.pass, lane, job.slice, s.threads[lane].index))
    && t.threads == s.threads[lane := Running(s.threads[lane].index + 1)]
    && t.main == s.main
  }

  ghost predicate NextState(job: Job, s: State, t: State)
    requires job.Valid()
  {
    ValidRows(job.inst, s.rows) && (MainStep(job, s, t) || exists lane :: WorkerStep(job, s, t, lane))
  }

  /** Any finite execution of the slice: every scheduling choice is open. */
  ghost predicate IsRun(job: Job, run: seq<State>)
    requires job.Valid()
  {
    && run != []
    && run[0] == Initial(job)
    && forall i :: 0 <= i < |run| - 1 ==> NextState(job, run[i], run[i + 1])
  }

  function Last(run: seq<State>): State
    requires run != []
  {
    run[|run| - 1]
  }

  // ----- The invariant -----

  function CreatedBelow(job: Job, main: Main): nat {
    match main
    case AtLane(l) => l
    case AtCreate(l) => l
    case AtJoin(_) => job.inst.lanes
    case AllJoined => job.inst.lanes
  }

  function JoinedBelow(job: Job, main: Main): int {
    match main
    case AtLane(l) => if l >= job.inst.threads then l - job.inst.threads else 0
    case AtCreate(l) => if l >= job.inst.threads then l - job.inst.threads + 1 else 0
    case AtJoin(l) => l
    case AllJoined => job.inst.lanes
  }

  predicate MainInRange(job: Job, main: Main) {
    match main
    case AtLane(l) => l <= job.inst.lanes
    case AtCreate(l) => l < job.inst.lanes
    case AtJoin(l) => job.inst.lanes - job.inst.threads <= l <= job.inst.lanes
    case AllJoined => true
  }

  /** The lanes joined so far, then the running ones, then those not created, in lane order. */
  ghost predicate ThreadsMatchMain(job: Job, s: State) {
    && |s.threads| == job.inst.lanes
    && MainInRange(job, s.main)
    && forall l | 0 <= l < |s.threads| ::
         && (s.threads[l].NotCreated? <==> CreatedBelow(job, s.main) <= l)
         && (s.threads[l].Joined? <==> l < JoinedBelow(job, s.main))
         && (s.threads[l].Running? ==> job.Start() <= s.threads[l].index <= job.inst.segmentLength)
  }

  function ThreadProgress(job: Job, thread: Thread): u32 {
    match thread
    case NotCreated => job.Start()
    case Running(index) => index
    case Joined => job.inst.segmentLength
  }

  function ProgressOf(job: Job, threads: seq<Thread>): (p: Progress)
    ensures |p| == |threads|
    ensures forall l :: 0 <= l < |threads| ==> p[l] == ThreadProgress(job, threads[l])
  {
    if threads == [] then []
    else ProgressOf(job, threads[..|threads| - 1]) + [ThreadProgress(job, threads[|threads| - 1])]
  }

  ghost predicate Invariant(job: Job, s: State)
    requires job.Valid()
  {
    && ValidRows(job.inst, s.rows)
    && ThreadsMatchMain(job, s)
    && ValidProgress(job.inst, job.pass, job.slice, ProgressOf(job, s.threads))
    && RowsAsIfAlone(job.next, job.inst, job.before, s.rows, job.pass, job.slice, ProgressOf(job, s.threads))
  }

  lemma InitialInvariant(job: Job)
    requires job.Valid()
    ensures Invariant(job, Initial(job))
  {
    NothingDoneYet(job.next, job.inst, job.before, job.pass, job.slice);
    assert ProgressOf(job, Initial(job).threads) == SequentialProgress(job.inst, job.pass, job.slice, 0);
  }

  /** Joining the next thread, in the create loop or in the join loop. */
  lemma JoinKeepsThreads(job: Job, s: State, t: State, lane: nat, main: Main)
    requires job.Valid() && ThreadsMatchMain(job, s) && JoinStep(job, s, t, lane, main)
    requires lane == JoinedBelow(job, s.main) && JoinedBelow(job, main) == lane + 1
    requires CreatedBelow(job, main) == CreatedBelow(job, s.main) && MainInRange(job, main)
    ensures ThreadsMatchMain(job, t) && t.rows == s.rows && |t.threads| == |s.threads|
    ensures forall l | 0 <= l < |s.threads| :: ThreadProgress(job, t.threads[l]) == ThreadProgress(job, s.threads[l])
  {
  }

  /** Creating the next thread. */
  lemma CreateKeepsThreads(job: Job, s: State, t: State)
    requires job.Valid() && ThreadsMatchMain(job, s) && s.main.AtCreate? && MainStep(job, s, t)
    ensures ThreadsMatchMain(job, t) && t.rows == s.rows && |t.threads| == |s.threads|
    ensures forall l | 0 <= l < |s.threads| :: ThreadProgress(job, t.threads[l]) == ThreadProgress(job, s.threads[l])
  {
  }

  lemma MainStepKeepsThreads(job: Job, s: State, t: State)
    requires job.Valid() && ThreadsMatchMain(job, s) && MainStep(job, s, t)
    ensures ThreadsMatchMain(job, t) && t.rows == s.rows && |t.threads| == |s.threads|
    ensures forall l | 0 <= l < |s.threads| :: ThreadProgress(job, t.threads[l]) == ThreadProgress(job, s.threads[l])
  {
    var lanes, threads := job.inst.lanes, job.inst.threads;
    match s.main
    case AtLane(l) =>
      if threads <= l < lanes {
        JoinKeepsThreads(job, s, t, l - threads, AtCreate(l));
      }
    case AtCreate(_) => CreateKeepsThreads(job, s, t);
    case AtJoin(l) =>
      if l < lanes {
        JoinKeepsThreads(job, s, t, l, AtJoin(l + 1));
      }
  }

  lemma MainStepKeepsInvariant(job: Job, s: State, t: State)
    requires job.Valid() && Invariant(job, s) && MainStep(job, s, t)
    ensures Invariant(job, t)
  {
    MainStepKeepsThreads(job, s, t);
    assert ProgressOf(job, t.threads) == ProgressOf(job, s.threads);
  }

  lemma WorkerStepKeepsInvariant(job: Job, s: State, t: State, lane: nat)
    requires job.Valid() && Invariant(job, s) && WorkerStep(job, s, t, lane)
    ensures Invariant(job, t)
  {
    var progress := ProgressOf(job, s.threads);
    StepKeepsRowsAsIfAlone(job.next, job.inst, job.before, s.rows, job.pass, job.slice, progress, lane);
    assert ProgressOf(job, t.threads) == progress[lane := progress[lane] + 1];
  }

  /** The invariant holds in every state of every run. */
  lemma {:induction false} RunKeepsInvariant(job: Job, run: seq<State>)
    requires job.Valid() && IsRun(job, run)
    ensures forall i :: 0 <= i < |run| ==> Invariant(job, run[i])
  {
    var last := |run| - 1;
    if last == 0 {
      InitialInvariant(job);
    } else {
      var prefix, s, t := run[..last], run[last - 1], run[last];
      RunKeepsInvariant(job, prefix);
      assert s == prefix[last - 1];
      assert NextState(job, run[last - 1], run[last - 1 + 1]);
      if MainStep(job, s, t) {
        MainStepKeepsInvariant(job, s, t);
      } else {
        var lane: nat :| WorkerStep(job, s, t, lane);
        WorkerStepKeepsInvariant(job, s, t, lane);
      }
      forall i | 0 <= i < last
        ensures Invariant(job, run[i])
      {
        assert run[i] == prefix[i];
      }
    }
  }

  // ----- What follows from it -----

  /** However the threads are scheduled, when the main thread leaves the slice the memory is the sequential one. */
  lemma ThreadedSliceIsSequential(job: Job, run: seq<State>)
    requires job.Valid() && IsRun(job, run) && Last(run).main == AllJoined
    ensures Last(run).rows == job.Sequential()
    ensures forall l | 0 <= l < |Last(run).threads| :: Last(run).threads[l] == Joined
    ensures |Last(run).threads| == job.inst.lanes
  {
    RunKeepsInvariant(job, run);
    var s := Last(run);
    FinishedMeansSequential(job.next, job.inst, job.before, s.rows, job.pass, job.slice, ProgressOf(job, s.threads));
  }

  function RunningCount(threads: seq<Thread>): nat {
    if threads == [] then 0
    else RunningCount(threads[..|threads| - 1]) + if threads[|threads| - 1].Running? then 1 else 0
  }

  lemma {:induction false} CountRunning(job: Job, threads: seq<Thread>, joined: nat, created: nat)
    requires joined <= created
    requires forall l | 0 <= l < |threads| :: threads[l].Running? <==> joined <= l < created
    ensures RunningCount(threads)
            == if |threads| <= joined then 0
               else if |threads| <= created then |threads| - joined
               else created - joined
  {
    if threads != [] {
      CountRunning(job, threads[..|threads| - 1], joined, created);
    }
  }

  /** There are never more than `threads` threads alive. */
  lemma ThreadLimit(job: Job, run: seq<State>)
    requires job.Valid() && IsRun(job, run)
    ensures RunningCount(Last(run).threads) <= job.inst.threads
  {
    RunKeepsInvariant(job, run);
    var s := Last(run);
    CountRunning(job, s.threads, JoinedBelow(job, s.main), CreatedBelow(job, s.main));
  }

  ghost predicate CanStep(job: Job, s: State)
    requires job.Valid()
  {
    exists t :: NextState(job, s, t)
  }

  /**
   No run gets stuck: each join is of a thread that was created and not joined before, so it only waits
   for that thread, which can always go on. As a thread is joined at most once and all are joined at the
   end, every lane's thread is joined exactly once.
   */
  lemma NoDeadlock(job: Job, run: seq<State>)
    requires job.Valid() && IsRun(job, run) && Last(run).main != AllJoined
    ensures CanStep(job, Last(run))
  {
    RunKeepsInvariant(job, run);
    var s := Last(run);
    var lanes, threads := job.inst.lanes, job.inst.threads;
    match s.main
    case AtLane(l) =>
      if l >= lanes {
        assert NextState(job, s, s.(main := AtJoin(lanes - threads)));
      } else if l >= threads {
        JoinOrWork(job, s, l - threads, AtCreate(l));
      } else {
        assert NextState(job, s, s.(main := AtCreate(l)));
      }
    case AtCreate(l) =>
      assert NextState(job, s, State(s.rows, s.threads[l := Running(job.Start())], AtLane(l + 1)));
    case AtJoin(l) =>
      if l >= lanes {
        assert NextState(job, s, s.(main := AllJoined));
      } else {
        JoinOrWork(job, s, l, AtJoin(l + 1));
      }
  }

  lemma JoinOrWork(job: Job, s: State, lane: nat, main: Main)
    requires job.Valid() && Invariant(job, s) && lane < job.inst.lanes && s.threads[lane].Running?
    requires forall t :: JoinStep(job, s, t, lane, main) ==> MainStep(job, s, t)
    ensures CanStep(job, s)
  {
    var index := s.threads[lane].index;
    if index == job.inst.segmentLength {
      var t := State(s.rows, s.threads[lane := Joined], main);
      assert JoinStep(job, s, t, lane, main);
      assert NextState(job, s, t);
    } else {
      var t := State(Step(job.next, job.inst, s.rows, Position(job.pass, lane, job.slice, index)),
                     s.threads[lane := Running(index + 1)], s.main);
      assert WorkerStep(job, s, t, lane);
      assert NextState(job, s, t);
    }
  }

  // ----- Every run comes to an end -----

  function BlocksLeft(job: Job, threads: seq<Thread>): int {
    if threads == [] then 0
    else
      BlocksLeft(job, threads[..|threads| - 1]) + job.inst.segmentLength - ThreadProgress(job, threads[|threads| - 1])
  }

  function MainLeft(job: Job, main: Main): int {
    match main
    case AtLane(l) => 2 * (job.inst.lanes - l) + job.inst.threads + 3
    case AtCreate(l) => 2 * (job.inst.lanes - l) + job.inst.threads + 2
    case AtJoin(l) => job.inst.lanes - l + 2
    case AllJoined => 0
  }

  function Left(job: Job, s: State): int {
    MainLeft(job, s.main) + BlocksLeft(job, s.threads)
  }

  lemma {:induction false} BlocksLeftNonnegative(job: Job, threads: seq<Thread>)
    requires forall l | 0 <= l < |threads| :: ThreadProgress(job, threads[l]) <= job.inst.segmentLength
    ensures BlocksLeft(job, threads) >= 0
  {
    if threads != [] {
      BlocksLeftNonnegative(job, threads[..|threads| - 1]);
    }
  }

  lemma {:induction false} BlocksLeftUpdate(job: Job, threads: seq<Thread>, lane: nat, thread: Thread)
    requires lane < |threads|
    ensures BlocksLeft(job, threads[lane := thread])
            == BlocksLeft(job, threads) + ThreadProgress(job, threads[lane]) - ThreadProgress(job, thread)
  {
    var last := |threads| - 1;
    if lane < last {
      BlocksLeftUpdate(job, threads[..last], lane, thread);
      assert threads[lane := thread][..last] == threads[..last][lane := thread];
    } else {
      assert threads[lane := thread][..last] == threads[..last];
    }
  }

  lemma StepDecreasesLeft(job: Job, s: State, t: State)
    requires job.Valid() && Invariant(job, s) && NextState(job, s, t)
    ensures Invariant(job, t) && 0 <= Left(job, t) < Left(job, s)
  {
    if MainStep(job, s, t) {
      MainStepKeepsInvariant(job, s, t);
      MainStepKeepsBlocksLeft(job, s, t);
    } else {
      var lane: nat :| WorkerStep(job, s, t, lane);
      WorkerStepKeepsInvariant(job, s, t, lane);
      BlocksLeftUpdate(job, s.threads, lane, t.threads[lane]);
    }
    BlocksLeftNonnegative(job, t.threads);
  }

  lemma MainStepKeepsBlocksLeft(job: Job, s: State, t: State)
    requires job.Valid() && ThreadsMatchMain(job, s) && MainStep(job, s, t)
    ensures BlocksLeft(job, t.threads) == BlocksLeft(job, s.threads)
    ensures MainLeft(job, t.main) < MainLeft(job, s.main)
  {
    if t.threads != s.threads {
      var lane :| 0 <= lane < |s.threads| && t.threads == s.threads[lane := t.threads[lane]]
                  && ThreadProgress(job, t.threads[lane]) == ThreadProgress(job, s.threads[lane]);
      BlocksLeftUpdate(job, s.threads, lane, t.threads[lane]);
    }
  }

  /** Every unfinished execution can be carried on to its end. */
  lemma Completion(job: Job, run: seq<State>) returns (full: seq<State>)
    requires job.Valid() && IsRun(job, run)
    ensures IsRun(job, full) && Last(full).main == AllJoined
    decreases Left(job, Last(run))
  {
    if Last(run).main == AllJoined {
      return run;
    }
    RunKeepsInvariant(job, run);
    NoDeadlock(job, run);
    var t :| NextState(job, Last(run), t);
    StepDecreasesLeft(job, Last(run), t);
    full := Completion(job, run + [t]);
  }

  // ----- All slices of all passes -----

  /** The memories a threaded slice can leave: the sequential one, and no other. */
  lemma ThreadedSliceOutcome(job: Job, after: Rows)
    requires job.Valid()
    ensures SliceOutcome(job, after) <==> after == job.Sequential()
  {
    if SliceOutcome(job, after) {
      var run: seq<State> :| IsRun(job, run) && Last(run).main == AllJoined && Last(run).rows == after;
      ThreadedSliceIsSequential(job, run);
    }
    if after == job.Sequential() {
      var run := Completion(job, [Initial(job)]);
      ThreadedSliceIsSequential(job, run);
    }
  }

  /** The job of slice number `n`, counted through all passes. */
  function JobOf(g: Compression, inst: Instance, before: Rows, n: nat): Job
    requires n < SYNC_POINTS * inst.passes
  {
    Job(Constructor(g, inst), inst, before, n / SYNC_POINTS, n % SYNC_POINTS)
  }

  ghost predicate SliceOutcome(job: Job, after: Rows)
    requires job.Valid()
  {
    exists run: seq<State> :: IsRun(job, run) && Last(run).main == AllJoined && Last(run).rows == after
  }

  /** Nothing but the shape of the memory is needed for a slice to be such a job. */
  lemma EverySliceIsAJob(g: Compression, inst: Instance, before: Rows, n: nat)
    requires inst.Shaped() && ValidRows(inst, before) && n < SYNC_POINTS * inst.passes
    ensures JobOf(g, inst, before, n).Valid()
  {
    ConstructorIsLocal(g, inst);
  }

  /** The threads can turn one memory into the other in slice number `n`. */
  ghost predicate SliceStep(g: Compression, inst: Instance, before: Rows, after: Rows, n: nat)
    requires inst.Shaped() && ValidRows(inst, before) && n < SYNC_POINTS * inst.passes
  {
    EverySliceIsAJob(g, inst, before, n);
    SliceOutcome(JobOf(g, inst, before, n), after)
  }

  /** Memories at the ends of the first slices of one multi-threaded fill. */
  ghost predicate IsThreadedFill(g: Compression, inst: Instance, memories: seq<Rows>)
    requires inst.Shaped()
  {
    && 1 <= |memories| <= SYNC_POINTS * inst.passes + 1
    && (forall n :: 0 <= n < |memories| ==> ValidRows(inst, memories[n]))
    && forall n :: 0 <= n < |memories| - 1 ==> SliceStep(g, inst, memories[n], memories[n + 1], n)
  }

  /** The next memory is the sequential one, and the sequential one is a next memory. */
  lemma SliceStepIsSequential(g: Compression, inst: Instance, before: Rows, after: Rows, n: nat)
    requires inst.Shaped() && ValidRows(inst, before) && n < SYNC_POINTS * inst.passes
    ensures SliceStep(g, inst, before, after, n)
            <==> after == Slice(Constructor(g, inst), inst, before, n / SYNC_POINTS, n % SYNC_POINTS, inst.lanes)
  {
    EverySliceIsAJob(g, inst, before, n);
    ThreadedSliceOutcome(JobOf(g, inst, before, n), after);
  }

  lemma NextMemory(g: Compression, inst: Instance, memories: seq<Rows>, n: nat)
    requires inst.Shaped() && IsThreadedFill(g, inst, memories) && n < |memories| - 1
    ensures memories[n + 1]
            == Slice(Constructor(g, inst), inst, memories[n], n / SYNC_POINTS, n % SYNC_POINTS, inst.lanes)
  {
    assert SliceStep(g, inst, memories[n], memories[n + 1], n);
    SliceStepIsSequential(g, inst, memories[n], memories[n + 1], n);
  }

  lemma NextSlices(next: Construct, inst: Instance, before: Rows, now: Rows, n: nat)
    requires inst.Shaped() && ValidRows(inst, before) && n < SYNC_POINTS * inst.passes
             && now == Slices(next, inst, before, n)
    ensures Slices(next, inst, before, n + 1) == Slice(next, inst, now, n / SYNC_POINTS, n % SYNC_POINTS, inst.lanes)
  {
  }

  lemma {:induction false} ThreadedSlicesAreSequential(g: Compression, inst: Instance, memories: seq<Rows>, n: nat)
    requires inst.Shaped() && IsThreadedFill(g, inst, memories) && n < |memories|
    ensures memories[n] == Slices(Constructor(g, inst), inst, memories[0], n)
  {
    if n != 0 {
      ThreadedSlicesAreSequential(g, inst, memories, n - 1);
      NextMemory(g, inst, memories, n - 1);
      NextSlices(Constructor(g, inst), inst, memories[0], memories[n - 1], n - 1);
    }
  }

  lemma OneSliceMore(g: Compression, inst: Instance, memories: seq<Rows>, next: Rows)
    requires inst.Shaped() && IsThreadedFill(g, inst, memories) && |memories| <= SYNC_POINTS * inst.passes
             && ValidRows(inst, next)
    requires SliceStep(g, inst, memories[|memories| - 1], next, |memories| - 1)
    ensures IsThreadedFill(g, inst, memories + [next])
  {
    var longer := memories + [next];
    forall n | 0 <= n < |longer| - 1
      ensures SliceStep(g, inst, longer[n], longer[n + 1], n)
    {
      assert n < |memories| - 1 ==> SliceStep(g, inst, memories[n], memories[n + 1], n);
    }
  }

  /** From every memory the threads can go through any number of slices. */
  lemma {:induction false} ThreadedFillExists(g: Compression, inst: Instance, before: Rows, n: nat)
    returns (memories: seq<Rows>)
    requires inst.Shaped() && ValidRows(inst, before) && n <= SYNC_POINTS * inst.passes
    ensures IsThreadedFill(g, inst, memories) && |memories| == n + 1 && memories[0] == before
  {
    if n == 0 {
      memories := [before];
    } else {
      var earlier := ThreadedFillExists(g, inst, before, n - 1);
      var last := earlier[n - 1];
      var next := Slice(Constructor(g, inst), inst, last, (n - 1) / SYNC_POINTS, (n - 1) % SYNC_POINTS, inst.lanes);
      SliceStepIsSequential(g, inst, last, next, n - 1);
      OneSliceMore(g, inst, earlier, next);
      memories := earlier + [next];
    }
  }

  /** A multi-threaded fill of all slices of all passes can lead from one memory to the other. */
  ghost predicate FillOutcome(g: Compression, inst: Instance, before: Rows, after: Rows)
    requires inst.Shaped()
  {
    exists memories: seq<Rows> ::
      && IsThreadedFill(g, inst, memories) && |memories| == SYNC_POINTS * inst.passes + 1
      && memories[0] == before && memories[SYNC_POINTS * inst.passes] == after
  }

  /**
   The number of threads and their scheduling make no difference: a multi-threaded fill has exactly one outcome, the
   memory of the single-threaded fill.
   */
  lemma ThreadedFillIsSequential(g: Compression, inst: Instance, before: Rows, after: Rows)
    requires inst.Shaped() && ValidRows(inst, before)
    ensures FillOutcome(g, inst, before, after) <==> after == Filled(g, inst, before)
  {
    var n := SYNC_POINTS * inst.passes;
    if FillOutcome(g, inst, before, after) {
      var memories: seq<Rows> :|
        IsThreadedFill(g, inst, memories) && |memories| == n + 1 && memories[0] == before && memories[n] == after;
      ThreadedSlicesAreSequential(g, inst, memories, n);
    }
    if after == Filled(g, inst, before) {
      var memories := ThreadedFillExists(g, inst, before, n);
      ThreadedSlicesAreSequential(g, inst, memories, n);
    }
  }
}
