/**
 The coalescing of state machine signals in src/core/Worker.hpp:62-71, 77-82 and 143-148. Any number of threads call
 trigger(); one pipeline thread receives the signals and runs do_work(). One step is one access to a flag, one push, one
 reception, or the start or end of state_machine().
 */
module WorkerSignals {
  import opened Runs

  /** Where the pipeline thread is. */
  datatype Pc =
    | Idle
    | BeforeReset               // signal received, state_machine_queued_ not yet stored false
    | ResetDone                 // about to call state_machine()
    | InMachine
    | Returned(again: bool)
    | SelfLoad                  // repeat(true): trigger() from here on
    | SelfExchange
    | SelfPush
    | Leaving                   // about to note the time and return

  datatype State = State(
    running: bool,              // running_
    queued: bool,               // state_machine_queued_
    loaded: nat,                // callers that saw running_ set and are about to exchange
    pushing: nat,               // callers that found the flag clear and are about to push
    pending: nat,               // signals in the pipeline
    pc: Pc,
    resets: nat,                // how often the flag was stored false
    calls: nat)                 // how often state_machine() was begun

  predicate Initial(s: State) {
    s == State(true, false, 0, 0, 0, Idle, 0, 0)
  }

  datatype Action =
    | Load                      // a caller loads running_
    | Exchange                  // a caller exchanges the flag
    | Push                      // a caller pushes the signal
    | Proceed(again: bool)      // the pipeline thread goes on; `again` is what state_machine() returns
    | Halt                      // running_ is cleared

  predicate Enabled(s: State, a: Action) {
    match a
    case Load => true
    case Exchange => s.loaded > 0
    case Push => s.pushing > 0
    case Proceed(_) => s.pc == Idle ==> s.pending > 0
    case Halt => true
  }

  function Next(s: State, a: Action): State
    requires Enabled(s, a)
  {
    match a
    case Load => if s.running then s.(loaded := s.loaded + 1) else s
    case Exchange =>
      s.(loaded := s.loaded - 1, queued := true, pushing := if s.queued then s.pushing else s.pushing + 1)
    case Push => s.(pushing := s.pushing - 1, pending := s.pending + 1)
    case Halt => s.(running := false)
    case Proceed(again) => (
      match s.pc
      case Idle => s.(pc := BeforeReset, pending := s.pending - 1)
      case BeforeReset => s.(pc := ResetDone, queued := false, resets := s.resets + 1)
      case ResetDone => s.(pc := InMachine, calls := s.calls + 1)
      case InMachine => s.(pc := Returned(again))
      case Returned(again) => s.(pc := if again then SelfLoad else Leaving)
      case SelfLoad => s.(pc := if s.running then SelfExchange else Leaving)
      case SelfExchange => s.(pc := if s.queued then Leaving else SelfPush, queued := true)
      case SelfPush => s.(pc := Leaving, pending := s.pending + 1)
      case Leaving => s.(pc := Idle))
  }

  ghost predicate Step(s: State, t: State) {
    exists a :: Enabled(s, a) && t == Next(s, a)
  }

  ghost predicate IsRun(run: seq<State>) {
    run != [] && Initial(run[0]) && forall i :: 0 <= i < |run| - 1 ==> Step(run[i], run[i + 1])
  }

  function One(b: bool): nat {
    if b then 1 else 0
  }

  /** Signals on their way: being pushed, in the pipeline, or received and not yet acted upon. */
  function OnTheWay(s: State): nat {
    s.pushing + One(s.pc == SelfPush) + s.pending + One(s.pc == BeforeReset)
  }

  predicate Invariant(s: State) {
    OnTheWay(s) == One(s.queued) && s.resets == s.calls + One(s.pc == ResetDone)
  }

  lemma StepKeeps(s: State, t: State)
    requires Invariant(s) && Step(s, t)
    ensures Invariant(t)
  {
    var a :| Enabled(s, a) && t == Next(s, a);
  }

  /** In every run exactly one signal is on its way while the flag is set, and none while it is clear. */
  lemma OneSignalOnTheWay(run: seq<State>, k: nat)
    requires IsRun(run) && k < |run|
    ensures Invariant(run[k])
  {
    forall s, t | Invariant(s) && Step(s, t)
      ensures Invariant(t)
    {
      StepKeeps(s, t);
    }
    KeptAlong(run, (s, t) => Step(s, t), s => Invariant(s), 0, k);
  }

  // ----- Every trigger is followed by a call -----

  /** The flag has been exchanged by a caller, or by the pipeline thread itself, in the step from s to t. */
  ghost predicate Triggers(s: State, t: State) {
    || (Enabled(s, Exchange) && t == Next(s, Exchange))
    || (s.pc == SelfExchange && t == Next(s, Proceed(false)))
  }

  /** Since `resets` resets, the flag is still set or has been reset for a later call. */
  predicate Owed(s: State, resets: nat) {
    Invariant(s) && s.resets >= resets && (s.queued || s.resets > resets)
  }

  lemma OwedStays(s: State, t: State, resets: nat)
    requires Owed(s, resets) && Step(s, t)
    ensures Owed(t, resets)
  {
    StepKeeps(s, t);
    var a :| Enabled(s, a) && t == Next(s, a);
  }

  /**
   A trigger made while running is never lost: at any time after it, a call of state_machine() has begun that was
   prepared after it, or one is prepared, or the one signal is on its way.
   */
  lemma TriggerIsNotLost(run: seq<State>, k: nat, m: nat)
    requires IsRun(run) && k + 1 <= m < |run| && Triggers(run[k], run[k + 1])
    ensures run[m].calls > run[k].resets || (run[m].resets > run[k].resets && run[m].pc == ResetDone)
            || (run[m].queued && OnTheWay(run[m]) == 1)
  {
    var n := run[k].resets;
    OneSignalOnTheWay(run, k + 1);
    forall s, t | Owed(s, n) && Step(s, t)
      ensures Owed(t, n)
    {
      OwedStays(s, t, n);
    }
    KeptAlong(run, (s, t) => Step(s, t), s => Owed(s, n), k + 1, m);
  }

  /** If everything has come to rest, a call began after the trigger and is over. */
  lemma TriggerIsFollowedAtRest(run: seq<State>, k: nat, m: nat)
    requires IsRun(run) && k + 1 <= m < |run| && Triggers(run[k], run[k + 1])
    requires run[m].pc == Idle && run[m].pending == 0 && run[m].pushing == 0
    ensures run[m].calls > run[k].resets && !run[m].queued
  {
    TriggerIsNotLost(run, k, m);
    OneSignalOnTheWay(run, m);
  }

  // ----- And the call begins, if every thread goes on -----

  /** How far the pipeline thread is from receiving the next signal. */
  function ToIdle(pc: Pc): nat {
    match pc
    case Idle => 0
    case Leaving => 1
    case SelfPush => 2
    case SelfExchange => 3
    case SelfLoad => 4
    case Returned(_) => 5
    case InMachine => 6
    case ResetDone => 7
    case BeforeReset => 8
  }

  /** How far the call owed since `resets` resets is from its beginning; 0 when it has begun. */
  function Distance(s: State, resets: nat): nat {
    if s.calls > resets then 0
    else if s.resets > resets then 1
    else if s.pc == BeforeReset then 2
    else if s.pending > 0 then 3 + ToIdle(s.pc)
    else 20
  }

  /** The thread whose next step brings it closer. */
  function Helpful(s: State, resets: nat): Action {
    if s.pushing > 0 && s.resets == resets then Push else Proceed(false)
  }

  /** Whoever moves, the call does not get further away, and the same thread stays helpful until it has moved. */
  lemma CallApproaches(s: State, a: Action, resets: nat)
    requires Owed(s, resets) && Enabled(s, a) && Distance(s, resets) > 0
    ensures var t := Next(s, a);
            && Distance(t, resets) <= Distance(s, resets)
            && (Distance(t, resets) == Distance(s, resets) ==> Helpful(t, resets) == Helpful(s, resets))
  {
  }

  /** The helpful thread can move, whatever state_machine() returns, and brings the call closer. */
  lemma HelpfulHelps(s: State, resets: nat, again: bool)
    requires Owed(s, resets) && Distance(s, resets) > 0
    ensures var a := if Helpful(s, resets) == Push then Push else Proceed(again);
            Enabled(s, a) && Distance(Next(s, a), resets) < Distance(s, resets)
  {
  }

  // ----- Composed along an infinite run -----

  /** An infinite run: the states and the steps between them. */
  ghost predicate StepAt(state: nat -> State, act: nat -> Action, i: nat) {
    Enabled(state(i), act(i)) && state(i + 1) == Next(state(i), act(i))
  }

  ghost predicate IsTrace(state: nat -> State, act: nat -> Action) {
    Initial(state(0)) && forall i: nat :: StepAt(state, act, i)
  }

  /** It is the helpful thread's turn, or it has nothing to do. */
  ghost predicate Turn(state: nat -> State, act: nat -> Action, push: bool, j: nat) {
    if push then act(j).Push? || !Enabled(state(j), Push)
    else act(j).Proceed? || !Enabled(state(j), Proceed(false))
  }

  /** No thread that can go on is passed over for ever: neither the callers that push nor the pipeline thread. */
  ghost predicate Fair(state: nat -> State, act: nat -> Action) {
    forall i: nat, push: bool :: Eventually(state, act, push, i)
  }

  ghost predicate Eventually(state: nat -> State, act: nat -> Action, push: bool, i: nat) {
    exists j: nat :: i <= j && Turn(state, act, push, j)
  }

  lemma {:induction false} TraceKeeps(state: nat -> State, act: nat -> Action, i: nat)
    requires IsTrace(state, act)
    ensures Invariant(state(i))
  {
    if i != 0 {
      TraceKeeps(state, act, i - 1);
      assert StepAt(state, act, i - 1);
      StepKeeps(state(i - 1), state(i));
    }
  }

  /** Until the call comes closer, it stays the same thread's turn that would bring it closer. */
  lemma {:induction false} StaysHelpful(state: nat -> State, act: nat -> Action, n: nat, i: nat, j: nat)
    returns (t: nat)
    requires IsTrace(state, act) && Owed(state(i), n) && Distance(state(i), n) > 0 && i <= j
    ensures i <= t <= j && Owed(state(t), n)
    ensures Distance(state(t), n) < Distance(state(i), n)
            || (t == j && Distance(state(t), n) == Distance(state(i), n)
                && Helpful(state(t), n) == Helpful(state(i), n))
    decreases j
  {
    if i == j {
      return i;
    }
    t := StaysHelpful(state, act, n, i, j - 1);
    if Distance(state(t), n) == Distance(state(i), n) {
      assert StepAt(state, act, t);
      CallApproaches(state(t), act(t), n);
      OwedStays(state(t), state(t + 1), n);
      t := t + 1;
    }
  }

  lemma {:induction false} CallBegins(state: nat -> State, act: nat -> Action, n: nat, i: nat) returns (m: nat)
    requires IsTrace(state, act) && Fair(state, act) && Owed(state(i), n)
    ensures i <= m && state(m).calls > n
    decreases Distance(state(i), n)
  {
    if Distance(state(i), n) == 0 {
      return i;
    }
    var push := Helpful(state(i), n).Push?;
    assert Eventually(state, act, push, i);
    var j: nat :| i <= j && Turn(state, act, push, j);
    var t := StaysHelpful(state, act, n, i, j);
    if Distance(state(t), n) == Distance(state(i), n) {
      var again := act(j).Proceed? && act(j).again;
      HelpfulHelps(state(j), n, false);
      HelpfulHelps(state(j), n, again);
      assert StepAt(state, act, j);
      OwedStays(state(j), state(j + 1), n);
      t := j + 1;
    }
    m := CallBegins(state, act, n, t);
  }

  /**
   In every run in which the threads are scheduled fairly, a trigger made while running is followed by a call of
   state_machine() that begins after it.
   */
  lemma TriggerIsFollowed(state: nat -> State, act: nat -> Action, k: nat) returns (m: nat)
    requires IsTrace(state, act) && Fair(state, act) && Triggers(state(k), state(k + 1))
    ensures k < m && state(m).calls > state(k).resets >= state(k).calls
  {
    TraceKeeps(state, act, k);
    TraceKeeps(state, act, k + 1);
    m := CallBegins(state, act, state(k).resets, k + 1);
  }
}
