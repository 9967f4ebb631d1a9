/**
 The worker triggers itself (src/core/Worker.hpp:77-82, 143-148): what one trigger and one turn of the pipeline thread
 do when nobody else moves, and that a call of state_machine() that asks for another is followed by one in every fair
 run.
 */
module WorkerAgain {
  import opened Runs
  import opened WorkerSignals

  /** The pipeline thread takes one step from s to t; `again` is the answer of state_machine(). */
  ghost predicate Proceeds(s: State, again: bool, t: State) {
    Enabled(s, Proceed(again)) && t == Next(s, Proceed(again))
  }

  /** A trigger queues one signal if none is queued and the worker is running, and otherwise does nothing. */
  lemma TriggerAlone(s: State)
    ensures var loaded := Next(s, Load);
            if !s.running then loaded == s
            else
              && Enabled(loaded, Exchange)
              && var exchanged := Next(loaded, Exchange);
                 if s.queued then exchanged == s
                 else Enabled(exchanged, Push) && Next(exchanged, Push) == s.(queued := true, pending := s.pending + 1)
  {
  }

  /** A turn of the pipeline thread begins: a signal is taken, the flag cleared, and the machine called once. */
  lemma TurnBegins(s: State, again: bool) returns (a: State, b: State, c: State)
    requires s.pc == Idle && s.pending > 0
    ensures Proceeds(s, again, a) && Proceeds(a, again, b) && Proceeds(b, again, c)
    ensures Proceeds(c, again, s.(pc := Returned(again), pending := s.pending - 1, queued := false,
                                  resets := s.resets + 1, calls := s.calls + 1))
  {
    a := s.(pc := BeforeReset, pending := s.pending - 1);
    b := a.(pc := ResetDone, queued := false, resets := s.resets + 1);
    c := b.(pc := InMachine, calls := s.calls + 1);
  }

  /** If it is not to be called again, that is all. */
  lemma TurnEnds(s: State) returns (a: State)
    requires s.pc == Returned(false)
    ensures Proceeds(s, false, a) && Proceeds(a, false, s.(pc := Idle))
  {
    a := s.(pc := Leaving);
  }

  /**
   If it is, the worker triggers itself: it queues a signal, unless a caller has done so in the meantime or the worker
   is closed.
   */
  lemma TurnRepeats(s: State) returns (a: State, b: State, c: State, d: State)
    requires s.pc == Returned(true)
    ensures Proceeds(s, true, a)
    ensures s.running ==> Proceeds(a, true, b) && (!s.queued ==> Proceeds(b, true, c))
    ensures Proceeds(if !s.running then a else if s.queued then b else c, true, d)
    ensures Proceeds(d, true, if !s.running || s.queued then s.(pc := Idle)
                              else s.(pc := Idle, queued := true, pending := s.pending + 1))
  {
    a, b := s.(pc := SelfLoad), s.(pc := SelfExchange);
    c := s.(pc := SelfPush, queued := true);
    d := if !s.running || s.queued then s.(pc := Leaving)
         else s.(pc := Leaving, queued := true, pending := s.pending + 1);
  }

  /** Whoever else moves, the pipeline thread takes its next step from where it is. */
  lemma {:induction false} StaysAt(state: nat -> State, act: nat -> Action, i: nat, j: nat) returns (t: nat)
    requires IsTrace(state, act) && i <= j && state(i).pc != Idle && Turn(state, act, false, j)
    ensures i <= t <= j && act(t).Proceed? && state(t).pc == state(i).pc
    decreases j - i
  {
    if act(i).Proceed? {
      t := i;
    } else {
      assert StepAt(state, act, i);
      t := StaysAt(state, act, i + 1, j);
    }
  }

  lemma NextStep(state: nat -> State, act: nat -> Action, i: nat) returns (t: nat)
    requires IsTrace(state, act) && Fair(state, act) && state(i).pc != Idle
    ensures i <= t && act(t).Proceed? && state(t).pc == state(i).pc
  {
    assert Eventually(state, act, false, i);
    var j: nat :| i <= j && Turn(state, act, false, j);
    t := StaysAt(state, act, i, j);
  }

  lemma {:induction false} CallsGrow(state: nat -> State, act: nat -> Action, i: nat, j: nat)
    requires IsTrace(state, act) && i <= j
    ensures state(i).calls <= state(j).calls
    decreases j
  {
    if i < j {
      CallsGrow(state, act, i, j - 1);
      assert StepAt(state, act, j - 1);
    }
  }

  /** In every fair run, a call that returned true while the worker stays open is followed by another. */
  lemma AskedIsCalledAgain(state: nat -> State, act: nat -> Action, k: nat) returns (m: nat)
    requires IsTrace(state, act) && Fair(state, act) && state(k).pc == Returned(true)
    requires forall i :: k <= i ==> state(i).running
    ensures k < m && state(m).calls > state(k).calls
  {
    var a := NextStep(state, act, k);
    assert StepAt(state, act, a);
    var b := NextStep(state, act, a + 1);
    assert StepAt(state, act, b);
    var c := NextStep(state, act, b + 1);
    assert StepAt(state, act, c);
    assert Triggers(state(c), state(c + 1));
    m := TriggerIsFollowed(state, act, c);
    CallsGrow(state, act, k, c);
  }

  // ----- A closed worker -----

  /** The calls that can still come of a closed worker: of callers past their look at the flag, and of signals. */
  function Left(s: State): nat {
    s.loaded + One(s.pc == SelfExchange) + OnTheWay(s) + One(s.pc == ResetDone)
  }

  ghost predicate ClosedWith(s: State, calls: nat) {
    !s.running && s.calls + Left(s) <= calls
  }

  lemma ClosedStep(s: State, t: State, calls: nat)
    requires ClosedWith(s, calls) && Step(s, t)
    ensures ClosedWith(t, calls)
  {
    var a :| Enabled(s, a) && t == Next(s, a);
  }

  /** A worker can be closed at any time and stays closed; only what was under way is still called. */
  lemma ClosedEnds(run: seq<State>, k: nat, m: nat)
    requires IsRun(run) && k < m < |run| && run[k + 1] == Next(run[k], Halt)
    ensures !run[m].running && run[m].calls <= run[k].calls + Left(run[k])
  {
    var n := run[k].calls + Left(run[k]);
    forall s, t | ClosedWith(s, n) && Step(s, t)
      ensures ClosedWith(t, n)
    {
      ClosedStep(s, t, n);
    }
    KeptAlong(run, (s, t) => Step(s, t), s => ClosedWith(s, n), k + 1, m);
  }

  // ----- Fair runs -----

  /** One trigger, one turn without another call, and then nothing but the worker being closed. */
  function ActionAt(i: nat): Action {
    if i == 0 then Load else if i == 1 then Exchange else if i == 2 then Push
    else if i <= 8 then Proceed(false) else Halt
  }

  function StateAt(i: nat): State {
    if i == 0 then State(true, false, 0, 0, 0, Idle, 0, 0)
    else if i == 1 then State(true, false, 1, 0, 0, Idle, 0, 0)
    else if i == 2 then State(true, true, 0, 1, 0, Idle, 0, 0)
    else if i == 3 then State(true, true, 0, 0, 1, Idle, 0, 0)
    else if i == 4 then State(true, true, 0, 0, 0, BeforeReset, 0, 0)
    else if i == 5 then State(true, false, 0, 0, 0, ResetDone, 1, 0)
    else if i == 6 then State(true, false, 0, 0, 0, InMachine, 1, 1)
    else if i == 7 then State(true, false, 0, 0, 0, Returned(false), 1, 1)
    else if i == 8 then State(true, false, 0, 0, 0, WorkerSignals.Leaving, 1, 1)
    else State(i == 9, false, 0, 0, 0, Idle, 1, 1)
  }

  predicate Fits(i: nat) {
    Enabled(StateAt(i), ActionAt(i)) && StateAt(i + 1) == Next(StateAt(i), ActionAt(i))
  }

  lemma TriggerFits(i: nat)
    requires i < 3
    ensures Fits(i)
  {
  }

  lemma TurnFits(i: nat)
    requires 3 <= i <= 5
    ensures Fits(i)
  {
  }

  lemma TurnEndFits(i: nat)
    requires 6 <= i <= 8
    ensures Fits(i)
  {
  }

  lemma ClosedFits(i: nat)
    requires 9 <= i
    ensures Fits(i)
  {
  }

  lemma StepsFit(i: nat)
    ensures Fits(i)
  {
    if i < 3 {
      TriggerFits(i);
    } else if i <= 5 {
      TurnFits(i);
    } else if i <= 8 {
      TurnEndFits(i);
    } else {
      ClosedFits(i);
    }
  }

  lemma NobodyWaits(i: nat)
    requires 9 <= i
    ensures !Enabled(StateAt(i), Push) && !Enabled(StateAt(i), Proceed(false))
  {
  }

  /** The premises of the liveness theorems can be met: there is a fair run with a trigger. */
  lemma FairRunExists(state: nat -> State, act: nat -> Action)
    requires (forall i: nat :: state(i) == StateAt(i)) && forall i: nat :: act(i) == ActionAt(i)
    ensures IsTrace(state, act) && Fair(state, act) && Triggers(state(1), state(2))
  {
    forall i: nat
      ensures StepAt(state, act, i)
    {
      StepsFit(i);
    }
    forall i: nat, push: bool
      ensures Eventually(state, act, push, i)
    {
      NobodyWaits(i + 9);
      assert Turn(state, act, push, i + 9);
    }
    StepsFit(1);
  }
}
