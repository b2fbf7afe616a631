// call_once under every fair schedule: all invocations return.
module CallOnceFairness {
  import opened Bits
  import opened CallOnce

  // Which thread moves next, and whether its delay blocks if it is in one.
  datatype Turn = Turn(thread: nat, sleep: bool)

  predicate Leads(s: State, turn: Turn, s': State)
  {
    turn.thread < |s.threads| && s' == Step(s, turn.thread, turn.sleep)
  }

  // An execution of n invocations that goes on for ever; threads that have returned do nothing.
  ghost predicate IsExecution(n: nat, turns: nat -> Turn, states: nat -> State)
  {
    states(0) == Initial(n) && forall i: nat :: Leads(states(i), turns(i), states(i + 1))
  }

  lemma {:induction false} Reaches(n: nat, turns: nat -> Turn, states: nat -> State, i: nat)
    requires IsExecution(n, turns, states)
    ensures Inv(states(i)) && |states(i).threads| == n
  {
    if i == 0 {
      InitialInv(n);
    } else {
      Reaches(n, turns, states, i - 1);
      assert Leads(states(i - 1), turns(i - 1), states(i - 1 + 1));
      StepKeepsInv(states(i - 1), turns(i - 1).thread, turns(i - 1).sleep);
    }
  }

  // A thread with nothing to do for now: it has returned, it sleeps, or it waits for the runner.
  predicate Rests(s: State, t: nat)
  {
    t < |s.threads| &&
    (|| s.threads[t].Returned?
     || s.threads[t].Asleep?
     || (s.control == ONCE_WAITER && (s.threads[t].Waiting? || s.threads[t].Delaying?)))
  }

  // Turn j is one of thread t, or finds it with nothing to do.
  ghost predicate Served(turns: nat -> Turn, states: nat -> State, t: nat, j: nat)
  {
    turns(j).thread == t || Rests(states(j), t)
  }

  ghost predicate ServedFrom(turns: nat -> Turn, states: nat -> State, t: nat, i: nat)
  {
    exists j: nat :: i <= j && Served(turns, states, t, j)
  }

  // A thread that has something to do from some turn on gets a turn again. Nothing is asked for
  // threads that have returned, for sleepers, which may wait for the wake-up, or for those that wait
  // while the callable runs. Delays may block wherever they are allowed to.
  ghost predicate Fair(n: nat, turns: nat -> Turn, states: nat -> State)
  {
    forall t: nat, i: nat :: t < n ==> ServedFrom(turns, states, t, i)
  }

  // ----- The next turn of a thread -----

  // From s to s' the thread t has not moved, no work was done and the word is the same.
  ghost predicate Still(s: State, s': State, t: nat)
  {
    && t < |s.threads| && t < |s'.threads| && s'.threads[t] == s.threads[t]
    && Measure(s') == Measure(s) && s'.control == s.control
  }

  // The turn of another thread.
  lemma OthersTurn(s: State, turn: Turn, s': State, t: nat)
    requires Inv(s) && Leads(s, turn, s') && t < |s.threads| && t != turn.thread && !Rests(s, t)
    ensures Measure(s') < Measure(s) || (Still(s, s', t) && !Rests(s', t))
  {
    StepMeasure(s, turn.thread, turn.sleep);
    StepWeight(s, turn.thread, turn.sleep);
    TableMatch(s.control);
  }

  lemma StillTwice(s: State, s1: State, s2: State, t: nat)
    requires Still(s, s1, t) && (Measure(s2) < Measure(s1) || Still(s1, s2, t))
    ensures Measure(s2) < Measure(s) || Still(s, s2, t)
  {
  }

  // A thread with something to do is still there at its next turn, unless work was done before.
  lemma {:induction false} NextTurn(n: nat, turns: nat -> Turn, states: nat -> State, t: nat, i: nat, j: nat)
    returns (k: nat)
    requires IsExecution(n, turns, states) && t < n && i <= j && Served(turns, states, t, j)
    requires !Rests(states(i), t)
    ensures k >= i
    ensures Measure(states(k)) < Measure(states(i)) || (turns(k).thread == t && Still(states(i), states(k), t))
    decreases j - i
  {
    Reaches(n, turns, states, i);
    k := i;
    if turns(i).thread != t {
      OthersTurn(states(i), turns(i), states(i + 1), t);
      k := i + 1;
      if Still(states(i), states(i + 1), t) && !Rests(states(i + 1), t) {
        k := NextTurn(n, turns, states, t, i + 1, j);
        StillTwice(states(i), states(i + 1), states(k), t);
      }
    }
  }

  // Fairness gives every thread with something to do its next turn.
  lemma Turned(n: nat, turns: nat -> Turn, states: nat -> State, t: nat, i: nat) returns (k: nat)
    requires IsExecution(n, turns, states) && Fair(n, turns, states) && t < n && !Rests(states(i), t)
    ensures k >= i
    ensures Measure(states(k)) < Measure(states(i)) || (turns(k).thread == t && Still(states(i), states(k), t))
  {
    assert ServedFrom(turns, states, t, i);
    var j: nat :| i <= j && Served(turns, states, t, j);
    k := NextTurn(n, turns, states, t, i, j);
  }

  // ----- Progress -----

  // A thread whose turn is to do work.
  predicate Works(s: State, t: nat)
  {
    t < |s.threads| && !Idle(s, t)
  }

  lemma WorkTurn(s: State, s1: State, turn: Turn, s2: State)
    requires Inv(s1) && Works(s, turn.thread) && Still(s, s1, turn.thread) && Leads(s1, turn, s2)
    ensures Measure(s2) < Measure(s)
  {
    StepMeasure(s1, turn.thread, turn.sleep);
  }

  lemma WorkGetsDone(n: nat, turns: nat -> Turn, states: nat -> State, t: nat, i: nat) returns (k: nat)
    requires IsExecution(n, turns, states) && Fair(n, turns, states) && t < n && Works(states(i), t)
    ensures k > i && Measure(states(k)) < Measure(states(i))
  {
    k := Turned(n, turns, states, t, i);
    if turns(k).thread == t && Still(states(i), states(k), t) {
      Reaches(n, turns, states, k);
      WorkTurn(states(i), states(k), turns(k), states(k + 1));
      k := k + 1;
    }
  }

  // A delay after which the thread could work: the word no longer has the value observed, so that
  // the next turn of the thread ends the delay.
  ghost predicate DelayIsOver(s: State, t: nat)
  {
    t < |s.threads| && s.threads[t].Delaying? && !Idle(Step(s, t, false), t)
  }

  lemma DelayTurn(s: State, s1: State, turn: Turn, s2: State)
    requires Inv(s) && Inv(s1) && DelayIsOver(s, turn.thread)
    requires Still(s, s1, turn.thread) && Leads(s1, turn, s2)
    ensures Works(s2, turn.thread) && Measure(s2) <= Measure(s)
  {
    assert ThreadInv(s, s.threads[turn.thread]);
    StepMeasure(s1, turn.thread, turn.sleep);
  }

  lemma DelayedIsBusy(s: State, t: nat)
    requires Inv(s) && DelayIsOver(s, t)
    ensures !Rests(s, t)
  {
    assert ThreadInv(s, s.threads[t]);
  }

  lemma DelayEnds(n: nat, turns: nat -> Turn, states: nat -> State, t: nat, i: nat) returns (k: nat)
    requires IsExecution(n, turns, states) && Fair(n, turns, states) && t < n && DelayIsOver(states(i), t)
    ensures k > i && Measure(states(k)) < Measure(states(i))
  {
    Reaches(n, turns, states, i);
    DelayedIsBusy(states(i), t);
    k := Turned(n, turns, states, t, i);
    if turns(k).thread == t && Still(states(i), states(k), t) {
      Reaches(n, turns, states, k);
      DelayTurn(states(i), states(k), turns(k), states(k + 1));
      k := WorkGetsDone(n, turns, states, t, k + 1);
    }
  }

  // While somebody has not returned, the work left is reduced some turns later.
  lemma Progresses(n: nat, turns: nat -> Turn, states: nat -> State, i: nat) returns (k: nat)
    requires IsExecution(n, turns, states) && Fair(n, turns, states) && !AllReturned(states(i))
    ensures k > i && Measure(states(k)) < Measure(states(i))
  {
    Reaches(n, turns, states, i);
    var t := SomeoneCanWork(states(i));
    if Works(states(i), t) {
      k := WorkGetsDone(n, turns, states, t, i);
    } else {
      k := DelayEnds(n, turns, states, t, i);
    }
  }

  // ----- All return -----

  lemma {:induction false} ReturnsFrom(n: nat, turns: nat -> Turn, states: nat -> State, i: nat) returns (k: nat)
    requires IsExecution(n, turns, states) && Fair(n, turns, states)
    ensures k >= i && AllReturned(states(k))
    decreases Measure(states(i))
  {
    k := i;
    if !AllReturned(states(i)) {
      k := Progresses(n, turns, states, i);
      k := ReturnsFrom(n, turns, states, k);
    }
  }

  // In every fair execution of any number of invocations there comes a state in which all have
  // returned, and then the callable was started and finished once and the word is Done.
  lemma AllReturn(n: nat, turns: nat -> Turn, states: nat -> State) returns (k: nat)
    requires n > 0 && IsExecution(n, turns, states) && Fair(n, turns, states)
    ensures AllReturned(states(k)) && states(k).control == ONCE_DONE
    ensures states(k).started == 1 && states(k).finished == 1
  {
    k := ReturnsFrom(n, turns, states, 0);
    Reaches(n, turns, states, k);
    assert states(k).threads[0].Returned?;
    assert ThreadInv(states(k), states(k).threads[0]);
  }

  // ----- Executions and runs -----

  // The beginning of an execution is a run of the protocol.
  lemma ExecutionIsRun(n: nat, turns: nat -> Turn, states: nat -> State, m: nat) returns (run: seq<State>)
    requires IsExecution(n, turns, states)
    ensures |run| == m + 1 && IsRun(run, n)
    ensures forall i :: 0 <= i <= m ==> run[i] == states(i)
  {
    run := seq(m + 1, i requires 0 <= i <= m => states(i));
    forall i | 0 <= i < m
      ensures Next(run[i], run[i + 1])
    {
      assert Leads(states(i), turns(i), states(i + 1));
      assert run[i + 1] == Step(run[i], turns(i).thread, turns(i).sleep);
    }
  }

  // The state after i turns.
  function After(n: nat, turns: nat -> Turn, i: nat): (s: State)
    requires forall j: nat :: turns(j).thread < n
    ensures |s.threads| == n
  {
    if i == 0 then Initial(n)
    else Step(After(n, turns, i - 1), turns(i - 1).thread, turns(i - 1).sleep)
  }

  // Every list of turns has its execution.
  lemma ExecutionExists(n: nat, turns: nat -> Turn) returns (states: nat -> State)
    requires forall j: nat :: turns(j).thread < n
    ensures IsExecution(n, turns, states)
  {
    states := (i: nat) => After(n, turns, i);
    forall i: nat
      ensures Leads(states(i), turns(i), states(i + 1))
    {
      assert states(i + 1) == After(n, turns, i + 1);
    }
  }

  // Taking turns in a circle is fair.
  lemma RoundRobinIsFair(n: nat, turns: nat -> Turn, states: nat -> State)
    requires n > 0 && forall i: nat :: turns(i).thread == i % n
    ensures Fair(n, turns, states)
  {
    forall t: nat, i: nat | t < n
      ensures ServedFrom(turns, states, t, i)
    {
      AtLeastFactor(i, n);
      var j: nat := i * n + t;
      DivModUnique(j, n, i, t);
      assert Served(turns, states, t, j);
    }
  }

  lemma AtLeastFactor(i: nat, n: nat)
    requires n > 0
    ensures i * n >= i
  {
    MulAtMost(1, n, i);
  }

  // ----- One call after the other -----

  // Six turns for each invocation, the last one gets all that follow.
  ghost predicate IsSequential(n: nat, turns: nat -> Turn)
  {
    n > 0 && forall i: nat :: turns(i).thread == if i / 6 < n then i / 6 else n - 1
  }

  // Others do not move a thread that is awake, and nothing moves one that has returned.
  lemma KeepsPlace(s: State, turn: Turn, s': State, t: nat)
    requires Leads(s, turn, s') && t < |s.threads| && t < |s'.threads|
    requires s.threads[t].Returned? || (turn.thread != t && !s.threads[t].Asleep?)
    ensures s'.threads[t] == s.threads[t]
  {
  }

  lemma {:induction false} NotStarted(n: nat, turns: nat -> Turn, states: nat -> State, t: nat, i: nat)
    requires IsExecution(n, turns, states) && t < n && forall j: nat :: j < i ==> turns(j).thread != t
    ensures t < |states(i).threads| && states(i).threads[t] == FastLoad
  {
    if i > 0 {
      NotStarted(n, turns, states, t, i - 1);
      Reaches(n, turns, states, i);
      KeepsPlace(states(i - 1), turns(i - 1), states(i - 1 + 1), t);
    }
  }

  ghost predicate HasReturned(s: State, t: nat)
  {
    t < |s.threads| && s.threads[t].Returned?
  }

  lemma {:induction false} StaysReturned(n: nat, turns: nat -> Turn, states: nat -> State, t: nat, i: nat, j: nat)
    requires IsExecution(n, turns, states) && i <= j && t < n && HasReturned(states(i), t)
    ensures HasReturned(states(j), t)
    decreases j
  {
    if i < j {
      StaysReturned(n, turns, states, t, i, j - 1);
      Reaches(n, turns, states, j);
      KeepsPlace(states(j - 1), turns(j - 1), states(j - 1 + 1), t);
    }
  }

  // Thread 0 stands at pc and the word has the given value.
  predicate Stands(s: State, pc: Pc, control: nat)
  {
    |s.threads| > 0 && s.threads[0] == pc && s.control == control
  }

  // Alone, it starts, runs the callable and returns.
  lemma AloneTurn(s: State, turn: Turn, s': State)
    requires Leads(s, turn, s') && turn.thread == 0
    ensures Stands(s, FastLoad, ONCE_INIT) ==> Stands(s', CheckLoad, ONCE_INIT)
    ensures Stands(s, CheckLoad, ONCE_INIT) ==> Stands(s', TryStart, ONCE_INIT)
    ensures Stands(s, TryStart, ONCE_INIT) ==> Stands(s', Chosen, ONCE_RUNNING)
    ensures Stands(s, Chosen, ONCE_RUNNING) ==> Stands(s', Invoking, ONCE_RUNNING)
    ensures Stands(s, Invoking, ONCE_RUNNING) ==> Stands(s', Finishing, ONCE_RUNNING)
    ensures Stands(s, Finishing, ONCE_RUNNING) ==> Stands(s', Returned, ONCE_DONE)
  {
  }

  // The first invocation returns with its sixth turn.
  lemma FirstReturns(n: nat, turns: nat -> Turn, states: nat -> State)
    requires IsExecution(n, turns, states) && IsSequential(n, turns)
    ensures HasReturned(states(6), 0)
  {
    assert Stands(states(0), FastLoad, ONCE_INIT);
    AloneTurn(states(0), turns(0), states(0 + 1));
    AloneTurn(states(1), turns(1), states(1 + 1));
    AloneTurn(states(2), turns(2), states(2 + 1));
    AloneTurn(states(3), turns(3), states(3 + 1));
    AloneTurn(states(4), turns(4), states(4 + 1));
    AloneTurn(states(5), turns(5), states(5 + 1));
  }

  // Every other one finds the word Done and returns with its first turn.
  lemma LaterReturns(n: nat, turns: nat -> Turn, states: nat -> State, t: nat)
    requires IsExecution(n, turns, states) && IsSequential(n, turns) && 0 < t < n
    ensures HasReturned(states(6 * t + 1), t)
  {
    var i := 6 * t;
    FirstReturns(n, turns, states);
    StaysReturned(n, turns, states, 0, 6, i);
    Reaches(n, turns, states, i);
    assert ThreadInv(states(i), states(i).threads[0]);
    NotStarted(n, turns, states, t, i);
    assert turns(i).thread == t && Leads(states(i), turns(i), states(i + 1));
  }

  // Calls made one after the other form a fair execution, although no turn is given to a call that
  // has returned once another one has begun.
  lemma SequentialIsFair(n: nat, turns: nat -> Turn, states: nat -> State)
    requires IsExecution(n, turns, states) && IsSequential(n, turns)
    ensures Fair(n, turns, states)
  {
    forall t: nat, i: nat | t < n
      ensures ServedFrom(turns, states, t, i)
    {
      var j := 6 * t + 6 + i;
      if t == 0 {
        FirstReturns(n, turns, states);
        StaysReturned(n, turns, states, t, 6, j);
      } else {
        LaterReturns(n, turns, states, t);
        StaysReturned(n, turns, states, t, 6 * t + 1, j);
      }
      assert Served(turns, states, t, j);
    }
  }
}
