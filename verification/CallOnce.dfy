// absl::call_once (absl/base/call_once.h) as a protocol between any number of threads over
// one atomic control word. Every atomic operation is one step of one thread; the wait and
// wake primitives follow their documentation in absl/base/internal/spinlock_wait.h.
module CallOnce {

  const ONCE_INIT: nat := 0
  const ONCE_RUNNING: nat := 0x65C2937B
  const ONCE_WAITER: nat := 0x05A308D2
  const ONCE_DONE: nat := 221

  // ----- The transition table given to SpinLockWait -----

  datatype Transition = Transition(from: nat, to: nat, done: bool)

  const TRANS: seq<Transition> := [
    Transition(ONCE_INIT, ONCE_RUNNING, true),
    Transition(ONCE_RUNNING, ONCE_WAITER, false),
    Transition(ONCE_DONE, ONCE_DONE, true)
  ]

  // Index of the first entry at or after i whose `from` is v; |trans| when there is none.
  function FirstMatch(trans: seq<Transition>, i: nat, v: nat): (j: nat)
    requires i <= |trans|
    ensures i <= j <= |trans|
    ensures forall k :: i <= k < j ==> trans[k].from != v
    ensures j < |trans| ==> trans[j].from == v
    decreases |trans| - i
  {
    if i == |trans| || trans[i].from == v then i else FirstMatch(trans, i + 1, v)
  }

  // ----- Threads -----

  // Where one invocation of call_once stands.
  datatype Pc =
    | FastLoad                  // about to load the word in call_once
    | CheckLoad                 // slow path, about to load the word for the sanity check
    | Crashed                   // the sanity check met an undeclared value
    | TryStart                  // about to compare-exchange Init for Running
    | Waiting                   // inside SpinLockWait, about to look at the word
    | Delaying(observed: nat)   // inside SpinLockDelay with the value that matched no entry
    | Asleep                    // blocked until woken
    | Chosen                    // about to invoke the callable
    | Invoking                  // the callable is running
    | Finishing                 // about to exchange in Done
    | Waking                    // about to wake all sleepers
    | Returned

  datatype State = State(control: nat, threads: seq<Pc>, started: nat, finished: nat)

  predicate Runner(pc: Pc)
  {
    pc.Chosen? || pc.Invoking? || pc.Finishing?
  }

  // The thread moves to `pc`, the word becomes `control`.
  function Move(s: State, t: nat, control: nat, pc: Pc): State
    requires t < |s.threads|
  {
    s.(control := control, threads := s.threads[t := pc])
  }

  // One look at the word by SpinLockWait: a matching entry is applied atomically.
  function LookStep(s: State, t: nat): State
    requires t < |s.threads|
  {
    var i := FirstMatch(TRANS, 0, s.control);
    if i == |TRANS| then Move(s, t, s.control, Delaying(s.control))
    else if !TRANS[i].done then Move(s, t, TRANS[i].to, Waiting)
    else if s.control == ONCE_INIT then Move(s, t, TRANS[i].to, Chosen)
    else Move(s, t, TRANS[i].to, Returned)
  }

  function WakeAll(threads: seq<Pc>): (r: seq<Pc>)
    ensures |r| == |threads|
    ensures forall i :: 0 <= i < |r| ==> r[i] == if threads[i].Asleep? then Waiting else threads[i]
  {
    seq(|threads|, i requires 0 <= i < |threads| => if threads[i].Asleep? then Waiting else threads[i])
  }

  // The step of thread t. `sleep` decides whether a delay blocks, which it may do only while the
  // word still has the value that was observed. A sleeper may also wake by itself.
  function Step(s: State, t: nat, sleep: bool): State
    requires t < |s.threads|
  {
    match s.threads[t]
    case FastLoad => Move(s, t, s.control, if s.control != ONCE_DONE then CheckLoad else Returned)
    case CheckLoad =>
      Move(s, t, s.control, if s.control in {ONCE_INIT, ONCE_RUNNING, ONCE_WAITER, ONCE_DONE} then TryStart else Crashed)
    case TryStart =>
      if s.control == ONCE_INIT then Move(s, t, ONCE_RUNNING, Chosen) else Move(s, t, s.control, Waiting)
    case Waiting => LookStep(s, t)
    case Delaying(v) => Move(s, t, s.control, if sleep && s.control == v then Asleep else Waiting)
    case Asleep => Move(s, t, s.control, Waiting)
    case Chosen => Move(s, t, s.control, Invoking).(started := s.started + 1)
    case Invoking => Move(s, t, s.control, Finishing).(finished := s.finished + 1)
    case Finishing => Move(s, t, ONCE_DONE, if s.control == ONCE_WAITER then Waking else Returned)
    case Waking => Move(s.(threads := WakeAll(s.threads)), t, s.control, Returned)
    case Crashed => s
    case Returned => s
  }

  predicate Next(s: State, s': State)
  {
    exists t: nat, sleep: bool :: t < |s.threads| && s' == Step(s, t, sleep)
  }

  // A zero-initialised flag with n invocations about to begin.
  function Initial(n: nat): State
  {
    State(ONCE_INIT, seq(n, _ => FastLoad), 0, 0)
  }

  ghost predicate IsRun(run: seq<State>, n: nat)
  {
    && |run| > 0
    && run[0] == Initial(n)
    && forall i :: 0 <= i < |run| - 1 ==> Next(run[i], run[i + 1])
  }

  // ----- The invariant -----

  ghost predicate HasRunner(s: State)
  {
    exists t :: 0 <= t < |s.threads| && Runner(s.threads[t])
  }

  ghost predicate WakePending(s: State)
  {
    exists t :: 0 <= t < |s.threads| && s.threads[t].Waking?
  }

  ghost predicate Inv(s: State)
  {
    && s.control in {ONCE_INIT, ONCE_RUNNING, ONCE_WAITER, ONCE_DONE}
    && (forall t, u :: 0 <= t < u < |s.threads| ==> !(Runner(s.threads[t]) && Runner(s.threads[u])))
    && (s.control in {ONCE_RUNNING, ONCE_WAITER} <==> HasRunner(s))
    && (s.control == ONCE_INIT ==> s.started == 0 && s.finished == 0)
    && (s.control == ONCE_DONE ==> s.started == 1 && s.finished == 1)
    && (forall t :: 0 <= t < |s.threads| ==> ThreadInv(s, s.threads[t]))
  }

  // What the word and the counters are known to be by a thread at pc.
  ghost predicate ThreadInv(s: State, pc: Pc)
  {
    match pc
    case Crashed => false
    case Chosen => s.started == 0 && s.finished == 0
    case Invoking => s.started == 1 && s.finished == 0
    case Finishing => s.started == 1 && s.finished == 1
    case Waking => s.control == ONCE_DONE
    case Returned => s.control == ONCE_DONE
    case Delaying(v) => v == ONCE_WAITER && s.control in {ONCE_WAITER, ONCE_DONE}
    case Asleep => s.control == ONCE_WAITER || WakePending(s)
    case _ => true
  }

  lemma TableMatch(v: nat)
    ensures FirstMatch(TRANS, 0, v) ==
            if v == ONCE_INIT then 0 else if v == ONCE_RUNNING then 1 else if v == ONCE_DONE then 2 else 3
  {
    assert FirstMatch(TRANS, 3, v) == 3;
    assert FirstMatch(TRANS, 2, v) == if v == ONCE_DONE then 2 else 3;
    assert FirstMatch(TRANS, 1, v) == if v == ONCE_RUNNING then 1 else if v == ONCE_DONE then 2 else 3;
  }

  lemma InitialInv(n: nat)
    ensures Inv(Initial(n))
  {
  }

  lemma StepKeepsInv(s: State, t: nat, sleep: bool)
    requires Inv(s) && t < |s.threads|
    ensures Inv(Step(s, t, sleep)) && |Step(s, t, sleep).threads| == |s.threads|
  {
    var s' := Step(s, t, sleep);
    StepKeepsWord(s, t, sleep);
    RunnerAfterStep(s, t, sleep);
    SteppedThreadInv(s, t, sleep);
    forall u | 0 <= u < |s'.threads|
      ensures ThreadInv(s', s'.threads[u])
    {
      if u != t {
        OtherThreadInv(s, t, sleep, u);
      }
    }
  }

  lemma StepKeepsWord(s: State, t: nat, sleep: bool)
    requires Inv(s) && t < |s.threads|
    ensures var s' := Step(s, t, sleep);
            && |s'.threads| == |s.threads|
            && s'.control in {ONCE_INIT, ONCE_RUNNING, ONCE_WAITER, ONCE_DONE}
            && (s'.control == ONCE_INIT ==> s'.started == 0 && s'.finished == 0)
            && (s'.control == ONCE_DONE ==> s'.started == 1 && s'.finished == 1)
            && (forall u, v :: 0 <= u < v < |s'.threads| ==> !(Runner(s'.threads[u]) && Runner(s'.threads[v])))
  {
    TableMatch(s.control);
    var s' := Step(s, t, sleep);
    assert ThreadInv(s, s.threads[t]);
    assert forall u :: 0 <= u < |s.threads| && u != t ==> Runner(s'.threads[u]) == Runner(s.threads[u]);
    if Runner(s.threads[t]) {
      assert HasRunner(s);
    }
  }

  lemma SteppedThreadInv(s: State, t: nat, sleep: bool)
    requires Inv(s) && t < |s.threads|
    ensures ThreadInv(Step(s, t, sleep), Step(s, t, sleep).threads[t])
  {
    TableMatch(s.control);
    assert ThreadInv(s, s.threads[t]);
  }

  lemma RunnerAfterStep(s: State, t: nat, sleep: bool)
    requires Inv(s) && t < |s.threads|
    ensures Step(s, t, sleep).control in {ONCE_RUNNING, ONCE_WAITER} <==> HasRunner(Step(s, t, sleep))
  {
    TableMatch(s.control);
    var s' := Step(s, t, sleep);
    assert ThreadInv(s, s.threads[t]);
    assert forall u :: 0 <= u < |s.threads| && u != t ==> Runner(s'.threads[u]) == Runner(s.threads[u]);
    if Runner(s'.threads[t]) {
      assert HasRunner(s');
    } else if Runner(s.threads[t]) {
      assert !HasRunner(s');
    } else if HasRunner(s) {
      var r :| 0 <= r < |s.threads| && Runner(s.threads[r]);
      assert Runner(s'.threads[r]);
    }
  }

  // A step of t leaves every other thread with true knowledge.
  lemma OtherThreadInv(s: State, t: nat, sleep: bool, u: nat)
    requires Inv(s) && t < |s.threads| && u < |s.threads| && u != t
    ensures ThreadInv(Step(s, t, sleep), Step(s, t, sleep).threads[u])
  {
    TableMatch(s.control);
    var s' := Step(s, t, sleep);
    assert ThreadInv(s, s.threads[t]) && ThreadInv(s, s.threads[u]);
    if s'.threads[u].Asleep? && s'.control != ONCE_WAITER {
      if s.control == ONCE_WAITER {
        assert s'.threads[t].Waking?;
      } else {
        var w :| 0 <= w < |s.threads| && s.threads[w].Waking?;
        assert w != t;
        assert s'.threads[w].Waking?;
      }
    }
  }

  lemma NextKeepsInv(s: State, s': State)
    requires Inv(s) && Next(s, s')
    ensures Inv(s') && |s'.threads| == |s.threads|
  {
    var t: nat, sleep: bool :| t < |s.threads| && s' == Step(s, t, sleep);
    StepKeepsInv(s, t, sleep);
  }

  // ----- Safety of every run -----

  lemma {:induction false} RunInv(run: seq<State>, n: nat, i: nat)
    requires IsRun(run, n) && i < |run|
    ensures Inv(run[i]) && |run[i].threads| == n
  {
    if i == 0 {
      InitialInv(n);
    } else {
      RunInv(run, n, i - 1);
      NextKeepsInv(run[i - 1], run[i]);
    }
  }

  // In every state of every run the callable was started at most once, the word has a declared
  // value, and one thread is the runner exactly while the word is Running or Waiter.
  lemma AtMostOnce(run: seq<State>, n: nat, i: nat, t: nat, u: nat)
    requires IsRun(run, n) && i < |run| && t < n && u < n
    ensures |run[i].threads| == n
    ensures run[i].finished <= run[i].started <= 1
    ensures run[i].control in {ONCE_INIT, ONCE_RUNNING, ONCE_WAITER, ONCE_DONE} && !run[i].threads[t].Crashed?
    ensures run[i].control in {ONCE_RUNNING, ONCE_WAITER} <==> HasRunner(run[i])
    ensures Runner(run[i].threads[t]) && Runner(run[i].threads[u]) ==> t == u
  {
    RunInv(run, n, i);
    assert ThreadInv(run[i], run[i].threads[t]);
    if HasRunner(run[i]) {
      var r :| 0 <= r < n && Runner(run[i].threads[r]);
      assert ThreadInv(run[i], run[i].threads[r]);
    }
  }

  // Whoever has returned, by either path, did so after the one invocation had finished.
  lemma ReturnedAfterFinished(run: seq<State>, n: nat, i: nat, t: nat)
    requires IsRun(run, n) && i < |run| && t < n
    ensures |run[i].threads| == n
    ensures run[i].threads[t].Returned? ==> run[i].started == 1 && run[i].finished == 1
  {
    RunInv(run, n, i);
    assert ThreadInv(run[i], run[i].threads[t]);
  }

  // A sleeper is covered: the runner will find Waiter when it exchanges in Done, or it already
  // has and is about to wake everyone.
  lemma SleeperIsCovered(run: seq<State>, n: nat, i: nat, t: nat)
    requires IsRun(run, n) && i < |run| && t < n
    ensures |run[i].threads| == n
    ensures run[i].threads[t].Asleep? ==>
            (run[i].control == ONCE_WAITER && HasRunner(run[i])) || WakePending(run[i])
  {
    RunInv(run, n, i);
    assert ThreadInv(run[i], run[i].threads[t]);
  }

  // The exchange with a thread asleep issues the wake, and the wake leaves nobody asleep.
  lemma ExchangeWakesSleepers(run: seq<State>, n: nat, i: nat, runner: nat, sleeper: nat)
    requires IsRun(run, n) && i < |run| && runner < n && sleeper < n && |run[i].threads| == n
    requires run[i].threads[runner].Finishing? && run[i].threads[sleeper].Asleep?
    ensures var s1 := Step(run[i], runner, false);
            && run[i].control == ONCE_WAITER && s1.control == ONCE_DONE
            && s1.threads[runner].Waking?
            && forall t :: 0 <= t < n ==> !Step(s1, runner, false).threads[t].Asleep?
  {
    var s := run[i];
    RunInv(run, n, i);
    assert ThreadInv(s, s.threads[sleeper]);
    assert Runner(s.threads[runner]);
    assert HasRunner(s);
    assert forall w :: 0 <= w < n ==> ThreadInv(s, s.threads[w]);
  }

  // ----- Threads do sleep -----

  lemma {:induction false} OneMoreStep(run: seq<State>, n: nat, t: nat, sleep: bool) returns (longer: seq<State>)
    requires IsRun(run, n) && t < |run[|run| - 1].threads|
    ensures longer == run + [Step(run[|run| - 1], t, sleep)] && IsRun(longer, n)
  {
    longer := run + [Step(run[|run| - 1], t, sleep)];
    assert Next(run[|run| - 1], longer[|run|]);
    forall i | 0 <= i < |longer| - 1
      ensures Next(longer[i], longer[i + 1])
    {
      if i < |run| - 1 {
        assert Next(run[i], run[i + 1]);
      }
    }
  }

  // How many steps a thread is away from sleeping while another one is the runner.
  function StepsToSleep(pc: Pc, control: nat): nat
  {
    match pc
    case FastLoad => 6
    case CheckLoad => 5
    case TryStart => 4
    case Waiting => if control == ONCE_WAITER then 2 else 3
    case Delaying(_) => 1
    case _ => 0
  }

  lemma SleepStep(s: State, t: nat)
    requires Inv(s) && t < |s.threads| && HasRunner(s) && !Runner(s.threads[t]) && !s.threads[t].Asleep?
    ensures var s' := Step(s, t, true);
            && s' == State(s'.control, s.threads[t := s'.threads[t]], s.started, s.finished)
            && !Runner(s'.threads[t]) && (s'.threads[t].Asleep? ==> s'.control == ONCE_WAITER)
            && StepsToSleep(s'.threads[t], s'.control) < StepsToSleep(s.threads[t], s.control)
  {
    TableMatch(s.control);
    assert ThreadInv(s, s.threads[t]);
  }

  lemma SleeperFindsWaiter(s: State, t: nat)
    requires Inv(s) && t < |s.threads| && HasRunner(s) && s.threads[t].Asleep?
    ensures s.control == ONCE_WAITER
  {
    assert ThreadInv(s, s.threads[t]);
    if w :| 0 <= w < |s.threads| && s.threads[w].Waking? {
      assert ThreadInv(s, s.threads[w]);
    }
  }

  lemma RunnerStays(s: State, s': State, t: nat)
    requires HasRunner(s) && t < |s.threads| && !Runner(s.threads[t])
    requires |s'.threads| == |s.threads| && forall u :: 0 <= u < |s.threads| && u != t ==> s'.threads[u] == s.threads[u]
    ensures HasRunner(s')
  {
    var r :| 0 <= r < |s.threads| && Runner(s.threads[r]);
    assert Runner(s'.threads[r]);
  }

  // While there is a runner every other thread falls asleep if it takes a few steps of its own and
  // its delay blocks. Nothing else changes but the word, which is Waiter then.
  lemma {:induction false} CanSleep(run: seq<State>, n: nat, t: nat) returns (longer: seq<State>)
    requires IsRun(run, n) && t < |run[|run| - 1].threads|
    requires HasRunner(run[|run| - 1]) && !Runner(run[|run| - 1].threads[t])
    ensures IsRun(longer, n) && run <= longer
    ensures var s := run[|run| - 1];
            longer[|longer| - 1] == State(ONCE_WAITER, s.threads[t := Asleep], s.started, s.finished)
    decreases StepsToSleep(run[|run| - 1].threads[t], run[|run| - 1].control)
  {
    var s := run[|run| - 1];
    RunInv(run, n, |run| - 1);
    longer := run;
    if s.threads[t].Asleep? {
      SleeperFindsWaiter(s, t);
      assert s.threads[t := Asleep] == s.threads;
    } else {
      SleepStep(s, t);
      RunnerStays(s, Step(s, t, true), t);
      longer := OneMoreStep(run, n, t, true);
      longer := CanSleep(longer, n, t);
    }
  }

  // Thread 0 is the runner, and the threads 1, ..., m sleep.
  ghost predicate SleepersBehind(s: State, n: nat, m: nat)
  {
    && |s.threads| == n && m < n && s.threads[0] == Chosen
    && (m > 0 ==> s.control == ONCE_WAITER) && (m == 0 ==> s.control == ONCE_RUNNING)
    && (forall t :: 1 <= t <= m ==> s.threads[t] == Asleep)
    && (forall t :: m < t < n ==> s.threads[t] == FastLoad)
  }

  lemma {:induction false} SleepersGather(n: nat, m: nat) returns (run: seq<State>)
    requires m < n
    ensures IsRun(run, n) && SleepersBehind(run[|run| - 1], n, m)
  {
    if m == 0 {
      run := [Initial(n)];
      run := OneMoreStep(run, n, 0, false);
      run := OneMoreStep(run, n, 0, false);
      run := OneMoreStep(run, n, 0, false);
    } else {
      run := SleepersGather(n, m - 1);
      assert Runner(run[|run| - 1].threads[0]);
      run := CanSleep(run, n, m);
    }
  }

  // Any number of threads does sleep at once in some run, and then is woken together: all but the
  // runner are asleep in state i, and in the last state, which the wake leads to, all of them wait.
  lemma AllSleepAndWake(n: nat) returns (run: seq<State>, i: nat)
    requires n >= 2
    ensures IsRun(run, n) && i + 4 == |run| - 1 && run[i].control == ONCE_WAITER
    ensures forall k :: i <= k < |run| ==> |run[k].threads| == n
    ensures forall t :: 1 <= t < n ==> run[i].threads[t].Asleep? && run[|run| - 2].threads[t].Asleep?
    ensures run[|run| - 2].threads[0].Waking?
    ensures var last := run[|run| - 1];
            last.control == ONCE_DONE && forall t :: 1 <= t < n ==> last.threads[t].Waiting?
  {
    run := SleepersGather(n, n - 1);
    i := |run| - 1;
    run := OneMoreStep(run, n, 0, false);
    run := OneMoreStep(run, n, 0, false);
    run := OneMoreStep(run, n, 0, false);
    run := OneMoreStep(run, n, 0, false);
  }

  // A wake is issued only after the word was Waiter.
  lemma {:induction false} WakeIsNeeded(run: seq<State>, n: nat, i: nat, t: nat)
    requires IsRun(run, n) && i < |run| && t < |run[i].threads| && run[i].threads[t].Waking?
    ensures exists j :: 0 <= j < i && run[j].control == ONCE_WAITER
    decreases i
  {
    if i > 0 {
      assert Next(run[i - 1], run[i - 1 + 1]);
      if run[i - 1].control != ONCE_WAITER {
        StillWaking(run[i - 1], run[i], t);
        WakeIsNeeded(run, n, i - 1, t);
      }
    }
  }

  lemma StillWaking(s: State, s': State, t: nat)
    requires Next(s, s') && s.control != ONCE_WAITER && t < |s'.threads| && s'.threads[t].Waking?
    ensures t < |s.threads| && s.threads[t].Waking?
  {
    var u: nat, sleep: bool :| u < |s.threads| && s' == Step(s, u, sleep);
    StepOf(s, u, sleep, t);
  }

  lemma StepOf(s: State, u: nat, sleep: bool, t: nat)
    requires u < |s.threads|
    ensures |Step(s, u, sleep).threads| == |s.threads|
    ensures t < |s.threads| && Step(s, u, sleep).threads[t].Waking? && s.control != ONCE_WAITER ==> s.threads[t].Waking?
  {
    TableMatch(s.control);
  }

  // The only thread has not met any other.
  predicate Alone(s: State)
  {
    && |s.threads| == 1 && s.control in {ONCE_INIT, ONCE_RUNNING, ONCE_DONE}
    && match s.threads[0]
       case FastLoad => s.control == ONCE_INIT
       case CheckLoad => s.control == ONCE_INIT
       case TryStart => s.control == ONCE_INIT
       case Chosen => s.control == ONCE_RUNNING
       case Invoking => s.control == ONCE_RUNNING
       case Finishing => s.control == ONCE_RUNNING
       case Returned => s.control == ONCE_DONE
       case _ => false
  }

  lemma AloneStep(s: State, sleep: bool)
    requires Alone(s)
    ensures Alone(Step(s, 0, sleep))
  {
  }

  // An invocation without competition never waits and issues no wake.
  lemma {:induction false} AloneNeverWaits(run: seq<State>, i: nat)
    requires IsRun(run, 1) && i < |run|
    ensures |run[i].threads| == 1 && run[i].control in {ONCE_INIT, ONCE_RUNNING, ONCE_DONE}
    ensures var pc := run[i].threads[0]; !pc.Waiting? && !pc.Delaying? && !pc.Asleep? && !pc.Waking?
  {
    AlwaysAlone(run, i);
  }

  lemma {:induction false} AlwaysAlone(run: seq<State>, i: nat)
    requires IsRun(run, 1) && i < |run|
    ensures Alone(run[i])
  {
    if i > 0 {
      AlwaysAlone(run, i - 1);
      assert Next(run[i - 1], run[i - 1 + 1]);
      var t: nat, sleep: bool :| t < |run[i - 1].threads| && run[i] == Step(run[i - 1], t, sleep);
      AloneStep(run[i - 1], sleep);
    }
  }

  // ----- The word only moves forward -----

  function Rank(control: nat): nat
  {
    if control == ONCE_DONE then 3 else if control == ONCE_WAITER then 2 else if control == ONCE_RUNNING then 1 else 0
  }

  lemma StepRank(s: State, t: nat, sleep: bool)
    requires Inv(s) && t < |s.threads|
    ensures Step(s, t, sleep).control != s.control ==> Rank(Step(s, t, sleep).control) > Rank(s.control)
  {
    TableMatch(s.control);
    assert ThreadInv(s, s.threads[t]);
    assert Runner(s.threads[t]) ==> HasRunner(s);
  }

  lemma NextRank(s: State, s': State)
    requires Inv(s) && Next(s, s')
    ensures s'.control != s.control ==> Rank(s'.control) > Rank(s.control)
  {
    var t: nat, sleep: bool :| t < |s.threads| && s' == Step(s, t, sleep);
    StepRank(s, t, sleep);
  }

  lemma NextForward(s: State, s': State)
    requires Inv(s) && Next(s, s')
    ensures Rank(s.control) <= Rank(s'.control)
    ensures s.control == ONCE_DONE ==> s'.control == ONCE_DONE
  {
    NextRank(s, s');
  }

  // Number of changes of the word between the first i states.
  function Changes(run: seq<State>, i: nat): nat
    requires i < |run|
  {
    if i == 0 then 0
    else Changes(run, i - 1) + if run[i].control != run[i - 1].control then 1 else 0
  }

  // However many threads there are and however long the run, the word changes at most three times.
  lemma {:induction false} AtMostThreeChanges(run: seq<State>, n: nat, i: nat)
    requires IsRun(run, n) && i < |run|
    ensures Changes(run, i) <= Rank(run[i].control) <= 3
  {
    if i > 0 {
      AtMostThreeChanges(run, n, i - 1);
      RunInv(run, n, i - 1);
      NextRank(run[i - 1], run[i]);
    }
  }

  lemma {:induction false} ForwardOnly(run: seq<State>, n: nat, i: nat, j: nat)
    requires IsRun(run, n) && i <= j < |run|
    ensures Rank(run[i].control) <= Rank(run[j].control)
    ensures run[i].control == ONCE_DONE ==> run[j].control == ONCE_DONE
    decreases j
  {
    if i < j {
      ForwardOnly(run, n, i, j - 1);
      RunInv(run, n, j - 1);
      assert Next(run[j - 1], run[j - 1 + 1]);
      NextForward(run[j - 1], run[j]);
    }
  }

  // ----- Progress -----

  function Weight(pc: Pc): nat
  {
    match pc
    case FastLoad => 8
    case CheckLoad => 7
    case TryStart => 6
    case Waiting => 5
    case Delaying(_) => 5
    case Asleep => 5
    case Chosen => 4
    case Invoking => 3
    case Finishing => 2
    case Waking => 1
    case Crashed => 0
    case Returned => 0
  }

  function TotalWeight(threads: seq<Pc>): nat
  {
    if threads == [] then 0 else Weight(threads[0]) + TotalWeight(threads[1..])
  }

  // The work that is left: steps of the threads and moves of the word.
  function Measure(s: State): nat
  {
    TotalWeight(s.threads) + (3 - Rank(s.control))
  }

  lemma {:induction false} WeightUpdate(threads: seq<Pc>, t: nat, pc: Pc)
    requires t < |threads|
    ensures TotalWeight(threads[t := pc]) == TotalWeight(threads) - Weight(threads[t]) + Weight(pc)
  {
    if t > 0 {
      WeightUpdate(threads[1..], t - 1, pc);
      assert threads[t := pc][1..] == threads[1..][t - 1 := pc];
    }
  }

  lemma {:induction false} WeightWakeAll(threads: seq<Pc>)
    ensures TotalWeight(WakeAll(threads)) == TotalWeight(threads)
  {
    if threads != [] {
      WeightWakeAll(threads[1..]);
      assert WakeAll(threads)[1..] == WakeAll(threads[1..]);
    }
  }

  lemma {:induction false} InitialWeight(n: nat)
    ensures TotalWeight(Initial(n).threads) == 8 * n
  {
    if n > 0 {
      InitialWeight(n - 1);
      assert Initial(n).threads[1..] == Initial(n - 1).threads;
    }
  }

  // Threads that are spinning or being woken do not undo work; every other step reduces it.
  predicate Idle(s: State, t: nat)
    requires t < |s.threads|
  {
    || s.threads[t].Returned?
    || s.threads[t].Crashed?
    || s.threads[t].Asleep?
    || s.threads[t].Delaying?
    || (s.threads[t].Waiting? && s.control == ONCE_WAITER)
  }

  lemma StepIsMove(s: State, t: nat, sleep: bool)
    requires t < |s.threads| && !s.threads[t].Waking?
    ensures Step(s, t, sleep).threads == s.threads[t := Step(s, t, sleep).threads[t]]
  {
  }

  // What the step does to the weight of its own thread and to the word.
  lemma StepWeight(s: State, t: nat, sleep: bool)
    requires Inv(s) && t < |s.threads|
    ensures var s' := Step(s, t, sleep);
            var before, after := Weight(s.threads[t]) - Rank(s.control), Weight(s'.threads[t]) - Rank(s'.control);
            after <= before && (after < before <==> !Idle(s, t))
  {
    TableMatch(s.control);
    assert ThreadInv(s, s.threads[t]);
    assert Runner(s.threads[t]) ==> HasRunner(s);
  }

  lemma StepMeasure(s: State, t: nat, sleep: bool)
    requires Inv(s) && t < |s.threads|
    ensures Measure(Step(s, t, sleep)) <= Measure(s)
    ensures Measure(Step(s, t, sleep)) < Measure(s) <==> !Idle(s, t)
  {
    StepWeight(s, t, sleep);
    if s.threads[t].Waking? {
      WeightWakeAll(s.threads);
      WeightUpdate(WakeAll(s.threads), t, Returned);
    } else {
      StepIsMove(s, t, sleep);
      WeightUpdate(s.threads, t, Step(s, t, sleep).threads[t]);
    }
  }

  lemma NextMeasure(s: State, s': State)
    requires Inv(s) && Next(s, s')
    ensures Measure(s') <= Measure(s)
  {
    var t: nat, sleep: bool :| t < |s.threads| && s' == Step(s, t, sleep);
    StepMeasure(s, t, sleep);
  }

  // Number of steps among the first i that were not idle.
  ghost function WorkSteps(run: seq<State>, i: nat): nat
    requires i < |run|
  {
    if i == 0 then 0
    else WorkSteps(run, i - 1) + if Measure(run[i]) < Measure(run[i - 1]) then 1 else 0
  }

  // A run of n invocations contains at most 8 n + 3 steps that are not idle.
  lemma {:induction false} BoundedWork(run: seq<State>, n: nat, i: nat)
    requires IsRun(run, n) && i < |run|
    ensures WorkSteps(run, i) + Measure(run[i]) <= 8 * n + 3
  {
    if i == 0 {
      InitialWeight(n);
    } else {
      BoundedWork(run, n, i - 1);
      RunInv(run, n, i - 1);
      NextMeasure(run[i - 1], run[i]);
    }
  }

  predicate AllReturned(s: State)
  {
    forall t :: 0 <= t < |s.threads| ==> s.threads[t].Returned?
  }

  // While somebody has not returned, a thread that is not asleep can do work, after leaving its
  // delay if it is in one: no deadlock, even if sleepers never wake by themselves.
  lemma SomeoneCanWork(s: State) returns (t: nat)
    requires Inv(s) && !AllReturned(s)
    ensures t < |s.threads| && !s.threads[t].Asleep?
    ensures !Idle(s, t) || (s.threads[t].Delaying? && !Idle(Step(s, t, false), t))
  {
    if HasRunner(s) {
      t :| 0 <= t < |s.threads| && Runner(s.threads[t]);
    } else if WakePending(s) {
      t :| 0 <= t < |s.threads| && s.threads[t].Waking?;
    } else {
      t :| 0 <= t < |s.threads| && !s.threads[t].Returned?;
      assert ThreadInv(s, s.threads[t]);
    }
  }

  ghost predicate AwakeNext(s: State, s': State)
  {
    exists t: nat :: t < |s.threads| && !s.threads[t].Asleep? && s' == Step(s, t, false)
  }

  ghost predicate IsAwakePath(path: seq<State>)
  {
    |path| > 0 && forall i :: 0 <= i < |path| - 1 ==> AwakeNext(path[i], path[i + 1])
  }

  ghost function Prepend(s: State, path: seq<State>): (r: seq<State>)
    requires IsAwakePath(path) && AwakeNext(s, path[0])
    ensures IsAwakePath(r) && r[0] == s && r[|r| - 1] == path[|path| - 1]
  {
    var r := [s] + path;
    assert forall i :: 0 < i < |r| ==> r[i] == path[i - 1];
    r
  }

  // From every reachable state all invocations can be brought to return, with no thread waking
  // by itself, and then the callable has run once.
  lemma {:induction false} CanComplete(s: State) returns (path: seq<State>)
    requires Inv(s)
    ensures IsAwakePath(path) && path[0] == s
    ensures Inv(path[|path| - 1]) && AllReturned(path[|path| - 1])
    ensures |path[|path| - 1].threads| == |s.threads|
    decreases Measure(s)
  {
    if AllReturned(s) {
      path := [s];
    } else {
      var s1, s2 := WorkOff(s);
      path := CanComplete(s2);
      path := Prepend(s1, path);
      if s1 != s {
        path := Prepend(s, path);
      }
    }
  }

  // Some of the remaining work can be done, in one step or in two.
  lemma WorkOff(s: State) returns (s1: State, s2: State)
    requires Inv(s) && !AllReturned(s)
    ensures (s1 == s || AwakeNext(s, s1)) && AwakeNext(s1, s2)
    ensures Inv(s2) && |s2.threads| == |s.threads| && Measure(s2) < Measure(s)
  {
    var t := SomeoneCanWork(s);
    s1 := s;
    if Idle(s, t) {
      s1 := Step(s, t, false);
      StepKeepsInv(s, t, false);
      StepMeasure(s, t, false);
      assert AwakeNext(s, s1);
    }
    s2 := Step(s1, t, false);
    StepKeepsInv(s1, t, false);
    StepMeasure(s1, t, false);
    assert AwakeNext(s1, s2);
  }

  // Exactly once: when at least one invocation was made and all have returned.
  lemma ExactlyOnce(run: seq<State>, n: nat)
    requires IsRun(run, n) && n > 0 && AllReturned(run[|run| - 1])
    ensures run[|run| - 1].control == ONCE_DONE
    ensures run[|run| - 1].started == 1 && run[|run| - 1].finished == 1
  {
    RunInv(run, n, |run| - 1);
    var last := run[|run| - 1];
    assert ThreadInv(last, last.threads[0]);
  }

  // ----- The code of the steps -----

  // std::atomic<uint32_t>
  class AtomicWord {
    var value: nat

    constructor (v: nat)
      ensures value == v
    {
      value := v;
    }

    method Load() returns (v: nat)
      ensures v == value
    {
      v := value;
    }

    method CompareExchangeStrong(expected: nat, desired: nat) returns (ok: bool)
      modifies this
      ensures ok <==> old(value) == expected
      ensures value == if ok then desired else old(value)
    {
      ok := value == expected;
      if ok {
        value := desired;
      }
    }

    method Exchange(desired: nat) returns (previous: nat)
      modifies this
      ensures previous == old(value) && value == desired
    {
      previous := value;
      value := desired;
    }
  }

  // All the invocations made on one once_flag.
  class Execution {
    const control: AtomicWord
    var threads: seq<Pc>
    var started: nat
    var finished: nat

    ghost function View(): State
      reads this, control
    {
      State(control.value, threads, started, finished)
    }

    ghost predicate Valid()
      reads this, control
    {
      Inv(View())
    }

    constructor (n: nat)
      ensures fresh(control)
      ensures Valid() && View() == Initial(n)
    {
      control := new AtomicWord(ONCE_INIT);
      threads := seq(n, _ => FastLoad);
      started, finished := 0, 0;
      new;
      InitialInv(n);
    }

    // Thread t runs up to and including its next atomic operation.
    method Advance(t: nat, sleep: bool)
      requires Valid() && t < |threads|
      modifies this, control
      ensures Valid() && View() == Step(old(View()), t, sleep)
    {
      StepKeepsInv(View(), t, sleep);
      match threads[t] {
        case FastLoad =>
          var s := control.Load();
          threads := threads[t := if s != ONCE_DONE then CheckLoad else Returned];
        case CheckLoad =>
          var s := control.Load();
          var unexpected := s != ONCE_INIT && s != ONCE_RUNNING && s != ONCE_WAITER && s != ONCE_DONE;
          threads := threads[t := if unexpected then Crashed else TryStart];
        case TryStart =>
          var ok := control.CompareExchangeStrong(ONCE_INIT, ONCE_RUNNING);
          threads := threads[t := if ok then Chosen else Waiting];
        case Waiting =>
          Look(t);
        case Delaying(observed) =>
          var v := control.Load();
          threads := threads[t := if sleep && v == observed then Asleep else Waiting];
        case Asleep =>
          threads := threads[t := Waiting];
        case Chosen =>
          started := started + 1;
          threads := threads[t := Invoking];
        case Invoking =>
          finished := finished + 1;
          threads := threads[t := Finishing];
        case Finishing =>
          var previous := control.Exchange(ONCE_DONE);
          threads := threads[t := if previous == ONCE_WAITER then Waking else Returned];
        case Waking =>
          threads := WakeAll(threads)[t := Returned];
        case Crashed =>
        case Returned =>
      }
    }

    // One iteration of SpinLockWait on the table.
    method Look(t: nat)
      requires t < |threads| && threads[t].Waiting?
      modifies this, control
      ensures View() == Step(old(View()), t, false)
    {
      var v := control.Load();
      var i := 0;
      while i != |TRANS| && v != TRANS[i].from
        invariant 0 <= i <= |TRANS|
        invariant FirstMatch(TRANS, i, v) == FirstMatch(TRANS, 0, v)
      {
        i := i + 1;
      }
      if i == |TRANS| {
        threads := threads[t := Delaying(v)];
      } else {
        var ok := control.CompareExchangeStrong(v, TRANS[i].to);
        if TRANS[i].done {
          threads := threads[t := if v == ONCE_INIT then Chosen else Returned];
        }
      }
      assert threads[t := threads[t]] == threads;
    }
  }
}
