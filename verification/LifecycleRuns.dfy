/** What runs of the service do, not only what they keep: connections are served, and every ending has its cause. */
module LifecycleRuns {
  import opened Bytes
  import opened Lifecycle
  import opened LifecycleProofs

  // --------------------------------------------------------------------- service

  /** The steps of one accept loop, one after another; `None` if one is not enabled. */
  function Steps(s: State, l: nat, steps: seq<Step>): Option<State>
    decreases |steps|
  {
    if steps == [] then Some(s)
    else if ListenerEnabled(s, l, steps[0]) then Steps(ListenerApply(s, l, steps[0]), l, steps[1..])
    else None
  }

  lemma StepsCons(s: State, l: nat, a: Step, rest: seq<Step>)
    requires ListenerEnabled(s, l, a)
    ensures Steps(s, l, [a] + rest) == Steps(ListenerApply(s, l, a), l, rest)
  {
    assert ([a] + rest)[1..] == rest;
  }

  /** Nothing has been cancelled and both locks are free. */
  predicate Open(s: State) { !s.accept && !s.conns && s.tasksLock == None && s.abortsLock == None }

  const ADMISSION: seq<Step> := [Accepted, TakePermit, CheckAccept]

  /** While acceptance is open and a permit is free, a connection is admitted and keeps its permit. */
  lemma Admits(s: State, l: nat)
    requires Open(s) && l in s.listeners && s.listeners[l].Accepting? && s.permits > 0
    ensures Steps(s, l, ADMISSION) == Some(s.(listeners := s.listeners[l := AwaitLock], permits := s.permits - 1))
  {
    var s1 := ListenerApply(s, l, Accepted);
    var s2 := ListenerApply(s1, l, TakePermit);
    var s3 := ListenerApply(s2, l, CheckAccept);
    assert s3.listeners == s.listeners[l := AwaitLock];
    StepsCons(s2, l, CheckAccept, []);
    StepsCons(s1, l, TakePermit, [CheckAccept]);
    StepsCons(s, l, Accepted, [TakePermit, CheckAccept]);
    assert [Accepted] + ([TakePermit, CheckAccept]) == ADMISSION && [TakePermit] + [CheckAccept] == [TakePermit, CheckAccept];
    assert [CheckAccept] + [] == [CheckAccept];
  }

  function Registration(t: nat): seq<Step> { [LockTasks, Spawn(t), LockAborts, Insert] }

  lemma Registers(s: State, l: nat, t: nat)
    requires Open(s) && l in s.listeners && s.listeners[l].AwaitLock? && t !in s.tasks
    ensures Steps(s, l, Registration(t)) ==
            Some(s.(listeners := s.listeners[l := Inserted(t)], tasks := s.tasks[t := Task(true, false)], aborts := s.aborts + {t},
                    tasksLock := Some(ByListener(l)), abortsLock := Some(ByListener(l))))
  {
    var s1 := ListenerApply(s, l, LockTasks);
    var s2 := ListenerApply(s1, l, Spawn(t));
    var s3 := ListenerApply(s2, l, LockAborts);
    var s4 := ListenerApply(s3, l, Insert);
    assert s4.listeners == s.listeners[l := Inserted(t)];
    StepsCons(s3, l, Insert, []);
    StepsCons(s2, l, LockAborts, [Insert]);
    StepsCons(s1, l, Spawn(t), [LockAborts, Insert]);
    StepsCons(s, l, LockTasks, [Spawn(t), LockAborts, Insert]);
    assert [Insert] + [] == [Insert] && [LockAborts] + [Insert] == [LockAborts, Insert];
    assert [Spawn(t)] + [LockAborts, Insert] == [Spawn(t), LockAborts, Insert];
    assert [LockTasks] + [Spawn(t), LockAborts, Insert] == Registration(t);
  }

  const RELEASE: seq<Step> := [ReadAccept, ReadConns, EndReap]

  lemma Releases(s: State, l: nat, t: nat)
    requires !s.accept && !s.conns && l in s.listeners && s.listeners[l] == Inserted(t)
    ensures Steps(s, l, RELEASE) == Some(s.(listeners := s.listeners[l := Accepting], tasksLock := None, abortsLock := None))
  {
    var s1 := ListenerApply(s, l, ReadAccept);
    var s2 := ListenerApply(s1, l, ReadConns);
    var s3 := ListenerApply(s2, l, EndReap);
    assert s3.listeners == s.listeners[l := Accepting];
    StepsCons(s2, l, EndReap, []);
    StepsCons(s1, l, ReadConns, [EndReap]);
    StepsCons(s, l, ReadAccept, [ReadConns, EndReap]);
    assert [EndReap] + [] == [EndReap] && [ReadConns] + [EndReap] == [ReadConns, EndReap];
    assert [ReadAccept] + [ReadConns, EndReap] == RELEASE;
  }

  lemma {:induction false} StepsAppend(s: State, l: nat, a: seq<Step>, b: seq<Step>)
    requires Steps(s, l, a).Some?
    ensures Steps(s, l, a + b) == Steps(Steps(s, l, a).value, l, b)
    decreases |a|
  {
    if a == [] {
      assert a + b == b;
    } else {
      StepsAppend(ListenerApply(s, l, a[0]), l, a[1..], b);
      assert (a + b)[1..] == a[1..] + b;
    }
  }

  /**
   A connection is served: with acceptance open, a permit free and the locks free, an accept loop
   takes it, spawns its task, registers the abort handle and is back at accepting, with the task
   live, not asked to stop, and holding the permit.
   */
  lemma ServesConnection(s: State, l: nat, t: nat)
    requires Open(s) && l in s.listeners && s.listeners[l].Accepting? && s.permits > 0 && t !in s.tasks
    ensures Steps(s, l, ADMISSION + Registration(t) + RELEASE) ==
            Some(s.(tasks := s.tasks[t := Task(true, false)], aborts := s.aborts + {t}, permits := s.permits - 1))
  {
    Admits(s, l);
    var s1 := Steps(s, l, ADMISSION).value;
    Registers(s1, l, t);
    var s2 := Steps(s1, l, Registration(t)).value;
    Releases(s2, l, t);
    StepsAppend(s, l, ADMISSION, Registration(t));
    StepsAppend(s, l, ADMISSION + Registration(t), RELEASE);
    BackToAccepting(s.listeners, l, Inserted(t));
  }

  lemma BackToAccepting(m: map<nat, Listener>, l: nat, p: Listener)
    requires l in m && m[l] == Accepting
    ensures m[l := AwaitLock][l := p][l := Accepting] == m
  {
  }

  // ------------------------------------------------------------- no late admission

  /** The loop has not passed the check that follows its permit. */
  predicate Unadmitted(s: State, l: nat) {
    l in s.listeners ==> var p := s.listeners[l]; p.Accepting? || p.AwaitPermit? || p.HoldPermit? || p.Ended?
  }

  lemma StepAdmitsNone(s: State, a: Action, l: nat)
    requires Enabled(s, a) && s.accept && Unadmitted(s, l)
    ensures Apply(s, a).accept && Unadmitted(Apply(s, a), l)
  {
    if a.ListenerAct? {
      ListenersAfter(s, a.id, a.step);
    }
  }

  /** Once acceptance is cancelled, a loop that has not passed its check never spawns a connection again, whatever happens. */
  lemma {:induction false} NoLateAdmission(s: State, run: seq<Action>, l: nat)
    requires s.accept && Unadmitted(s, l) && After(s, run).Some?
    ensures After(s, run).value.accept && Unadmitted(After(s, run).value, l)
  {
    if run != [] {
      NoLateAdmission(s, run[..|run| - 1], l);
      StepAdmitsNone(After(s, run[..|run| - 1]).value, run[|run| - 1], l);
    }
  }

  // --------------------------------------------------------------------- causes

  /** Some accept loop was lost for this cause. */
  predicate LossIn(run: seq<Action>, cause: nat) {
    exists i :: 0 <= i < |run| && run[i].ListenerAct? && (run[i].step == FatalAccept(cause) || run[i].step == Panic(cause))
  }

  predicate ActIn(run: seq<Action>, a: Action) { a in run }

  /** Connections may be cancelled: the service was told to end at once, a drain was given up, or the run was dropped. */
  predicate ForceIn(run: seq<Action>) {
    || ActIn(run, DriverAct(Signal(true))) || ActIn(run, DriverAct(StdinClosed)) || ActIn(run, DriverAct(DrainGaveUp))
    || ActIn(run, OwnerAct(CancelAll))
  }

  /** Every loss the driver knows of, and every cancellation, has its cause in the run. */
  ghost predicate Caused(run: seq<Action>, s: State) {
    && (forall l :: l in s.listeners && s.listeners[l].Ended? && s.listeners[l].result.Lost? ==> LossIn(run, s.listeners[l].result.cause))
    && (HasExit(s.driver) && s.driver.exit.ListenerFailed? ==> LossIn(run, s.driver.exit.cause))
    && (s.driver.Returned? && s.driver.result.RunErr? ==> LossIn(run, s.driver.result.cause))
    && (HasExit(s.driver) && s.driver.exit.Terminate? ==> ActIn(run, DriverAct(Signal(true))))
    && (HasExit(s.driver) && s.driver.exit.ParentClosedStdin? ==> ActIn(run, DriverAct(StdinClosed)))
    && (s.driver.Cancelling? || s.conns ==> ForceIn(run))
  }

  lemma LongerRun(run: seq<Action>, a: Action)
    ensures forall c :: LossIn(run, c) ==> LossIn(run + [a], c)
    ensures forall b :: ActIn(run, b) ==> ActIn(run + [a], b)
    ensures ActIn(run + [a], a)
    ensures a.ListenerAct? && a.step.FatalAccept? ==> LossIn(run + [a], a.step.cause)
    ensures a.ListenerAct? && a.step.Panic? ==> LossIn(run + [a], a.step.cause)
  {
    forall c | LossIn(run, c)
      ensures LossIn(run + [a], c)
    {
      var i :| 0 <= i < |run| && run[i].ListenerAct? && (run[i].step == FatalAccept(c) || run[i].step == Panic(c));
      assert (run + [a])[i] == run[i];
    }
    assert (run + [a])[|run|] == a;
  }

  lemma ListenerCaused(run: seq<Action>, s: State, l: nat, step: Step)
    requires Caused(run, s) && ListenerEnabled(s, l, step)
    ensures Caused(run + [ListenerAct(l, step)], ListenerApply(s, l, step))
  {
    LongerRun(run, ListenerAct(l, step));
    ListenersAfter(s, l, step);
    var s' := ListenerApply(s, l, step);
    assert s'.driver == s.driver && s'.conns == s.conns;
  }

  lemma DriverCaused(run: seq<Action>, s: State, d: DriverStep)
    requires Caused(run, s) && DriverEnabled(s, d)
    ensures Caused(run + [DriverAct(d)], DriverApply(s, d))
  {
    LongerRun(run, DriverAct(d));
  }

  lemma OtherCaused(run: seq<Action>, s: State, a: Action)
    requires Caused(run, s) && Enabled(s, a) && (a.OwnerAct? || a.Finish?)
    ensures Caused(run + [a], Apply(s, a))
  {
    LongerRun(run, a);
  }

  lemma {:induction false} RunsAreCaused(ids: set<nat>, run: seq<Action>)
    requires After(Init(ids), run).Some?
    ensures Caused(run, After(Init(ids), run).value)
  {
    if run != [] {
      var front, a := run[..|run| - 1], run[|run| - 1];
      RunsAreCaused(ids, front);
      var s := After(Init(ids), front).value;
      match a {
        case ListenerAct(l, step) => ListenerCaused(front, s, l, step);
        case DriverAct(d) => DriverCaused(front, s, d);
        case _ => OtherCaused(front, s, a);
      }
      assert front + [a] == run;
    }
  }

  /** An error returned by the service is the cause with which some accept loop was really lost. */
  lemma ErrorHasCause(ids: set<nat>, run: seq<Action>)
    requires After(Init(ids), run).Some?
    ensures var s := After(Init(ids), run).value;
            s.driver.Returned? && s.driver.result.RunErr? ==> LossIn(run, s.driver.result.cause)
  {
    RunsAreCaused(ids, run);
  }

  /** Shutdown is graceful: connections are cancelled only if the service was told to end at once, a drain was given up, or the run was dropped. */
  lemma CancelledForCause(ids: set<nat>, run: seq<Action>)
    requires After(Init(ids), run).Some?
    ensures After(Init(ids), run).value.conns ==> ForceIn(run)
  {
    RunsAreCaused(ids, run);
  }

  // ------------------------------------------------------------------- joining

  /** A forced join waits only for tasks asked to stop, and the closing join for none that lives. */
  predicate JoinInv(s: State) {
    (s.driver.Joining? || s.driver.JoinLoop? || s.driver.JoinRemove?) ==>
      forall t :: t in s.tasks && s.tasks[t].live ==> !s.driver.final && s.tasks[t].abortRequested
  }

  lemma JoinKept(s: State, a: Action)
    requires DriveInv(s) && PermitInv(s) && JoinInv(s) && Enabled(s, a)
    ensures JoinInv(Apply(s, a))
  {
    match a {
      case DriverAct(d) => DriverJoins(s, d);
      case OwnerAct(o) => OwnerJoins(s, o);
      case Finish(_) =>
      case ListenerAct(l, step) => ListenerJoins(s, l, step);
    }
  }

  lemma DriverJoins(s: State, d: DriverStep)
    requires PermitInv(s) && JoinInv(s) && DriverEnabled(s, d)
    ensures JoinInv(DriverApply(s, d))
  {
    if d.DrainDone? || d.ForceIdle? {
      NobodyLives(s);
    }
  }

  lemma OwnerJoins(s: State, o: OwnerStep)
    requires JoinInv(s) && OwnerEnabled(s, o)
    ensures JoinInv(OwnerApply(s, o))
  {
  }

  /** No accept loop is left to spawn anything. */
  lemma ListenerJoins(s: State, l: nat, step: Step)
    requires DriveInv(s) && ListenerEnabled(s, l, step)
    ensures JoinInv(ListenerApply(s, l, step))
  {
    assert !ListenersJoined(s.driver);
  }

  /** With every permit back and no accept loop left, no task lives. */
  lemma NobodyLives(s: State)
    requires PermitInv(s) && s.permits == MAX_CONCURRENT_CONNS
    ensures forall t :: t in s.tasks ==> !s.tasks[t].live
  {
    assert |Live(s.tasks)| == 0;
    forall t | t in s.tasks
      ensures !s.tasks[t].live
    {
      assert t !in Live(s.tasks);
    }
  }

  /** In every run, the driver never waits for a task that nobody asked to stop. */
  lemma {:induction false} JoinsOnlyStopped(ids: set<nat>, run: seq<Action>)
    requires After(Init(ids), run).Some?
    ensures JoinInv(After(Init(ids), run).value)
  {
    if run != [] {
      JoinsOnlyStopped(ids, run[..|run| - 1]);
      RunsKeepInv(ids, run[..|run| - 1]);
      JoinKept(After(Init(ids), run[..|run| - 1]).value, run[|run| - 1]);
    }
  }
}
