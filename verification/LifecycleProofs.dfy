/** What every run of the service keeps, and what holds when it returns or is dropped. */
module LifecycleProofs {
  import opened Bytes
  import opened Lifecycle

  // ---------------------------------------------------------------- counting

  lemma HoldersMove(m: map<nat, Listener>, l: nat, p: Listener)
    requires l in m
    ensures |Holders(m[l := p])| + (if HoldsPermit(m[l]) then 1 else 0) == |Holders(m)| + if HoldsPermit(p) then 1 else 0
  {
    var rest := Holders(m) - {l};
    assert Holders(m) == if HoldsPermit(m[l]) then rest + {l} else rest;
    assert Holders(m[l := p]) == if HoldsPermit(p) then rest + {l} else rest;
  }

  lemma HoldersRemove(m: map<nat, Listener>, l: nat)
    requires l in m
    ensures |Holders(m - {l})| + (if HoldsPermit(m[l]) then 1 else 0) == |Holders(m)|
  {
    var rest := Holders(m) - {l};
    assert Holders(m) == if HoldsPermit(m[l]) then rest + {l} else rest;
    assert Holders(m - {l}) == rest;
  }

  lemma LiveSpawn(m: map<nat, Task>, t: nat, abort: bool)
    requires t !in m
    ensures |Live(m[t := Task(true, abort)])| == |Live(m)| + 1
  {
    assert Live(m[t := Task(true, abort)]) == Live(m) + {t};
  }

  lemma LiveFinish(m: map<nat, Task>, t: nat)
    requires t in m && m[t].live
    ensures |Live(m[t := m[t].(live := false)])| + 1 == |Live(m)|
  {
    assert Live(m) == Live(m[t := m[t].(live := false)]) + {t};
  }

  lemma LiveSame(m: map<nat, Task>, t: nat, which: set<nat>)
    ensures Live(AbortIn(m, which)) == Live(m)
    ensures t in m && !m[t].live ==> Live(m - {t}) == Live(m)
  {
  }

  // ------------------------------------------------------ preservation, by part

  lemma PermitsKept(s: State, a: Action)
    requires Inv(s) && Enabled(s, a)
    ensures PermitInv(Apply(s, a))
  {
    match a {
      case Finish(t) => LiveFinish(s.tasks, t);
      case DriverAct(d) => DriverPermits(s, d);
      case OwnerAct(SweepOne(t)) => LiveSame(s.tasks, t, {t});
      case OwnerAct(_) => LiveSame(s.tasks, 0, s.tasks.Keys);
      case ListenerAct(l, step) => ListenerPermits(s, l, step);
    }
  }

  lemma DriverPermits(s: State, d: DriverStep)
    requires PermitInv(s) && DriverEnabled(s, d)
    ensures PermitInv(DriverApply(s, d))
  {
    match d {
      case JoinStopped(l) => HoldersRemove(s.listeners, l);
      case JoinLost(l) => HoldersRemove(s.listeners, l);
      case JoinRest(l) => HoldersRemove(s.listeners, l);
      case JoinTask(t) => LiveSame(s.tasks, t, {});
      case AbortEveryTask => LiveSame(s.tasks, 0, s.tasks.Keys);
      case _ =>
    }
  }

  lemma ListenerPermits(s: State, l: nat, step: Step)
    requires PermitInv(s) && ListenerEnabled(s, l, step)
    ensures PermitInv(ListenerApply(s, l, step))
  {
    ListenerHolders(s, l, step);
    ListenerLive(s, l, step);
  }

  /** A loop that takes or gives back a permit is counted as a holder, or no longer. */
  lemma ListenerHolders(s: State, l: nat, step: Step)
    requires ListenerEnabled(s, l, step)
    ensures var s' := ListenerApply(s, l, step);
            |Holders(s'.listeners)| + (if HoldsPermit(s.listeners[l]) then 1 else 0)
            == |Holders(s.listeners)| + if l in s'.listeners && HoldsPermit(s'.listeners[l]) then 1 else 0
  {
    ListenersAfter(s, l, step);
    var after := ListenerApply(s, l, step).listeners;
    if step.Killed? {
      HoldersRemove(s.listeners, l);
    } else {
      HoldersMove(s.listeners, l, after[l]);
    }
  }

  /** A step moves its own accept loop only. */
  lemma ListenersAfter(s: State, l: nat, step: Step)
    requires ListenerEnabled(s, l, step)
    ensures var after := ListenerApply(s, l, step).listeners;
            if step.Killed? then after == s.listeners - {l} else l in after && after == s.listeners[l := after[l]]
  {
    if step.Transient? {
      assert s.listeners == s.listeners[l := s.listeners[l]];
    }
  }

  /** Only a spawn adds a live task, and no step of a loop ends one. */
  lemma ListenerLive(s: State, l: nat, step: Step)
    requires ListenerEnabled(s, l, step)
    ensures |Live(ListenerApply(s, l, step).tasks)| == |Live(s.tasks)| + if step.Spawn? then 1 else 0
  {
    match step {
      case Spawn(t) => LiveSpawn(s.tasks, t, false);
      case RequestAbort => LiveSame(s.tasks, 0, {s.listeners[l].task});
      case TryJoin(t) => LiveSame(s.tasks, t, {});
      case _ =>
    }
  }

  predicate LockInv(s: State) { TasksLockInv(s) && AbortsLockInv(s) }

  lemma LocksKept(s: State, a: Action)
    requires Inv(s) && Enabled(s, a)
    ensures LockInv(Apply(s, a))
  {
    match a {
      case ListenerAct(l, step) => ListenerTasksLock(s, l, step); ListenerAbortsLock(s, l, step);
      case DriverAct(d) => DriverLocks(s, d);
      case OwnerAct(o) => OwnerLocks(s, o);
      case Finish(_) =>
    }
  }

  lemma ListenerTasksLock(s: State, l: nat, step: Step)
    requires TasksLockInv(s) && ListenerEnabled(s, l, step)
    ensures TasksLockInv(ListenerApply(s, l, step))
  {
    var s' := ListenerApply(s, l, step);
    forall k | k in s'.listeners
      ensures HoldsTasks(s'.listeners[k]) <==> s'.tasksLock == Some(ByListener(k))
    {
      if k != l {
        assert s'.listeners[k] == s.listeners[k];
      }
    }
  }

  lemma ListenerAbortsLock(s: State, l: nat, step: Step)
    requires AbortsLockInv(s) && ListenerEnabled(s, l, step)
    ensures AbortsLockInv(ListenerApply(s, l, step))
  {
    var s' := ListenerApply(s, l, step);
    forall k | k in s'.listeners
      ensures HoldsAborts(s'.listeners[k]) <==> s'.abortsLock == Some(ByListener(k))
    {
      if k != l {
        assert s'.listeners[k] == s.listeners[k];
      }
    }
  }

  lemma DriverLocks(s: State, d: DriverStep)
    requires LockInv(s) && DriverEnabled(s, d)
    ensures LockInv(DriverApply(s, d))
  {
    DriverTasksLock(s, d);
    DriverAbortsLock(s, d);
  }

  lemma DriverTasksLock(s: State, d: DriverStep)
    requires TasksLockInv(s) && DriverEnabled(s, d)
    ensures TasksLockInv(DriverApply(s, d))
  {
  }

  lemma DriverAbortsLock(s: State, d: DriverStep)
    requires AbortsLockInv(s) && DriverEnabled(s, d)
    ensures AbortsLockInv(DriverApply(s, d))
  {
  }

  lemma OwnerLocks(s: State, o: OwnerStep)
    requires LockInv(s) && OwnerEnabled(s, o)
    ensures LockInv(OwnerApply(s, o))
  {
  }

  lemma RegistryKept(s: State, a: Action)
    requires Inv(s) && Enabled(s, a)
    ensures RegistryInv(Apply(s, a))
  {
    match a {
      case ListenerAct(l, step) => ListenerRegistry(s, l, step);
      case DriverAct(d) => DriverRegistry(s, d);
      case OwnerAct(o) => OwnerRegistry(s, o);
      case Finish(t) => assert Apply(s, a).tasks.Keys == s.tasks.Keys;
    }
  }

  lemma ListenerRegistry(s: State, l: nat, step: Step)
    requires LockInv(s) && RegistryInv(s) && ListenerEnabled(s, l, step)
    ensures RegistryInv(ListenerApply(s, l, step))
  {
    var s' := ListenerApply(s, l, step);
    assert HoldsTasks(s.listeners[l]) ==> LockedPhase(s) == s.listeners[l];
    match step {
      case Spawn(t) => assert s'.tasks.Keys == s.tasks.Keys + {t};
      case RequestAbort => assert s'.tasks.Keys == s.tasks.Keys;
      case TryJoin(t) => assert s'.tasks.Keys == s.tasks.Keys - {t};
      case _ =>
    }
  }

  lemma DriverRegistry(s: State, d: DriverStep)
    requires LockInv(s) && RegistryInv(s) && DriverEnabled(s, d)
    ensures RegistryInv(DriverApply(s, d))
  {
    var s' := DriverApply(s, d);
    match d {
      case AbortEveryTask => assert s'.tasks.Keys == s.tasks.Keys;
      case JoinTask(t) => assert s'.tasks.Keys == s.tasks.Keys - {t};
      case _ =>
    }
  }

  lemma OwnerRegistry(s: State, o: OwnerStep)
    requires RegistryInv(s) && OwnerEnabled(s, o)
    ensures RegistryInv(OwnerApply(s, o))
  {
    assert OwnerApply(s, o).tasks.Keys == s.tasks.Keys;
  }

  lemma DropKept(s: State, a: Action)
    requires Inv(s) && Enabled(s, a)
    ensures DropInv(Apply(s, a))
  {
    match a {
      case ListenerAct(l, step) => ListenerDrop(s, l, step);
      case DriverAct(d) => DriverDrop(s, d);
      case OwnerAct(o) => OwnerDrop(s, o);
      case Finish(_) => assert forall t :: Unasked(Apply(s, a), t) ==> Unasked(s, t);
    }
  }

  lemma ListenerDrop(s: State, l: nat, step: Step)
    requires LockInv(s) && DropInv(s) && ListenerEnabled(s, l, step)
    ensures DropInv(ListenerApply(s, l, step))
  {
    assert HoldsTasks(s.listeners[l]) ==> LockedPhase(s) == s.listeners[l];
    ListenerDropFlags(s, l, step);
    var s' := ListenerApply(s, l, step);
    forall t | Unasked(s', t) && !BeingRegistered(s', t)
      ensures s'.owner == s.owner
      ensures SweepDone(s) || s.owner.Sweeping? ==> Unasked(s, t) && !BeingRegistered(s, t)
    {
      ListenerCovers(s, l, step, t);
    }
  }

  lemma ListenerDropFlags(s: State, l: nat, step: Step)
    requires LockInv(s) && DropFlags(s) && ListenerEnabled(s, l, step)
    ensures DropFlags(ListenerApply(s, l, step))
  {
    assert HoldsTasks(s.listeners[l]) ==> LockedPhase(s) == s.listeners[l];
  }

  /** A listener step leaves no task uncovered once the sweep has begun. */
  lemma ListenerCovers(s: State, l: nat, step: Step, t: nat)
    requires LockInv(s) && DropFlags(s) && ListenerEnabled(s, l, step)
    requires var s' := ListenerApply(s, l, step); Unasked(s', t) && !BeingRegistered(s', t)
    ensures ListenerApply(s, l, step).owner == s.owner
    ensures SweepDone(s) || s.owner.Sweeping? ==> Unasked(s, t) && !BeingRegistered(s, t)
  {
    assert HoldsTasks(s.listeners[l]) ==> LockedPhase(s) == s.listeners[l];
  }

  lemma DriverDrop(s: State, d: DriverStep)
    requires LockInv(s) && DropInv(s) && DriverEnabled(s, d)
    ensures DropInv(DriverApply(s, d))
  {
    var s' := DriverApply(s, d);
    DriverKeepsHolder(s, d);
    assert forall t :: Unasked(s', t) ==> Unasked(s, t);
  }

  lemma DriverKeepsHolder(s: State, d: DriverStep)
    requires LockInv(s) && DriverEnabled(s, d)
    ensures LockedPhase(DriverApply(s, d)) == LockedPhase(s)
  {
  }

  lemma OwnerDrop(s: State, o: OwnerStep)
    requires LockInv(s) && RegistryInv(s) && DropInv(s) && OwnerEnabled(s, o)
    ensures DropInv(OwnerApply(s, o))
  {
    var s' := OwnerApply(s, o);
    assert LockedPhase(s') == LockedPhase(s);
    assert forall t :: Unasked(s', t) ==> Unasked(s, t);
  }

  lemma DriveKept(s: State, a: Action)
    requires Inv(s) && Enabled(s, a)
    ensures DriveInv(Apply(s, a))
  {
    match a {
      case ListenerAct(l, step) => ListenerDrive(s, l, step);
      case DriverAct(d) => DriverDrive(s, d);
      case OwnerAct(o) => assert OwnerApply(s, o).tasks.Keys == s.tasks.Keys;
      case Finish(_) =>
    }
  }

  lemma ListenerDrive(s: State, l: nat, step: Step)
    requires DriveInv(s) && ListenerEnabled(s, l, step)
    ensures DriveInv(ListenerApply(s, l, step))
  {
  }

  lemma DriverDrive(s: State, d: DriverStep)
    requires DriveInv(s) && DriverEnabled(s, d)
    ensures DriveInv(DriverApply(s, d))
  {
    var s' := DriverApply(s, d);
    if s.driver.Serving? && s' != s && s'.joined != s.joined {
      assert s'.joined[..|s.joined|] == s.joined;
    }
  }

  lemma TokensKept(s: State, a: Action)
    requires Inv(s) && Enabled(s, a)
    ensures TokenInv(Apply(s, a))
  {
    match a {
      case ListenerAct(l, step) => ListenerTokens(s, l, step);
      case DriverAct(d) => DriverTokens(s, d);
      case OwnerAct(o) => OwnerTokens(s, o);
      case Finish(_) =>
    }
  }

  lemma ListenerTokens(s: State, l: nat, step: Step)
    requires TokenInv(s) && ListenerEnabled(s, l, step)
    ensures TokenInv(ListenerApply(s, l, step))
  {
  }

  lemma DriverTokens(s: State, d: DriverStep)
    requires TokenInv(s) && DriverEnabled(s, d)
    ensures TokenInv(DriverApply(s, d))
  {
  }

  lemma OwnerTokens(s: State, o: OwnerStep)
    requires TokenInv(s) && DropInv(s) && OwnerEnabled(s, o)
    ensures TokenInv(OwnerApply(s, o))
  {
  }

  lemma StepKeepsInv(s: State, a: Action)
    requires Inv(s) && Enabled(s, a)
    ensures Inv(Apply(s, a))
  {
    PermitsKept(s, a);
    TokensKept(s, a);
    LocksKept(s, a);
    RegistryKept(s, a);
    DropKept(s, a);
    DriveKept(s, a);
  }

  /** Every state of every run, from any number of listeners, satisfies the invariant. */
  lemma {:induction false} RunsKeepInv(ids: set<nat>, run: seq<Action>)
    requires After(Init(ids), run).Some?
    ensures Inv(After(Init(ids), run).value)
  {
    if run == [] {
      assert Holders(Init(ids).listeners) == {} && Live(map[]) == {};
    } else {
      RunsKeepInv(ids, run[..|run| - 1]);
      StepKeepsInv(After(Init(ids), run[..|run| - 1]).value, run[|run| - 1]);
    }
  }

  // -------------------------------------------------------------- main results

  /** In every state of every run: permits are conserved, and a free task-set lock means registry and set agree. */
  lemma PermitsAndRegistry(ids: set<nat>, run: seq<Action>)
    requires After(Init(ids), run).Some?
    ensures var s := After(Init(ids), run).value;
            && s.permits + |Holders(s.listeners)| + |Live(s.tasks)| == MAX_CONCURRENT_CONNS
            && (s.tasksLock == None ==> s.aborts == s.tasks.Keys)
  {
    RunsKeepInv(ids, run);
  }

  /**
   When `drive` returns, no listener or connection task is left, the abort registry is
   empty, all permits are back, and the result is the first listener loss the main loop
   joined, or success when it joined none.
   */
  lemma ReturnedRunIsClean(ids: set<nat>, run: seq<Action>)
    requires After(Init(ids), run).Some? && After(Init(ids), run).value.driver.Returned?
    ensures var s := After(Init(ids), run).value;
            && s.listeners == map[] && s.tasks == map[] && s.aborts == {}
            && s.permits == MAX_CONCURRENT_CONNS && s.tasksLock == None
            && ResultFits(s.driver.result, s.joined)
            && (s.driver.result.RunErr? <==> exists i :: 0 <= i < |s.joined| && s.joined[i].Lost?)
  {
    RunsKeepInv(ids, run);
    ReturnedStateIsClean(After(Init(ids), run).value);
  }

  lemma ReturnedStateIsClean(s: State)
    requires Inv(s) && s.driver.Returned?
    ensures s.listeners == map[] && s.tasks == map[] && s.aborts == {}
    ensures s.permits == MAX_CONCURRENT_CONNS && s.tasksLock == None
    ensures ResultFits(s.driver.result, s.joined)
    ensures s.driver.result.RunErr? <==> exists i :: 0 <= i < |s.joined| && s.joined[i].Lost?
  {
    assert Holders(s.listeners) == {} && Live(s.tasks) == {};
    if s.driver.result.RunErr? {
      assert s.joined[|s.joined| - 1].Lost?;
    }
  }

  /**
   Once the dropped run's sweep is over, every task of the set has finished or been asked
   to abort, except at most the one whose registration is still under way.
   */
  lemma DroppedRunStopsEveryTask(ids: set<nat>, run: seq<Action>, t: nat)
    requires After(Init(ids), run).Some?
    requires var s := After(Init(ids), run).value; SweepDone(s) && t in s.tasks
    ensures var s := After(Init(ids), run).value;
            && (!s.tasks[t].live || s.tasks[t].abortRequested || BeingRegistered(s, t))
            && (s.tasksLock == None ==> !s.tasks[t].live || s.tasks[t].abortRequested)
  {
    RunsKeepInv(ids, run);
  }

  /** That last registration cannot be left, by any step, without the task finished or asked to abort: its token check comes after the sweep. */
  lemma LateRegistrationAborts(s: State, a: Action, t: nat)
    requires Inv(s) && Enabled(s, a)
    requires SweepDone(s) && BeingRegistered(s, t)
    ensures var s' := Apply(s, a);
            t in s'.tasks && (!s'.tasks[t].live || s'.tasks[t].abortRequested || BeingRegistered(s', t))
  {
    StepKeepsInv(s, a);
    SweepStaysDone(s, a);
    RegisteringTaskStays(s, a, t);
  }

  lemma SweepStaysDone(s: State, a: Action)
    requires Enabled(s, a) && SweepDone(s)
    ensures SweepDone(Apply(s, a))
  {
  }

  lemma RegisteringTaskStays(s: State, a: Action, t: nat)
    requires LockInv(s) && RegistryInv(s) && Enabled(s, a) && BeingRegistered(s, t)
    ensures t in Apply(s, a).tasks
  {
    assert t in s.tasks;
    match a {
      case ListenerAct(l, step) => ListenerKeepsTask(s, l, step, t);
      case DriverAct(d) =>
      case OwnerAct(o) => assert OwnerApply(s, o).tasks.Keys == s.tasks.Keys;
      case Finish(_) =>
    }
  }

  lemma ListenerKeepsTask(s: State, l: nat, step: Step, t: nat)
    requires LockInv(s) && t in s.tasks && ListenerEnabled(s, l, step) && BeingRegistered(s, t)
    ensures t in ListenerApply(s, l, step).tasks
  {
    assert HoldsTasks(s.listeners[l]) ==> LockedPhase(s) == s.listeners[l];
  }
}
