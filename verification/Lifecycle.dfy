/**
 One service run as a transition system: accept loops, the connection task set
 and its lock, the abort registry and its mutex, the permit pool, the two
 cancellation tokens, the driver, and the guard that aborts everything when the
 run is dropped. Every step is one indivisible action of one of them; a run is
 any sequence of enabled steps.
 */
module Lifecycle {
  import opened Bytes

  const MAX_CONCURRENT_CONNS: nat := 1024

  /** How a listener task ends: cleanly, or lost to an accept error or a panic. */
  datatype ListenerResult = Stopped | Lost(cause: nat)

  /** Where an accept loop stands; the last eight phases are inside `spawn_connection`. */
  datatype Listener =
    | Accepting
    | AwaitPermit
    | HoldPermit
    | Ended(result: ListenerResult)
    | AwaitLock
    | Locked
    | Spawned(task: nat)
    | Registering(task: nat)
    | Inserted(task: nat)
    | CheckedAccept(task: nat)
    | MustAbort(task: nat)
    | Reaping
    | ReapRemove(task: nat)

  predicate HoldsPermit(p: Listener) { p.HoldPermit? || p.AwaitLock? || p.Locked? }

  predicate HoldsAborts(p: Listener) { p.Registering? || p.Inserted? || p.CheckedAccept? || p.MustAbort? }

  predicate HoldsTasks(p: Listener) { p.Locked? || p.Spawned? || HoldsAborts(p) || p.Reaping? || p.ReapRemove? }

  datatype Task = Task(live: bool, abortRequested: bool)

  datatype Exit = ProxyClosed | Interrupt | Terminate | ParentClosedStdin | ListenerFailed(cause: nat)

  datatype RunResult = RunOk | RunErr(cause: nat)

  /** `final` tells the closing join of the task set from the one inside `cancel_connections`. */
  datatype Driver =
    | Serving
    | Stopping(exit: Exit)
    | JoinListeners(exit: Exit)
    | Draining(exit: Exit)
    | Cancelling(exit: Exit)
    | ForceWait(exit: Exit)
    | AbortAll(exit: Exit)
    | Joining(exit: Exit, final: bool)
    | JoinLoop(exit: Exit, final: bool)
    | JoinRemove(exit: Exit, final: bool, task: nat)
    | Returned(result: RunResult)
    | Abandoned

  datatype Owner = Alive | AcceptStopped | ConnsCancelled | Sweeping(todo: set<nat>) | Swept | Dropped

  datatype Holder = ByListener(id: nat) | ByDriver | ByOwner

  datatype State = State(
    accept: bool,
    conns: bool,
    permits: nat,
    listeners: map<nat, Listener>,
    tasks: map<nat, Task>,
    tasksLock: Option<Holder>,
    aborts: set<nat>,
    abortsLock: Option<Holder>,
    driver: Driver,
    owner: Owner,
    joined: seq<ListenerResult>)   // the results the main loop has joined, in order

  /** A fresh run with one accept loop per declared transport. */
  function Init(ids: set<nat>): State {
    State(false, false, MAX_CONCURRENT_CONNS, map l | l in ids :: Accepting, map[], None, {}, None, Serving, Alive, [])
  }

  // -------------------------------------------------------------------- steps

  datatype Step =
    | Accepted | Transient | FatalAccept(cause: nat) | SeesCancel | Panic(cause: nat) | Killed
    | TakePermit | CheckAccept | LockTasks | Spawn(task: nat) | LockAborts | Insert | ReadAccept | ReadConns
    | RequestAbort | TryJoin(task: nat) | RemoveHandle | EndReap

  datatype DriverStep =
    | JoinStopped(listener: nat) | JoinLost(listener: nat) | NoListeners | Signal(terminate: bool) | StdinClosed
    | StopAccepting | JoinRest(listener: nat) | ListenersGone | DrainDone | DrainGaveUp | CancelConns | ForceIdle
    | ForceTimeout | AbortEveryTask | LockForJoin | JoinTask(task: nat) | ForgetHandle | JoinDone | DropRun

  datatype OwnerStep = StopAccept | CancelAll | BeginSweep | SweepOne(task: nat) | EndSweep | TryLockAbort

  datatype Action = ListenerAct(id: nat, step: Step) | Finish(task: nat) | DriverAct(d: DriverStep) | OwnerAct(o: OwnerStep)

  function AbortIn(tasks: map<nat, Task>, which: set<nat>): map<nat, Task> {
    map t | t in tasks :: if t in which then tasks[t].(abortRequested := true) else tasks[t]
  }

  /** `client_accept_loop`, `connection_permit` and `spawn_connection`. */
  predicate ListenerEnabled(s: State, l: nat, a: Step) {
    l in s.listeners &&
    var p := s.listeners[l];
    match a
    case Accepted => p.Accepting?
    case Transient => p.Accepting?
    case FatalAccept(_) => p.Accepting?
    case SeesCancel => (p.Accepting? || p.AwaitPermit?) && s.accept
    case Panic(_) => p.Accepting? || p.AwaitPermit? || p.HoldPermit? || p.AwaitLock?
    case Killed => s.driver.Abandoned? && (p.Accepting? || p.AwaitPermit? || p.AwaitLock?)
    case TakePermit => p.AwaitPermit? && s.permits > 0
    case CheckAccept => p.HoldPermit?
    case LockTasks => p.AwaitLock? && s.tasksLock == None
    case Spawn(t) => p.Locked? && t !in s.tasks
    case LockAborts => p.Spawned? && s.abortsLock == None
    case Insert => p.Registering?
    case ReadAccept => p.Inserted?
    case ReadConns => p.CheckedAccept?
    case RequestAbort => p.MustAbort?
    case TryJoin(t) => p.Reaping? && t in s.tasks && !s.tasks[t].live
    case RemoveHandle => p.ReapRemove? && s.abortsLock == None
    case EndReap => p.Reaping?
  }

  function MoveListener(s: State, l: nat, p: Listener): State {
    s.(listeners := s.listeners[l := p])
  }

  function Released(s: State, p: Listener): nat {
    if HoldsPermit(p) then s.permits + 1 else s.permits
  }

  function ListenerApply(s: State, l: nat, a: Step): State
    requires ListenerEnabled(s, l, a)
  {
    var p := s.listeners[l];
    match a
    case Accepted => MoveListener(s, l, AwaitPermit)
    case Transient => s
    case FatalAccept(c) => MoveListener(s, l, Ended(Lost(c)))
    case SeesCancel => MoveListener(s, l, Ended(Stopped))
    case Panic(c) => MoveListener(s, l, Ended(Lost(c))).(permits := Released(s, p))
    case Killed => s.(listeners := s.listeners - {l}, permits := Released(s, p))
    case TakePermit => MoveListener(s, l, HoldPermit).(permits := s.permits - 1)
    case CheckAccept =>
      if s.accept then MoveListener(s, l, Ended(Stopped)).(permits := s.permits + 1)
      else MoveListener(s, l, AwaitLock)
    case LockTasks => MoveListener(s, l, Locked).(tasksLock := Some(ByListener(l)))
    case Spawn(t) => MoveListener(s, l, Spawned(t)).(tasks := s.tasks[t := Task(true, false)])
    case LockAborts => MoveListener(s, l, Registering(p.task)).(abortsLock := Some(ByListener(l)))
    case Insert => MoveListener(s, l, Inserted(p.task)).(aborts := s.aborts + {p.task})
    case ReadAccept => MoveListener(s, l, if s.accept then MustAbort(p.task) else CheckedAccept(p.task))
    case ReadConns =>
      if s.conns then MoveListener(s, l, MustAbort(p.task))
      else MoveListener(s, l, Reaping).(abortsLock := None)
    case RequestAbort => MoveListener(s, l, Reaping).(abortsLock := None, tasks := AbortIn(s.tasks, {p.task}))
    case TryJoin(t) => MoveListener(s, l, ReapRemove(t)).(tasks := s.tasks - {t})
    case RemoveHandle => MoveListener(s, l, Reaping).(aborts := s.aborts - {p.task})
    case EndReap => MoveListener(s, l, Accepting).(tasksLock := None)
  }

  /** `drive`, `cancel_connections` and `join_connection_tasks`; a run is dropped only where it awaits. */
  predicate DriverEnabled(s: State, a: DriverStep) {
    match a
    case JoinStopped(l) => s.driver.Serving? && l in s.listeners && s.listeners[l] == Ended(Stopped)
    case JoinLost(l) => s.driver.Serving? && l in s.listeners && s.listeners[l].Ended? && s.listeners[l].result.Lost?
    case NoListeners => s.driver.Serving? && s.listeners == map[]
    case Signal(_) => s.driver.Serving?
    case StdinClosed => s.driver.Serving?
    case StopAccepting => s.driver.Stopping?
    case JoinRest(l) => s.driver.JoinListeners? && l in s.listeners && s.listeners[l].Ended?
    case ListenersGone => s.driver.JoinListeners? && s.listeners == map[]
    case DrainDone => s.driver.Draining? && s.permits == MAX_CONCURRENT_CONNS
    case DrainGaveUp => s.driver.Draining?
    case CancelConns => s.driver.Cancelling?
    case ForceIdle => s.driver.ForceWait? && s.permits == MAX_CONCURRENT_CONNS
    case ForceTimeout => s.driver.ForceWait?
    case AbortEveryTask => s.driver.AbortAll? && s.tasksLock == None
    case LockForJoin => s.driver.Joining? && s.tasksLock == None
    case JoinTask(t) => s.driver.JoinLoop? && t in s.tasks && !s.tasks[t].live
    case ForgetHandle => s.driver.JoinRemove? && s.abortsLock == None
    case JoinDone => s.driver.JoinLoop? && s.tasks == map[]
    case DropRun => s.driver.Serving? || s.driver.JoinListeners? || s.driver.Draining? || s.driver.ForceWait?
                    || s.driver.AbortAll? || s.driver.Joining? || s.driver.JoinLoop?
  }

  function ResultOf(exit: Exit): RunResult {
    if exit.ListenerFailed? then RunErr(exit.cause) else RunOk
  }

  function DriverApply(s: State, a: DriverStep): State
    requires DriverEnabled(s, a)
  {
    match a
    case JoinStopped(l) => s.(listeners := s.listeners - {l}, joined := s.joined + [Stopped])
    case JoinLost(l) =>
      s.(listeners := s.listeners - {l}, joined := s.joined + [s.listeners[l].result],
         driver := Stopping(ListenerFailed(s.listeners[l].result.cause)))
    case NoListeners => s.(driver := Stopping(ProxyClosed))
    case Signal(terminate) => s.(driver := Stopping(if terminate then Terminate else Interrupt))
    case StdinClosed => s.(driver := Stopping(ParentClosedStdin))
    case StopAccepting => s.(accept := true, driver := JoinListeners(s.driver.exit))
    case JoinRest(l) => s.(listeners := s.listeners - {l})
    case ListenersGone =>
      s.(driver := if s.driver.exit.Terminate? || s.driver.exit.ParentClosedStdin? then Cancelling(s.driver.exit)
                   else Draining(s.driver.exit))
    case DrainDone => s.(driver := Joining(s.driver.exit, true))
    case DrainGaveUp => s.(driver := Cancelling(s.driver.exit))
    case CancelConns => s.(conns := true, driver := ForceWait(s.driver.exit))
    case ForceIdle => s.(driver := Joining(s.driver.exit, false))
    case ForceTimeout => s.(driver := AbortAll(s.driver.exit))
    case AbortEveryTask => s.(tasks := AbortIn(s.tasks, s.tasks.Keys), driver := Joining(s.driver.exit, false))
    case LockForJoin => s.(tasksLock := Some(ByDriver), driver := JoinLoop(s.driver.exit, s.driver.final))
    case JoinTask(t) => s.(tasks := s.tasks - {t}, driver := JoinRemove(s.driver.exit, s.driver.final, t))
    case ForgetHandle => s.(aborts := s.aborts - {s.driver.task}, driver := JoinLoop(s.driver.exit, s.driver.final))
    case JoinDone =>
      s.(tasksLock := None,
         driver := if s.driver.final then Returned(ResultOf(s.driver.exit)) else Joining(s.driver.exit, true))
    case DropRun => s.(driver := Abandoned, tasksLock := if s.driver.JoinLoop? then None else s.tasksLock)
  }

  /** `RunOwner::drop`, once the run has returned or been dropped. */
  predicate OwnerEnabled(s: State, a: OwnerStep) {
    match a
    case StopAccept => s.owner.Alive? && (s.driver.Returned? || s.driver.Abandoned?)
    case CancelAll => s.owner.AcceptStopped?
    case BeginSweep => s.owner.ConnsCancelled? && s.abortsLock == None
    case SweepOne(t) => s.owner.Sweeping? && t in s.owner.todo
    case EndSweep => s.owner.Sweeping? && s.owner.todo == {}
    case TryLockAbort => s.owner.Swept?
  }

  function OwnerApply(s: State, a: OwnerStep): State
    requires OwnerEnabled(s, a)
  {
    match a
    case StopAccept => s.(accept := true, owner := AcceptStopped)
    case CancelAll => s.(conns := true, owner := ConnsCancelled)
    case BeginSweep => s.(abortsLock := Some(ByOwner), owner := Sweeping(s.aborts))
    case SweepOne(t) => s.(tasks := AbortIn(s.tasks, {t}), owner := Sweeping(s.owner.todo - {t}))
    case EndSweep => s.(abortsLock := None, owner := Swept)
    case TryLockAbort =>
      s.(owner := Dropped, tasks := if s.tasksLock == None then AbortIn(s.tasks, s.tasks.Keys) else s.tasks)
  }

  predicate Enabled(s: State, a: Action) {
    match a
    case ListenerAct(l, step) => ListenerEnabled(s, l, step)
    case Finish(t) => t in s.tasks && s.tasks[t].live
    case DriverAct(d) => DriverEnabled(s, d)
    case OwnerAct(o) => OwnerEnabled(s, o)
  }

  /** A connection task frees its permit as it ends. */
  function Apply(s: State, a: Action): State
    requires Enabled(s, a)
  {
    match a
    case ListenerAct(l, step) => ListenerApply(s, l, step)
    case Finish(t) => s.(tasks := s.tasks[t := s.tasks[t].(live := false)], permits := s.permits + 1)
    case DriverAct(d) => DriverApply(s, d)
    case OwnerAct(o) => OwnerApply(s, o)
  }

  /** The state after a run, `None` if some step was not enabled. */
  function After(s: State, run: seq<Action>): Option<State> {
    if run == [] then Some(s)
    else
      match After(s, run[..|run| - 1])
      case None => None
      case Some(t) => if Enabled(t, run[|run| - 1]) then Some(Apply(t, run[|run| - 1])) else None
  }

  // --------------------------------------------------------------- invariants

  function Holders(m: map<nat, Listener>): set<nat> {
    set l | l in m && HoldsPermit(m[l])
  }

  function Live(m: map<nat, Task>): set<nat> {
    set t | t in m && m[t].live
  }

  /** Permits are conserved: free, held by an accept loop, or held by a live task. */
  predicate PermitInv(s: State) {
    s.permits + |Holders(s.listeners)| + |Live(s.tasks)| == MAX_CONCURRENT_CONNS
  }

  predicate TasksLockInv(s: State) {
    && (forall l :: l in s.listeners ==> (HoldsTasks(s.listeners[l]) <==> s.tasksLock == Some(ByListener(l))))
    && (s.tasksLock.Some? && s.tasksLock.value.ByListener? ==> s.tasksLock.value.id in s.listeners)
    && (s.tasksLock == Some(ByDriver) <==> s.driver.JoinLoop? || s.driver.JoinRemove?)
    && s.tasksLock != Some(ByOwner)
  }

  predicate AbortsLockInv(s: State) {
    && (forall l :: l in s.listeners ==> (HoldsAborts(s.listeners[l]) <==> s.abortsLock == Some(ByListener(l))))
    && (s.abortsLock.Some? && s.abortsLock.value.ByListener? ==> s.abortsLock.value.id in s.listeners)
    && (s.abortsLock == Some(ByOwner) <==> s.owner.Sweeping?)
    && s.abortsLock != Some(ByDriver)
  }

  /** The phase of the accept loop that holds the task-set lock; `Accepting` stands for none. */
  function LockedPhase(s: State): Listener {
    if s.tasksLock.Some? && s.tasksLock.value.ByListener? && s.tasksLock.value.id in s.listeners
    then s.listeners[s.tasksLock.value.id] else Accepting
  }

  /** The registry holds exactly the tasks of the set, up to the one the lock holder is adding or removing. */
  predicate RegistryInv(s: State) {
    var p := LockedPhase(s);
    if p.Spawned? || p.Registering? then p.task in s.tasks && s.aborts == s.tasks.Keys - {p.task}
    else if p.ReapRemove? then p.task !in s.tasks && s.aborts == s.tasks.Keys + {p.task}
    else if s.driver.JoinRemove? then s.driver.task !in s.tasks && s.aborts == s.tasks.Keys + {s.driver.task}
    else s.aborts == s.tasks.Keys && (p.Inserted? || p.CheckedAccept? || p.MustAbort? ==> p.task in s.tasks)
  }

  /** Whether the lock holder has spawned `t` and will still read the tokens, or will abort it. */
  predicate BeingRegistered(s: State, t: nat) {
    var p := LockedPhase(s);
    (p.Spawned? || p.Registering? || p.Inserted? || p.MustAbort?) && p.task == t
  }

  predicate SweepDone(s: State) { s.owner.Swept? || s.owner.Dropped? }

  /** The drop guard cancels both tokens before it sweeps, and no registration that read a live token outlasts the sweep's start. */
  predicate DropFlags(s: State) {
    && (!s.owner.Alive? ==> s.accept)
    && (!s.owner.Alive? && !s.owner.AcceptStopped? ==> s.conns)
    && (LockedPhase(s).CheckedAccept? ==> s.owner.Alive? || s.owner.AcceptStopped? || s.owner.ConnsCancelled?)
  }

  predicate Unasked(s: State, t: nat) {
    t in s.tasks && s.tasks[t].live && !s.tasks[t].abortRequested
  }

  /** A live task nobody has asked to stop is still ahead of the sweep or of its own registration check. */
  ghost predicate DropCover(s: State) {
    && (s.owner.Sweeping? ==> forall t :: Unasked(s, t) ==> t in s.owner.todo || BeingRegistered(s, t))
    && (SweepDone(s) ==> forall t :: Unasked(s, t) ==> BeingRegistered(s, t))
  }

  ghost predicate DropInv(s: State) { DropFlags(s) && DropCover(s) }

  predicate ListenersJoined(d: Driver) {
    d.Draining? || d.Cancelling? || d.ForceWait? || d.AbortAll? || d.Joining? || d.JoinLoop? || d.JoinRemove? || d.Returned?
  }

  predicate HasExit(d: Driver) {
    d.Stopping? || d.JoinListeners? || (ListenersJoined(d) && !d.Returned?)
  }

  /** The result fits the listener results the main loop saw: an error is the first loss, success means none. */
  predicate ResultFits(result: RunResult, joined: seq<ListenerResult>) {
    match result
    case RunOk => forall i :: 0 <= i < |joined| ==> joined[i] == Stopped
    case RunErr(c) =>
      && joined != [] && joined[|joined| - 1] == Lost(c)
      && forall i :: 0 <= i < |joined| - 1 ==> joined[i] == Stopped
  }

  predicate DriveInv(s: State) {
    && (ListenersJoined(s.driver) ==> s.listeners == map[])
    && (s.driver.Returned? ==> s.tasks == map[])
    && (s.driver.Serving? ==> ResultFits(RunOk, s.joined))
    && (HasExit(s.driver) ==> ResultFits(ResultOf(s.driver.exit), s.joined))
    && (s.driver.Returned? ==> ResultFits(s.driver.result, s.joined))
  }

  /** After the main loop acceptance is cancelled, a forced teardown has cancelled the connections, nothing is aborted before, and no loop stops by itself. */
  predicate TokenInv(s: State) {
    && (s.driver.JoinListeners? || ListenersJoined(s.driver) ==> s.accept)
    && (s.driver.ForceWait? || s.driver.AbortAll? ==> s.conns)
    && (s.driver.Joining? || s.driver.JoinLoop? || s.driver.JoinRemove? ==> s.conns || s.driver.final)
    && (s.driver.Draining? ==> !s.driver.exit.Terminate? && !s.driver.exit.ParentClosedStdin?)
    && (forall l :: l in s.listeners && s.listeners[l].MustAbort? ==> s.accept || s.conns)
    && (forall t :: t in s.tasks && s.tasks[t].abortRequested ==> s.accept || s.conns)
    && (forall l :: l in s.listeners && s.listeners[l] == Ended(Stopped) ==> s.accept)
  }

  ghost predicate Inv(s: State) {
    TokenInv(s) && PermitInv(s) && TasksLockInv(s) && AbortsLockInv(s) && RegistryInv(s) && DropInv(s) && DriveInv(s)
  }
}
