/**
 * The guard variables of section 2.8 of the Itanium C++ ABI for any number of
 * tasks and any number of guards, with one mutex, one counting semaphore and one
 * count of waiting tasks shared by all of them.
 *
 * Every step is one semaphore operation of one task together with the code up to
 * its next semaphore operation, so a run is any interleaving at those operations.
 * A task may start initialising further objects while it is initialising one.
 */
module StaticInitGuards {
  import opened Common

  datatype Guard = Guard(ready: bool, pending: bool)

  datatype Pc =
    | Running                            // outside the guard functions
    | AcquireLock(g: nat)                // acquire: about to take the mutex
    | WaitUnlock(g: nat)                 // waiting: about to give the mutex
    | WaitSem(g: nat)                    // waiting: about to take the semaphore
    | WaitLock(g: nat)                   // waiting: about to take the mutex again
    | Decided(g: nat, won: bool)         // acquire: about to give the mutex and return
    | FinishLock(g: nat, success: bool)  // release or abort: about to take the mutex
    | Signal(left: nat)                  // release or abort: waking up the waiting tasks

  /** A task and the guards it has acquired and neither released nor aborted. */
  datatype Task = Task(pc: Pc, owned: set<nat>)

  datatype State = State(
    guards: seq<Guard>,
    tasks: seq<Task>,
    mutex: Option<nat>,
    sem: nat,
    waiting: nat,
    assertFailed: bool)

  datatype Action = Acquire(g: nat) | Release(g: nat) | Abort(g: nat) | Continue

  function Init(guards: nat, tasks: nat): State {
    State(seq(guards, _ => Guard(false, false)), seq(tasks, _ => Task(Running, {})), None, 0, 0, false)
  }

  predicate Holds(pc: Pc) { pc.WaitUnlock? || pc.Decided? || pc.Signal? }

  predicate Waits(pc: Pc) { pc.WaitUnlock? || pc.WaitSem? || pc.WaitLock? }

  function At(s: State, t: nat, pc: Pc): State
    requires t < |s.tasks|
  {
    s.(tasks := s.tasks[t := s.tasks[t].(pc := pc)])
  }

  /** Acquire with the mutex held and nobody initialising g: return 0 or take over. */
  function Decide(s: State, t: nat, g: nat): State
    requires t < |s.tasks| && g < |s.guards|
  {
    if s.guards[g].ready then At(s, t, Decided(g, false))
    else s.(guards := s.guards[g := s.guards[g].(pending := true)],
            tasks := s.tasks[t := Task(Decided(g, true), s.tasks[t].owned + {g})])
  }

  /** One step of task t; None where the task has to block or does nothing of the kind. */
  function Step(s: State, t: nat, a: Action): Option<State>
    requires t < |s.tasks|
  {
    match s.tasks[t].pc
    case Running => (
      match a
      case Acquire(g) => if g < |s.guards| then Some(At(s, t, AcquireLock(g))) else None
      case Release(g) => if g in s.tasks[t].owned then Some(At(s, t, FinishLock(g, true))) else None
      case Abort(g) => if g in s.tasks[t].owned then Some(At(s, t, FinishLock(g, false))) else None
      case Continue => None)
    case AcquireLock(g) => if a.Continue? && g < |s.guards| then LockForAcquire(s, t, g) else None
    case WaitUnlock(g) => if a.Continue? then GiveMutex(s, t, WaitSem(g)) else None
    case WaitSem(g) =>
      if a.Continue? && s.sem > 0 then Some(At(s.(sem := s.sem - 1), t, WaitLock(g))) else None
    case WaitLock(g) => if a.Continue? && g < |s.guards| then LockForWait(s, t, g) else None
    case Decided(g, won) => if a.Continue? then GiveMutex(s, t, Running) else None
    case FinishLock(g, success) => if a.Continue? && g < |s.guards| then LockForFinish(s, t, g, success) else None
    case Signal(left) =>
      if !a.Continue? then None
      else if left > 0 then Some(At(s.(sem := s.sem + 1), t, Signal(left - 1)))
      else GiveMutex(s, t, Running)
  }

  function GiveMutex(s: State, t: nat, pc: Pc): Option<State>
    requires t < |s.tasks|
  {
    // giving the mutex is asserted to succeed, which it does for its holder
    Some(At(s.(mutex := None, assertFailed := s.assertFailed || s.mutex != Some(t)), t, pc))
  }

  function LockForAcquire(s: State, t: nat, g: nat): Option<State>
    requires t < |s.tasks| && g < |s.guards|
  {
    if s.mutex.Some? then None
    else
      var s1 := s.(mutex := Some(t));
      if s.guards[g].pending then Some(At(s1.(waiting := s.waiting + 1), t, WaitUnlock(g)))
      else Some(Decide(s1, t, g))
  }

  function LockForWait(s: State, t: nat, g: nat): Option<State>
    requires t < |s.tasks| && g < |s.guards|
  {
    if s.mutex.Some? then None
    else
      var s1 := s.(mutex := Some(t));
      if s.guards[g].pending then Some(At(s1, t, WaitUnlock(g)))
      else Some(Decide(s1.(waiting := if s.waiting > 0 then s.waiting - 1 else 0), t, g))
  }

  function LockForFinish(s: State, t: nat, g: nat, success: bool): Option<State>
    requires t < |s.tasks| && g < |s.guards|
  {
    if s.mutex.Some? then None
    else
      var guard := s.guards[g];
      var ok := guard.pending && (success || !guard.ready);
      Some(s.(mutex := Some(t),
              assertFailed := s.assertFailed || !ok,
              guards := s.guards[g := Guard(success || guard.ready, false)],
              tasks := s.tasks[t := Task(Signal(s.waiting), s.tasks[t].owned - {g})]))
  }

  /** A run: the steps of any tasks in any order, as long as each of them is possible. */
  function Run(s: State, steps: seq<(nat, Action)>): Option<State>
    decreases |steps|
  {
    if steps == [] then Some(s)
    else
      var (t, a) := steps[0];
      if t >= |s.tasks| then None
      else
        match Step(s, t, a)
        case None => None
        case Some(s') => Run(s', steps[1..])
  }

  // ----- the invariant -----------------------------------------------------------

  function CountWaiting(tasks: seq<Task>): nat {
    if tasks == [] then 0
    else CountWaiting(tasks[..|tasks| - 1]) + if Waits(tasks[|tasks| - 1].pc) then 1 else 0
  }

  /** The mutex is held by exactly the task that is at a point where it holds it. */
  ghost predicate MutexOk(s: State) {
    forall t :: 0 <= t < |s.tasks| ==> (Holds(s.tasks[t].pc) <==> s.mutex == Some(t))
  }

  /** Task t is initialising guard g. */
  ghost predicate Owns(tasks: seq<Task>, t: nat, g: nat) {
    t < |tasks| && g in tasks[t].owned
  }

  /** `pending` holds exactly while one task, and one only, is initialising the guard. */
  ghost predicate OwnersOk(guards: seq<Guard>, tasks: seq<Task>) {
    && (forall t: nat, g: nat :: Owns(tasks, t, g) ==> g < |guards| && guards[g].pending)
    && (forall g :: 0 <= g < |guards| && guards[g].pending ==> exists t: nat :: Owns(tasks, t, g))
    && (forall t: nat, u: nat, g: nat :: Owns(tasks, t, g) && Owns(tasks, u, g) ==> t == u)
  }

  ghost predicate GuardsOk(s: State) {
    forall g :: 0 <= g < |s.guards| ==> !(s.guards[g].ready && s.guards[g].pending)
  }

  ghost predicate TaskOk(s: State, t: nat)
    requires t < |s.tasks|
  {
    match s.tasks[t].pc
    case Running => true
    case AcquireLock(g) => g < |s.guards|
    case WaitUnlock(g) => g < |s.guards|
    case WaitSem(g) => g < |s.guards|
    case WaitLock(g) => g < |s.guards|
    case Decided(g, won) => g < |s.guards| && (if won then g in s.tasks[t].owned else s.guards[g].ready)
    case FinishLock(g, _) => g in s.tasks[t].owned
    case Signal(_) => true
  }

  ghost predicate Inv(s: State) {
    && MutexOk(s)
    && OwnersOk(s.guards, s.tasks)
    && GuardsOk(s)
    && (forall t :: 0 <= t < |s.tasks| ==> TaskOk(s, t))
    && s.waiting == CountWaiting(s.tasks)
    && !s.assertFailed
  }

  lemma {:induction false} CountUpdate(tasks: seq<Task>, t: nat, x: Task)
    requires t < |tasks|
    ensures CountWaiting(tasks[t := x]) + (if Waits(tasks[t].pc) then 1 else 0)
            == CountWaiting(tasks) + (if Waits(x.pc) then 1 else 0)
  {
    var last := |tasks| - 1;
    if t < last {
      CountUpdate(tasks[..last], t, x);
      assert tasks[t := x][..last] == tasks[..last][t := x];
    } else {
      assert tasks[t := x][..last] == tasks[..last];
    }
  }

  lemma {:induction false} CountNone(n: nat)
    ensures CountWaiting(seq(n, _ => Task(Running, {}))) == 0
  {
    if n > 0 {
      CountNone(n - 1);
      assert seq(n, _ => Task(Running, {}))[..n - 1] == seq(n - 1, _ => Task(Running, {}));
    }
  }

  lemma InitInv(guards: nat, tasks: nat)
    ensures Inv(Init(guards, tasks))
  {
    CountNone(tasks);
  }

  /** A task that comes to own nothing new and gives up nothing. */
  lemma MoveKeepsOwners(guards: seq<Guard>, tasks: seq<Task>, t: nat, pc: Pc)
    requires t < |tasks| && OwnersOk(guards, tasks)
    ensures OwnersOk(guards, tasks[t := tasks[t].(pc := pc)])
  {
    var tasks' := tasks[t := tasks[t].(pc := pc)];
    assert forall u: nat, h: nat :: Owns(tasks', u, h) <==> Owns(tasks, u, h);
  }

  /** A task that takes over a guard nobody is initialising. */
  lemma WinKeepsOwners(guards: seq<Guard>, tasks: seq<Task>, t: nat, g: nat, pc: Pc)
    requires t < |tasks| && g < |guards| && OwnersOk(guards, tasks) && !guards[g].pending
    ensures OwnersOk(guards[g := guards[g].(pending := true)], tasks[t := Task(pc, tasks[t].owned + {g})])
  {
    var guards' := guards[g := guards[g].(pending := true)];
    var tasks' := tasks[t := Task(pc, tasks[t].owned + {g})];
    assert forall u: nat, h: nat :: Owns(tasks', u, h) <==> Owns(tasks, u, h) || (u == t && h == g);
    assert Owns(tasks', t, g);
    forall h | 0 <= h < |guards'| && guards'[h].pending && h != g ensures exists u: nat :: Owns(tasks', u, h) {
      var u: nat :| Owns(tasks, u, h);
      assert Owns(tasks', u, h);
    }
  }

  /** A task that is done with a guard. */
  lemma FinishKeepsOwners(guards: seq<Guard>, tasks: seq<Task>, t: nat, g: nat, pc: Pc, ready: bool)
    requires OwnersOk(guards, tasks) && Owns(tasks, t, g) && g < |guards|
    ensures OwnersOk(guards[g := Guard(ready, false)], tasks[t := Task(pc, tasks[t].owned - {g})])
  {
    var tasks' := tasks[t := Task(pc, tasks[t].owned - {g})];
    assert forall u: nat, h: nat :: Owns(tasks', u, h) <==> Owns(tasks, u, h) && !(u == t && h == g);
  }

  /** The task that finishes a guard is the one initialising it, so its asserts hold. */
  lemma OwnerFinishes(s: State, t: nat)
    requires Inv(s) && t < |s.tasks| && s.tasks[t].pc.FinishLock?
    ensures var g := s.tasks[t].pc.g; g < |s.guards| && s.guards[g].pending && !s.guards[g].ready
  {
    assert TaskOk(s, t);
    assert Owns(s.tasks, t, s.tasks[t].pc.g);
  }

  lemma StepTasks(s: State, t: nat, a: Action)
    requires Inv(s) && t < |s.tasks| && Step(s, t, a).Some?
    ensures var s' := Step(s, t, a).value; forall u :: 0 <= u < |s'.tasks| ==> TaskOk(s', u)
  {
    hide OwnersOk, CountWaiting;
    var s' := Step(s, t, a).value;
    forall u | 0 <= u < |s'.tasks| ensures TaskOk(s', u) {
      assert TaskOk(s, u) && TaskOk(s, t);
    }
  }

  /** Every step of every task keeps the invariant. */
  lemma StepInv(s: State, t: nat, a: Action)
    requires Inv(s) && t < |s.tasks| && Step(s, t, a).Some?
    ensures Inv(Step(s, t, a).value)
  {
    hide OwnersOk, CountWaiting, TaskOk;
    var s' := Step(s, t, a).value;
    CountUpdate(s.tasks, t, s'.tasks[t]);
    StepOwners(s, t, a);
    StepTasks(s, t, a);
    if s.tasks[t].pc.FinishLock? {
      OwnerFinishes(s, t);
    }
  }

  lemma StepOwners(s: State, t: nat, a: Action)
    requires Inv(s) && t < |s.tasks| && Step(s, t, a).Some?
    ensures OwnersOk(Step(s, t, a).value.guards, Step(s, t, a).value.tasks)
  {
    hide CountWaiting, OwnersOk, MutexOk, GuardsOk;
    var s' := Step(s, t, a).value;
    assert TaskOk(s, t);
    match s.tasks[t].pc
    case AcquireLock(g) => StepDecide(s, t, g, s');
    case WaitLock(g) => StepDecide(s, t, g, s');
    case FinishLock(g, success) =>
      assert Owns(s.tasks, t, g);
      FinishKeepsOwners(s.guards, s.tasks, t, g, Signal(s.waiting), success || s.guards[g].ready);
    case _ => MoveKeepsOwners(s.guards, s.tasks, t, s'.tasks[t].pc);
  }

  lemma StepDecide(s: State, t: nat, g: nat, s': State)
    requires t < |s.tasks| && g < |s.guards| && OwnersOk(s.guards, s.tasks)
    requires |s'.tasks| == |s.tasks|
    requires || (s'.guards == s.guards && s'.tasks == s.tasks[t := s.tasks[t].(pc := s'.tasks[t].pc)])
             || (!s.guards[g].pending && s'.guards == Decide(s, t, g).guards && s'.tasks == Decide(s, t, g).tasks)
    ensures OwnersOk(s'.guards, s'.tasks)
  {
    hide OwnersOk;
    if s'.guards == s.guards && s'.tasks == s.tasks[t := s.tasks[t].(pc := s'.tasks[t].pc)] {
      MoveKeepsOwners(s.guards, s.tasks, t, s'.tasks[t].pc);
    } else if s.guards[g].ready {
      MoveKeepsOwners(s.guards, s.tasks, t, Decided(g, false));
    } else {
      WinKeepsOwners(s.guards, s.tasks, t, g, Decided(g, true));
    }
  }

  // ----- whole runs ---------------------------------------------------------------

  lemma {:induction false} RunInv(s: State, steps: seq<(nat, Action)>)
    requires Inv(s) && Run(s, steps).Some?
    ensures Inv(Run(s, steps).value)
    decreases |steps|
  {
    hide Inv, Step;
    if steps != [] {
      var (t, a) := steps[0];
      StepInv(s, t, a);
      RunInv(Step(s, t, a).value, steps[1..]);
    }
  }

  /**
   * In every run, with any number of tasks and guards: at most one task is initialising a guard;
   * `pending` is set exactly while one is; `ready` and `pending` are never both set; the count of
   * waiting tasks is right; and no assertion of the guard functions ever fails.
   */
  lemma Safety(guards: nat, tasks: nat, steps: seq<(nat, Action)>)
    requires Run(Init(guards, tasks), steps).Some?
    ensures var s := Run(Init(guards, tasks), steps).value;
            && (forall t: nat, u: nat, g: nat :: Owns(s.tasks, t, g) && Owns(s.tasks, u, g) ==> t == u)
            && (forall g :: 0 <= g < |s.guards| ==>
                  (s.guards[g].pending <==> exists t: nat :: Owns(s.tasks, t, g)))
            && (forall g :: 0 <= g < |s.guards| ==> !(s.guards[g].ready && s.guards[g].pending))
            && s.waiting == CountWaiting(s.tasks)
            && !s.assertFailed
  {
    hide Run, Init;
    InitInv(guards, tasks);
    RunInv(Init(guards, tasks), steps);
  }

  /** Nothing ever clears `ready`. */
  lemma {:induction false} ReadyStays(s: State, steps: seq<(nat, Action)>, g: nat)
    requires Run(s, steps).Some? && g < |s.guards| && s.guards[g].ready
    ensures var s' := Run(s, steps).value; g < |s'.guards| && s'.guards[g].ready
    decreases |steps|
  {
    if steps != [] {
      var (t, a) := steps[0];
      ReadyStep(s, t, a, g);
      ReadyStays(Step(s, t, a).value, steps[1..], g);
    }
  }

  lemma ReadyStep(s: State, t: nat, a: Action, g: nat)
    requires t < |s.tasks| && Step(s, t, a).Some? && g < |s.guards| && s.guards[g].ready
    ensures var s' := Step(s, t, a).value; g < |s'.guards| && s'.guards[g].ready
  {
  }

  /** Once a guard is ready, no acquire of it ever returns 1 again and nobody initialises it. */
  lemma NoAcquireAfterReady(s: State, steps: seq<(nat, Action)>, g: nat, t: nat)
    requires Inv(s) && Run(s, steps).Some? && g < |s.guards| && s.guards[g].ready
    ensures var s' := Run(s, steps).value;
            !Owns(s'.tasks, t, g) && (t < |s'.tasks| ==> s'.tasks[t].pc != Decided(g, true))
  {
    hide Run, CountWaiting;
    RunInv(s, steps);
    ReadyStays(s, steps, g);
    var s' := Run(s, steps).value;
    if t < |s'.tasks| {
      assert TaskOk(s', t);
      assert s'.tasks[t].pc == Decided(g, true) ==> Owns(s'.tasks, t, g);
    }
  }

  // ----- what the calls have done -----------------------------------------------------

  /** Some step of the run completes a release of g. */
  predicate ReleasedIn(s: State, steps: seq<(nat, Action)>, g: nat)
    decreases |steps|
  {
    && steps != []
    && var (t, a) := steps[0];
       && t < |s.tasks| && Step(s, t, a).Some?
       && (s.tasks[t].pc == FinishLock(g, true) || ReleasedIn(Step(s, t, a).value, steps[1..], g))
  }

  lemma ReadyStepIff(s: State, t: nat, a: Action, g: nat)
    requires t < |s.tasks| && Step(s, t, a).Some? && g < |s.guards|
    ensures var s' := Step(s, t, a).value;
            && g < |s'.guards|
            && (s'.guards[g].ready <==> s.guards[g].ready || s.tasks[t].pc == FinishLock(g, true))
  {
  }

  /** A guard is ready exactly if it was, or it has been released; an abort never makes it so. */
  lemma {:induction false} ReadyIff(s: State, steps: seq<(nat, Action)>, g: nat)
    requires Run(s, steps).Some? && g < |s.guards|
    ensures var s' := Run(s, steps).value;
            g < |s'.guards| && (s'.guards[g].ready <==> s.guards[g].ready || ReleasedIn(s, steps, g))
    decreases |steps|
  {
    hide Step;
    if steps != [] {
      var (t, a) := steps[0];
      ReadyStepIff(s, t, a, g);
      ReadyIff(Step(s, t, a).value, steps[1..], g);
    }
  }

  /** Task t is about to lock the mutex to look at g. */
  predicate Locks(s: State, t: nat, g: nat) {
    t < |s.tasks| && (s.tasks[t].pc == AcquireLock(g) || s.tasks[t].pc == WaitLock(g))
  }

  /**
   * What an acquire finds, at first or after waiting, in every run: it waits if some task is
   * initialising the guard, and otherwise returns 1 exactly if no release of it has been completed.
   */
  lemma AcquireMeaning(guards: nat, tasks: nat, steps: seq<(nat, Action)>, t: nat, g: nat)
    requires Run(Init(guards, tasks), steps).Some?
    requires var s := Run(Init(guards, tasks), steps).value; Locks(s, t, g) && Step(s, t, Continue).Some?
    ensures var s := Run(Init(guards, tasks), steps).value;
            var s' := Step(s, t, Continue).value;
            && t < |s'.tasks|
            && s'.tasks[t].pc == (if exists u: nat :: Owns(s.tasks, u, g) then WaitUnlock(g)
                                  else Decided(g, !ReleasedIn(Init(guards, tasks), steps, g)))
            && (s'.tasks[t].pc == Decided(g, true) ==> Owns(s'.tasks, t, g))
  {
    hide Run, ReleasedIn, CountWaiting;
    var start := Init(guards, tasks);
    InitInv(guards, tasks);
    RunInv(start, steps);
    RunSizes(start, steps);
    ReadyIff(start, steps, g);
  }

  /** No step of the run looks at g. */
  predicate Unopposed(s: State, steps: seq<(nat, Action)>, g: nat)
    decreases |steps|
  {
    steps != [] ==>
      var (t, a) := steps[0];
      !Locks(s, t, g) && (t < |s.tasks| && Step(s, t, a).Some? ==> Unopposed(Step(s, t, a).value, steps[1..], g))
  }

  /** Neither ready nor being initialised. */
  predicate Untouched(s: State, g: nat) { g < |s.guards| && s.guards[g] == Guard(false, false) }

  lemma UntouchedStep(s: State, t: nat, a: Action, g: nat)
    requires Inv(s) && t < |s.tasks| && Step(s, t, a).Some? && Untouched(s, g) && !Locks(s, t, g)
    ensures Untouched(Step(s, t, a).value, g)
  {
    hide CountWaiting;
    assert TaskOk(s, t);
    assert s.tasks[t].pc.FinishLock? ==> Owns(s.tasks, t, s.tasks[t].pc.g);
  }

  lemma {:induction false} UntouchedRun(s: State, steps: seq<(nat, Action)>, g: nat)
    requires Inv(s) && Run(s, steps).Some? && Untouched(s, g) && Unopposed(s, steps, g)
    ensures Untouched(Run(s, steps).value, g)
    decreases |steps|
  {
    hide Inv, Step, Untouched, Locks;
    if steps != [] {
      var (t, a) := steps[0];
      StepInv(s, t, a);
      UntouchedStep(s, t, a, g);
      UntouchedRun(Step(s, t, a).value, steps[1..], g);
    }
  }

  /** After an abort the next task that looks at the guard, whenever that is, takes over. */
  lemma AbortHandsOver(s: State, t: nat, g: nat, steps: seq<(nat, Action)>, u: nat)
    requires Inv(s) && t < |s.tasks| && s.tasks[t].pc == FinishLock(g, false) && Step(s, t, Continue).Some?
    requires var s1 := Step(s, t, Continue).value;
             && Run(s1, steps).Some? && Unopposed(s1, steps, g)
             && Locks(Run(s1, steps).value, u, g) && Step(Run(s1, steps).value, u, Continue).Some?
    ensures var s3 := Step(Run(Step(s, t, Continue).value, steps).value, u, Continue).value;
            u < |s3.tasks| && s3.tasks[u].pc == Decided(g, true) && Owns(s3.tasks, u, g)
  {
    hide Run, Unopposed;
    OwnerFinishes(s, t);
    StepInv(s, t, Continue);
    UntouchedRun(Step(s, t, Continue).value, steps, g);
  }

  /** The last call that task t has begun. */
  function LastCall(steps: seq<(nat, Action)>, t: nat): Option<Action> {
    if steps == [] then None
    else
      var (u, a) := steps[|steps| - 1];
      if u == t && !a.Continue? then Some(a) else LastCall(steps[..|steps| - 1], t)
  }

  /** A task inside the guard functions is there because of that call. */
  predicate InCall(pc: Pc, call: Option<Action>) {
    match pc
    case Running => true
    case AcquireLock(g) => call == Some(Acquire(g))
    case WaitUnlock(g) => call == Some(Acquire(g))
    case WaitSem(g) => call == Some(Acquire(g))
    case WaitLock(g) => call == Some(Acquire(g))
    case Decided(g, _) => call == Some(Acquire(g))
    case FinishLock(g, success) => call == Some(if success then Release(g) else Abort(g))
    case Signal(_) => call.Some? && (call.value.Release? || call.value.Abort?)
  }

  lemma StepCall(s: State, t: nat, a: Action, call: Option<Action>)
    requires t < |s.tasks| && Step(s, t, a).Some? && InCall(s.tasks[t].pc, call)
    ensures var s' := Step(s, t, a).value;
            && |s'.tasks| == |s.tasks|
            && InCall(s'.tasks[t].pc, if a.Continue? then call else Some(a))
            && forall u :: 0 <= u < |s.tasks| && u != t ==> s'.tasks[u] == s.tasks[u]
  {
  }

  /** In every run, each task is where its own last call has brought it: a release releases, an abort aborts. */
  lemma {:induction false} CallsInProgress(s: State, before: seq<(nat, Action)>, steps: seq<(nat, Action)>)
    requires Run(s, steps).Some?
    requires forall t :: 0 <= t < |s.tasks| ==> InCall(s.tasks[t].pc, LastCall(before, t))
    ensures var s' := Run(s, steps).value;
            forall t :: 0 <= t < |s'.tasks| ==> InCall(s'.tasks[t].pc, LastCall(before + steps, t))
    decreases |steps|
  {
    hide Step, InCall;
    if steps == [] {
      assert before + steps == before;
    } else {
      var (t, a) := steps[0];
      var next := before + [(t, a)];
      assert next[..|before|] == before && next + steps[1..] == before + steps;
      StepCall(s, t, a, LastCall(before, t));
      CallsInProgress(Step(s, t, a).value, next, steps[1..]);
    }
  }

  lemma {:induction false} CountsItself(tasks: seq<Task>, t: nat)
    requires t < |tasks| && Waits(tasks[t].pc)
    ensures CountWaiting(tasks) >= 1
  {
    if t < |tasks| - 1 {
      CountsItself(tasks[..|tasks| - 1], t);
    }
  }

  /**
   * A task leaves the wait only with the mutex in its hands, having found its guard not pending,
   * and takes exactly itself off the count.
   */
  lemma WaitReturns(s: State, t: nat, a: Action)
    requires Inv(s) && t < |s.tasks| && Step(s, t, a).Some?
    requires Waits(s.tasks[t].pc) && !Waits(Step(s, t, a).value.tasks[t].pc)
    ensures var s' := Step(s, t, a).value;
            && s.mutex == None && s'.mutex == Some(t)
            && !s.guards[s.tasks[t].pc.g].pending
            && s'.waiting == s.waiting - 1 == CountWaiting(s'.tasks)
  {
    hide CountWaiting;
    CountsItself(s.tasks, t);
    StepInv(s, t, a);
  }

  lemma {:induction false} RunAppend(s: State, steps: seq<(nat, Action)>, t: nat, a: Action)
    requires Run(s, steps).Some? && t < |Run(s, steps).value.tasks|
    ensures Run(s, steps + [(t, a)]) == Step(Run(s, steps).value, t, a)
    decreases |steps|
  {
    hide Step;
    if steps == [] {
      assert steps + [(t, a)] == [(t, a)] && [(t, a)][1..] == [];
    } else {
      var (u, b) := steps[0];
      RunAppend(Step(s, u, b).value, steps[1..], t, a);
      TailOfAppend(steps, (t, a));
    }
  }

  /** One more step at the end of a run. */
  lemma Extend(start: State, steps: seq<(nat, Action)>, s: State, t: nat, a: Action)
    returns (steps': seq<(nat, Action)>, s': State)
    requires Run(start, steps) == Some(s) && t < |s.tasks| && Step(s, t, a).Some?
    ensures Run(start, steps') == Some(s') && Step(s, t, a) == Some(s')
  {
    steps', s' := steps + [(t, a)], Step(s, t, a).value;
    RunAppend(start, steps, t, a);
  }

  lemma RunNothing(s: State)
    ensures Run(s, []) == Some(s)
  {
  }

  /** One guard and two tasks: task 0 is initialising and task 1 waits. */
  lemma OneWaiting() returns (steps: seq<(nat, Action)>, s: State)
    ensures Run(Init(1, 2), steps) == Some(s)
    ensures s == State([Guard(false, true)], [Task(Running, {0}), Task(WaitSem(0), {})], None, 0, 1, false)
  {
    hide Run;
    var start := Init(1, 2);
    steps, s := [], start;
    assert Run(start, []) == Some(start) by { RunNothing(start); }
    steps, s := Extend(start, steps, s, 0, Acquire(0));
    steps, s := Extend(start, steps, s, 0, Continue);
    steps, s := Extend(start, steps, s, 0, Continue);
    steps, s := Extend(start, steps, s, 1, Acquire(0));
    steps, s := Extend(start, steps, s, 1, Continue);
    steps, s := Extend(start, steps, s, 1, Continue);
    assert s.tasks[0].owned == {0};
    assert s == State([Guard(false, true)], [Task(Running, {0}), Task(WaitSem(0), {})], None, 0, 1, false);
  }

  /**
   * A constructor that fails: task 0 aborts, and task 1, woken by it, returns from its acquire with 1.
   */
  lemma AbortExample() returns (steps: seq<(nat, Action)>, s: State)
    ensures Run(Init(1, 2), steps) == Some(s)
    ensures s == State([Guard(false, true)], [Task(Running, {}), Task(Decided(0, true), {0})], Some(1), 0, 0, false)
  {
    hide Run;
    var start := Init(1, 2);
    steps, s := OneWaiting();
    steps, s := Extend(start, steps, s, 0, Abort(0));
    steps, s := Extend(start, steps, s, 0, Continue);
    steps, s := Extend(start, steps, s, 0, Continue);
    steps, s := Extend(start, steps, s, 0, Continue);
    assert s.tasks[0].owned == {};
    assert s == State([Guard(false, false)], [Task(Running, {}), Task(WaitSem(0), {})], None, 1, 1, false);
    steps, s := Extend(start, steps, s, 1, Continue);
    steps, s := Extend(start, steps, s, 1, Continue);
    assert s.tasks[1].owned == {0};
    assert s == State([Guard(false, true)], [Task(Running, {}), Task(Decided(0, true), {0})], Some(1), 0, 0, false);
  }

  // ----- lost wake-ups --------------------------------------------------------------

  /** Task t waits for a token although nobody is initialising its guard, and no token is due. */
  predicate Lost(s: State, t: nat) {
    && t < |s.tasks| && s.tasks[t].pc.WaitSem?
    && s.tasks[t].pc.g < |s.guards| && !s.guards[s.tasks[t].pc.g].pending
    && s.sem == 0
    && forall u :: 0 <= u < |s.tasks| ==> !s.tasks[u].pc.Signal?
  }

  /** A run that ends in a lost wake-up of task t. */
  predicate Loses(guards: nat, tasks: nat, steps: seq<(nat, Action)>, t: nat) {
    var r := Run(Init(guards, tasks), steps);
    r.Some? && Lost(r.value, t)
  }

  /** Two guards and two tasks with the mutex free. */
  function Scene(done: bool, p0: Pc, p1: Pc, sem: nat, waiting: nat): State {
    State([Guard(done, !done), Guard(false, true)],
          [Task(p0, if done then {} else {0}), Task(p1, {1})], None, sem, waiting, false)
  }

  /** Task 0 is initialising guard 0 and task 1 guard 1. */
  lemma BothAcquired() returns (steps: seq<(nat, Action)>, s: State)
    ensures Run(Init(2, 2), steps) == Some(s)
    ensures s == Scene(false, Running, Running, 0, 0)
  {
    hide Run;
    var start := Init(2, 2);
    steps, s := [], start;
    assert Run(start, []) == Some(start) by { RunNothing(start); }
    steps, s := Extend(start, steps, s, 0, Acquire(0));
    steps, s := Extend(start, steps, s, 0, Continue);
    steps, s := Extend(start, steps, s, 0, Continue);
    steps, s := Extend(start, steps, s, 1, Acquire(1));
    steps, s := Extend(start, steps, s, 1, Continue);
    steps, s := Extend(start, steps, s, 1, Continue);
    assert s.tasks[0].owned == {0} && s.tasks[1].owned == {1};
    assert s == Scene(false, Running, Running, 0, 0);
  }

  /** Task 1 waits for guard 0, and task 0 releases it. */
  lemma OneReleased() returns (steps: seq<(nat, Action)>, s: State)
    ensures Run(Init(2, 2), steps) == Some(s)
    ensures s == Scene(true, Running, WaitSem(0), 1, 1)
  {
    hide Run;
    var start := Init(2, 2);
    steps, s := BothAcquired();
    steps, s := Extend(start, steps, s, 1, Acquire(0));
    steps, s := Extend(start, steps, s, 1, Continue);
    steps, s := Extend(start, steps, s, 1, Continue);
    assert s == Scene(false, Running, WaitSem(0), 0, 1);
    steps, s := Extend(start, steps, s, 0, Release(0));
    steps, s := Extend(start, steps, s, 0, Continue);
    steps, s := Extend(start, steps, s, 0, Continue);
    steps, s := Extend(start, steps, s, 0, Continue);
    assert s.tasks[0].owned == {};
    assert s == Scene(true, Running, WaitSem(0), 1, 1);
  }

  /**
   * A wake-up can be taken by the wrong task.  Two tasks initialise an object each; task 1 then waits
   * for the object of task 0, which is finished, giving one token.  Before task 1 gets it, task 0
   * waits for the object of task 1 and takes the token itself, to no avail.  Both are blocked for
   * good, although the object task 1 waits for is ready.
   */
  lemma Deadlock() returns (steps: seq<(nat, Action)>, s: State)
    ensures Run(Init(2, 2), steps) == Some(s)
    ensures s == Scene(true, WaitSem(1), WaitSem(0), 0, 2)
    ensures Lost(s, 1) && s.guards[0].ready
    ensures forall t: nat, a :: t < |s.tasks| ==> Step(s, t, a) == None
  {
    hide Run;
    var start := Init(2, 2);
    steps, s := OneReleased();
    steps, s := Extend(start, steps, s, 0, Acquire(1));
    steps, s := Extend(start, steps, s, 0, Continue);
    steps, s := Extend(start, steps, s, 0, Continue);
    steps, s := Extend(start, steps, s, 0, Continue);
    steps, s := Extend(start, steps, s, 0, Continue);
    steps, s := Extend(start, steps, s, 0, Continue);
    assert s == Scene(true, WaitSem(1), WaitSem(0), 0, 2);
  }

  /** The same state with more guards and tasks that have done nothing. */
  function Pad(s: State, guards: nat, tasks: nat): (r: State)
    ensures r == s.(guards := r.guards, tasks := r.tasks)
    ensures |r.guards| == |s.guards| + guards && |r.tasks| == |s.tasks| + tasks
    ensures forall g :: 0 <= g < |s.guards| ==> r.guards[g] == s.guards[g]
    ensures forall t :: 0 <= t < |s.tasks| ==> r.tasks[t] == s.tasks[t]
    ensures forall t :: |s.tasks| <= t < |r.tasks| ==> r.tasks[t] == Task(Running, {})
  {
    s.(guards := s.guards + Init(guards, tasks).guards, tasks := s.tasks + Init(guards, tasks).tasks)
  }

  lemma InitPad(guards: nat, tasks: nat)
    requires guards >= 2 && tasks >= 2
    ensures Init(guards, tasks) == Pad(Init(2, 2), guards - 2, tasks - 2)
  {
    var p := Pad(Init(2, 2), guards - 2, tasks - 2);
    assert Init(guards, tasks).guards == p.guards;
    assert Init(guards, tasks).tasks == p.tasks;
  }

  lemma AtPad(s: State, t: nat, pc: Pc, guards: nat, tasks: nat)
    requires t < |s.tasks|
    ensures At(Pad(s, guards, tasks), t, pc) == Pad(At(s, t, pc), guards, tasks)
  {
    assert At(Pad(s, guards, tasks), t, pc).tasks == Pad(At(s, t, pc), guards, tasks).tasks;
  }

  lemma DecidePad(s: State, t: nat, g: nat, guards: nat, tasks: nat)
    requires t < |s.tasks| && g < |s.guards|
    ensures Decide(Pad(s, guards, tasks), t, g) == Pad(Decide(s, t, g), guards, tasks)
  {
    assert Decide(Pad(s, guards, tasks), t, g).tasks == Pad(Decide(s, t, g), guards, tasks).tasks;
    assert Decide(Pad(s, guards, tasks), t, g).guards == Pad(Decide(s, t, g), guards, tasks).guards;
  }

  /** What the other guards and tasks would add does not matter for a step. */
  lemma StepPad(s: State, t: nat, a: Action, guards: nat, tasks: nat)
    requires t < |s.tasks| && Step(s, t, a).Some?
    ensures Step(Pad(s, guards, tasks), t, a) == Some(Pad(Step(s, t, a).value, guards, tasks))
  {
    hide At, Decide, LockForFinish, Init;
    var locked := s.(mutex := Some(t));
    match s.tasks[t].pc
    case Running =>
      match a {
        case Acquire(g) => AtPad(s, t, AcquireLock(g), guards, tasks);
        case Release(g) => AtPad(s, t, FinishLock(g, true), guards, tasks);
        case Abort(g) => AtPad(s, t, FinishLock(g, false), guards, tasks);
      }
    case AcquireLock(g) =>
      AtPad(locked.(waiting := s.waiting + 1), t, WaitUnlock(g), guards, tasks);
      DecidePad(locked, t, g, guards, tasks);
    case WaitUnlock(g) => GivePad(s, t, WaitSem(g), guards, tasks);
    case WaitSem(g) => AtPad(s.(sem := s.sem - 1), t, WaitLock(g), guards, tasks);
    case WaitLock(g) =>
      AtPad(locked, t, WaitUnlock(g), guards, tasks);
      DecidePad(locked.(waiting := if s.waiting > 0 then s.waiting - 1 else 0), t, g, guards, tasks);
    case Decided(g, won) => GivePad(s, t, Running, guards, tasks);
    case FinishLock(g, success) => FinishPad(s, t, g, success, guards, tasks);
    case Signal(left) =>
      if left > 0 {
        AtPad(s.(sem := s.sem + 1), t, Signal(left - 1), guards, tasks);
      } else {
        GivePad(s, t, Running, guards, tasks);
      }
  }

  lemma GivePad(s: State, t: nat, pc: Pc, guards: nat, tasks: nat)
    requires t < |s.tasks|
    ensures GiveMutex(Pad(s, guards, tasks), t, pc) == Some(Pad(GiveMutex(s, t, pc).value, guards, tasks))
  {
    hide At;
    AtPad(s.(mutex := None, assertFailed := s.assertFailed || s.mutex != Some(t)), t, pc, guards, tasks);
  }

  lemma FinishPad(s: State, t: nat, g: nat, success: bool, guards: nat, tasks: nat)
    requires t < |s.tasks| && g < |s.guards| && LockForFinish(s, t, g, success).Some?
    ensures LockForFinish(Pad(s, guards, tasks), t, g, success) ==
            Some(Pad(LockForFinish(s, t, g, success).value, guards, tasks))
  {
    var p, q := LockForFinish(Pad(s, guards, tasks), t, g, success).value, LockForFinish(s, t, g, success).value;
    assert p.tasks == Pad(q, guards, tasks).tasks;
    assert p.guards == Pad(q, guards, tasks).guards;
  }

  lemma {:induction false} RunPad(s: State, steps: seq<(nat, Action)>, guards: nat, tasks: nat)
    requires Run(s, steps).Some?
    ensures Run(Pad(s, guards, tasks), steps) == Some(Pad(Run(s, steps).value, guards, tasks))
    decreases |steps|
  {
    hide Step;
    if steps != [] {
      var (t, a) := steps[0];
      StepPad(s, t, a, guards, tasks);
      RunPad(Step(s, t, a).value, steps[1..], guards, tasks);
    }
  }

  /** With two guards and two tasks or more, a task can be left waiting for a guard that is ready. */
  lemma LostWakeUp(guards: nat, tasks: nat) returns (steps: seq<(nat, Action)>)
    requires guards >= 2 && tasks >= 2
    ensures Loses(guards, tasks, steps, 1)
    ensures var s := Run(Init(guards, tasks), steps).value; s.guards[s.tasks[1].pc.g].ready
  {
    hide Run, Init, Step, Pad;
    var s;
    steps, s := Deadlock();
    InitPad(guards, tasks);
    RunPad(Init(2, 2), steps, guards - 2, tasks - 2);
  }

  // ----- wake-ups with a single guard ------------------------------------------------

  /** Tokens a task is still going to give, less the token it is going to take. */
  function Due(pc: Pc): int {
    match pc
    case Signal(left) => left
    case WaitUnlock(_) => -1
    case WaitSem(_) => -1
    case _ => 0
  }

  function Balance(tasks: seq<Task>): int {
    if tasks == [] then 0
    else Balance(tasks[..|tasks| - 1]) + Due(tasks[|tasks| - 1].pc)
  }

  lemma {:induction false} BalanceUpdate(tasks: seq<Task>, t: nat, x: Task)
    requires t < |tasks|
    ensures Balance(tasks[t := x]) == Balance(tasks) - Due(tasks[t].pc) + Due(x.pc)
  {
    var last := |tasks| - 1;
    if t < last {
      BalanceUpdate(tasks[..last], t, x);
      assert tasks[t := x][..last] == tasks[..last][t := x];
    } else {
      assert tasks[t := x][..last] == tasks[..last];
    }
  }

  lemma {:induction false} BalanceBound(tasks: seq<Task>)
    ensures Balance(tasks) + CountWaiting(tasks) >= 0
  {
    if tasks != [] {
      BalanceBound(tasks[..|tasks| - 1]);
    }
  }

  lemma {:induction false} NobodySignals(tasks: seq<Task>, t: nat)
    requires t < |tasks| && tasks[t].pc.WaitSem?
    requires forall u :: 0 <= u < |tasks| ==> !tasks[u].pc.Signal?
    ensures Balance(tasks) <= -1
  {
    var last := |tasks| - 1;
    if t < last {
      NobodySignals(tasks[..last], t);
    } else {
      NeverPositive(tasks[..last]);
    }
  }

  lemma {:induction false} NeverPositive(tasks: seq<Task>)
    requires forall u :: 0 <= u < |tasks| ==> !tasks[u].pc.Signal?
    ensures Balance(tasks) <= 0
  {
    if tasks != [] {
      NeverPositive(tasks[..|tasks| - 1]);
    }
  }

  /** There is one guard, and while nobody initialises it there is a token for everyone to take one. */
  ghost predicate Supplied(s: State) {
    |s.guards| == 1 && (!s.guards[0].pending ==> s.sem + Balance(s.tasks) >= 0)
  }

  lemma StepSupplied(s: State, t: nat, a: Action)
    requires Inv(s) && Supplied(s) && t < |s.tasks| && Step(s, t, a).Some?
    ensures Supplied(Step(s, t, a).value)
  {
    hide OwnersOk, CountWaiting, Balance;
    var s' := Step(s, t, a).value;
    assert TaskOk(s, t);
    BalanceUpdate(s.tasks, t, s'.tasks[t]);
    BalanceBound(s.tasks);
    if s.tasks[t].pc.FinishLock? {
      OwnerFinishes(s, t);
    }
  }

  lemma {:induction false} RunSupplied(s: State, steps: seq<(nat, Action)>)
    requires Inv(s) && Supplied(s) && Run(s, steps).Some?
    ensures Inv(Run(s, steps).value) && Supplied(Run(s, steps).value)
    decreases |steps|
  {
    hide Inv, Step, Supplied;
    if steps != [] {
      var (t, a) := steps[0];
      StepInv(s, t, a);
      StepSupplied(s, t, a);
      RunSupplied(Step(s, t, a).value, steps[1..]);
    }
  }

  /**
   * With a single guard no wake-up is lost: a task waiting on the semaphore when nobody initialises
   * the guard finds a token there, unless a task is still about to give tokens.
   */
  lemma NoLostWakeUp(tasks: nat, steps: seq<(nat, Action)>, t: nat)
    requires Run(Init(1, tasks), steps).Some?
    requires var s := Run(Init(1, tasks), steps).value;
             && s.guards != [] && !s.guards[0].pending
             && t < |s.tasks| && s.tasks[t].pc.WaitSem?
             && forall u :: 0 <= u < |s.tasks| ==> !s.tasks[u].pc.Signal?
    ensures var s := Run(Init(1, tasks), steps).value;
            s.sem > 0 && Step(s, t, Continue).Some?
  {
    hide Run;
    InitInv(1, tasks);
    SuppliedAtStart(tasks);
    RunSupplied(Init(1, tasks), steps);
    NobodySignals(Run(Init(1, tasks), steps).value.tasks, t);
  }

  lemma {:induction false} SuppliedAtStart(tasks: nat)
    ensures Balance(Init(1, tasks).tasks) == 0 && Supplied(Init(1, tasks))
  {
    if tasks > 0 {
      SuppliedAtStart(tasks - 1);
      assert Init(1, tasks).tasks[..tasks - 1] == Init(1, tasks - 1).tasks;
    }
  }

  // ----- wake-ups with a single task -------------------------------------------------

  /** A task on its own waits only for what it is initialising itself. */
  predicate Alone(s: State) {
    && |s.tasks| == 1
    && (Waits(s.tasks[0].pc) ==> s.tasks[0].pc.g < |s.guards| && s.guards[s.tasks[0].pc.g].pending)
  }

  lemma StepAlone(s: State, t: nat, a: Action)
    requires Alone(s) && t < |s.tasks| && Step(s, t, a).Some?
    ensures Alone(Step(s, t, a).value)
  {
  }

  lemma {:induction false} RunAlone(s: State, steps: seq<(nat, Action)>)
    requires Alone(s) && Run(s, steps).Some?
    ensures Alone(Run(s, steps).value)
    decreases |steps|
  {
    hide Step, Alone;
    if steps != [] {
      var (t, a) := steps[0];
      StepAlone(s, t, a);
      RunAlone(Step(s, t, a).value, steps[1..]);
    }
  }

  /** No step changes the number of guards or tasks. */
  lemma {:induction false} RunSizes(s: State, steps: seq<(nat, Action)>)
    requires Run(s, steps).Some?
    ensures |Run(s, steps).value.guards| == |s.guards| && |Run(s, steps).value.tasks| == |s.tasks|
    decreases |steps|
  {
    if steps != [] {
      var (t, a) := steps[0];
      RunSizes(Step(s, t, a).value, steps[1..]);
    }
  }

  /** A wake-up can be lost exactly if there are two guards and two tasks at least. */
  lemma LostWakeUpIff(guards: nat, tasks: nat)
    ensures (exists steps, t :: Loses(guards, tasks, steps, t)) <==> guards >= 2 && tasks >= 2
  {
    hide Run, Step, Loses;
    if guards >= 2 && tasks >= 2 {
      var steps := LostWakeUp(guards, tasks);
    } else {
      forall steps, t ensures !Loses(guards, tasks, steps, t) {
        NeverLoses(guards, tasks, steps, t);
      }
    }
  }

  lemma NeverLoses(guards: nat, tasks: nat, steps: seq<(nat, Action)>, t: nat)
    requires guards < 2 || tasks < 2
    ensures !Loses(guards, tasks, steps, t)
  {
    hide Run, Step;
    if Loses(guards, tasks, steps, t) {
      RunSizes(Init(guards, tasks), steps);
      if guards == 1 {
        NoLostWakeUp(tasks, steps, t);
      } else {
        RunAlone(Init(guards, tasks), steps);
      }
    }
  }
}
