/**
 The two timers of AutoSyncTimer as a state machine.  The threads are the callers of DoAutoSync and the
 processors, which execute a timer task; `lock` is the timer's mutex.  Between any two steps a queued task
 may fire, also while a thread is inside StartTimer or StopTimer.
 */
module AutoSyncProtocol {

  import opened Collections

  const INVALID_TASK_ID: nat := 0
  const SYNC_STORE_NUM: nat := 10

  datatype Phase =
    | ToStart                       // about to call StartTimer
    | Starting                      // inside StartTimer, before the force timer is seen to
    | Started                       // inside StartTimer, before the delay timer is seen to
    | ToStop(task: nat)             // executing timer task `task`, about to call StopTimer
    | Stopping                      // inside StopTimer, before the force timer is removed
    | HalfStopped                   // inside StopTimer, before the delay timer is removed
    | Stopped                       // inside StopTimer, before the ids are cleared
    | ToTake                        // about to take stores, or to find that there is no service
    | ToCheck                       // about to see whether stores are left

  datatype Holder = Free | By(thread: nat)

  /** `queued` are the timer tasks that wait for their time, `fired` those whose time has come but that do not execute yet. */
  datatype State = State(
    pending: nat, queued: set<nat>, fired: set<nat>, force: nat, delay: nat,
    lock: Holder, threads: map<nat, Phase>, lastId: nat)

  datatype Event =
    | Add(t: nat, count: nat)       // AddSyncStores
    | EnterStart(t: nat)
    | StartForce(t: nat)
    | StartDelay(t: nat)
    | Fire(task: nat)
    | Begin(t: nat, task: nat)
    | EnterStop(t: nat)
    | StopForce(t: nat, caught: bool)
    | StopDelay(t: nat, caught: bool)
    | ClearIds(t: nat)
    | NoService(t: nat)
    | Take(t: nat)                  // GetStoreIds
    | Check(t: nat)                 // HasSyncStores

  function Init(): State {
    State(0, {}, {}, INVALID_TASK_ID, INVALID_TASK_ID, Free, map[], INVALID_TASK_ID)
  }

  predicate In(s: State, t: nat, phase: Phase) {
    t in s.threads && s.threads[t] == phase
  }

  predicate Enabled(s: State, e: Event) {
    match e
    case Add(t, _) => t !in s.threads
    case EnterStart(t) => In(s, t, ToStart) && s.lock == Free
    case StartForce(t) => In(s, t, Starting)
    case StartDelay(t) => In(s, t, Started)
    case Fire(task) => task in s.queued
    case Begin(t, task) => t !in s.threads && task in s.fired
    case EnterStop(t) => t in s.threads && s.threads[t].ToStop? && s.lock == Free
    case StopForce(t, _) => In(s, t, Stopping)
    case StopDelay(t, _) => In(s, t, HalfStopped)
    case ClearIds(t) => In(s, t, Stopped)
    case NoService(t) => In(s, t, ToTake)
    case Take(t) => In(s, t, ToTake)
    case Check(t) => In(s, t, ToCheck)
  }

  function Go(s: State, t: nat, phase: Phase): State {
    s.(threads := s.threads[t := phase])
  }

  function Leave(s: State, t: nat): State {
    s.(threads := s.threads - {t})
  }

  function Schedule(s: State): State {
    s.(queued := s.queued + {s.lastId + 1}, lastId := s.lastId + 1)
  }

  /** Removing a task drops it from the queue; of a task that has fired it may come too late. */
  function Removed(s: State, task: nat, caught: bool): State {
    s.(queued := s.queued - {task}, fired := if caught then s.fired - {task} else s.fired)
  }

  /** What GetStoreIds takes out of a number of pending stores. */
  function Batch(pending: nat): nat {
    if pending <= SYNC_STORE_NUM then pending else SYNC_STORE_NUM
  }

  function Step(s: State, e: Event): State
    requires Enabled(s, e)
  {
    match e
    case Add(t, count) => Go(s, t, ToStart).(pending := s.pending + count)
    case EnterStart(t) => Go(s, t, Starting).(lock := By(t))
    case StartForce(t) =>
      if s.force == INVALID_TASK_ID then Go(Schedule(s), t, Started).(force := s.lastId + 1) else Go(s, t, Started)
    case StartDelay(t) =>
      var s' := if s.delay == INVALID_TASK_ID then Schedule(s).(delay := s.lastId + 1)
                else s.(delay := if s.delay in s.queued then s.delay else INVALID_TASK_ID);
      Leave(s', t).(lock := Free)
    case Fire(task) => s.(queued := s.queued - {task}, fired := s.fired + {task})
    case Begin(t, task) => Go(s, t, ToStop(task)).(fired := s.fired - {task})
    case EnterStop(t) => Go(s, t, Stopping).(lock := By(t))
    case StopForce(t, caught) => Go(Removed(s, s.force, caught), t, HalfStopped)
    case StopDelay(t, caught) => Go(Removed(s, s.delay, caught), t, Stopped)
    case ClearIds(t) => Go(s, t, ToTake).(force := INVALID_TASK_ID, delay := INVALID_TASK_ID, lock := Free)
    case NoService(t) => Go(s, t, ToStart)
    case Take(t) => Go(s, t, ToCheck).(pending := s.pending - Batch(s.pending))
    case Check(t) => if s.pending > 0 then Go(s, t, ToStart) else Leave(s, t)
  }

  // ---- The invariant ----

  /** The phases inside StartTimer and StopTimer. */
  predicate Inside(phase: Phase) {
    phase.Starting? || phase.Started? || phase.Stopping? || phase.HalfStopped? || phase.Stopped?
  }

  predicate InStop(phase: Phase) {
    phase.Stopping? || phase.HalfStopped? || phase.Stopped?
  }

  ghost predicate Locking(s: State) {
    && (forall t <- s.threads :: Inside(s.threads[t]) ==> s.lock == By(t))
    && (s.lock.By? ==> s.lock.thread in s.threads && Inside(s.threads[s.lock.thread]))
  }

  function Current(s: State): Phase {
    if s.lock.By? && s.lock.thread in s.threads then s.threads[s.lock.thread] else ToStart
  }

  /** A task that waits, or has fired and its processor has not reached StopTimer. */
  ghost predicate Alive(s: State, task: nat) {
    task in s.queued || task in s.fired || exists t <- s.threads :: s.threads[t] == ToStop(task)
  }

  /** Outside StopTimer an id the timer keeps belongs to a task that is alive; a task in the queue belongs to an id. */
  ghost predicate Ids(s: State) {
    && (!InStop(Current(s)) ==>
          && (s.force != INVALID_TASK_ID ==> Alive(s, s.force))
          && (s.delay != INVALID_TASK_ID ==> Alive(s, s.delay)))
    && (Current(s).Started? ==> s.force != INVALID_TASK_ID)
    && (forall id <- s.queued :: id == s.force || id == s.delay)
    && INVALID_TASK_ID !in s.queued
    && (Current(s).HalfStopped? ==> s.force !in s.queued)
    && (Current(s).Stopped? ==> s.queued == {})
  }

  /** Pending stores are looked after: a timer task is queued or fired, or some thread has still to start the timer or to look for stores. */
  ghost predicate LookedAfter(s: State) {
    s.pending > 0 ==> s.queued != {} || s.fired != {} || s.threads != map[]
  }

  ghost predicate Inv(s: State) {
    Locking(s) && Ids(s) && LookedAfter(s)
  }

  lemma InitInv()
    ensures Inv(Init())
  {
  }

  /** Alive is kept by an event of thread `t` that removes no task and leaves `t` outside ToStop as before. */
  lemma StaysAlive(s: State, s': State, t: nat, task: nat)
    requires Alive(s, task) && s.queued <= s'.queued && s.fired <= s'.fired
    requires t in s.threads ==> !s.threads[t].ToStop?
    requires forall u <- s.threads | u != t :: u in s'.threads && s'.threads[u] == s.threads[u]
    ensures Alive(s', task)
  {
  }

  lemma LockedKeeps(s: State, e: Event)
    requires Inv(s) && Enabled(s, e) && (e.StartForce? || e.StartDelay? || e.StopForce? || e.StopDelay? || e.ClearIds?)
    ensures Inv(Step(s, e))
  {
    var s' := Step(s, e);
    assert s.lock == By(e.t);
    if e.StartForce? || e.StartDelay? {
      if s.force != INVALID_TASK_ID { StaysAlive(s, s', e.t, s.force); }
      if s.delay != INVALID_TASK_ID { StaysAlive(s, s', e.t, s.delay); }
    }
    if e.StartDelay? {
      assert Alive(s', s'.force);
    }
  }

  lemma UnlockedKeeps(s: State, e: Event)
    requires Inv(s) && Enabled(s, e)
    requires e.Add? || e.EnterStart? || e.EnterStop? || e.NoService? || e.Take? || e.Check?
    ensures Inv(Step(s, e))
  {
    var s' := Step(s, e);
    assert e.t in s'.threads || s'.pending == 0;
    if !e.EnterStop? {
      if s.force != INVALID_TASK_ID && !InStop(Current(s)) { StaysAlive(s, s', e.t, s.force); }
      if s.delay != INVALID_TASK_ID && !InStop(Current(s)) { StaysAlive(s, s', e.t, s.delay); }
    }
  }

  lemma FireKeeps(s: State, e: Event)
    requires Inv(s) && Enabled(s, e) && e.Fire?
    ensures Inv(Step(s, e))
  {
    var s' := Step(s, e);
    assert e.task in s'.fired;
    assert s'.threads == s.threads;
    forall task | Alive(s, task) ensures Alive(s', task) {
      if t: nat :| t in s.threads && s.threads[t] == ToStop(task) { assert s'.threads[t] == ToStop(task); }
    }
  }

  lemma BeginKeeps(s: State, e: Event)
    requires Inv(s) && Enabled(s, e) && e.Begin?
    ensures Inv(Step(s, e))
  {
    var s' := Step(s, e);
    assert s'.threads[e.t] == ToStop(e.task);
    forall task | Alive(s, task) ensures Alive(s', task) {
      if t: nat :| t in s.threads && s.threads[t] == ToStop(task) { assert s'.threads[t] == ToStop(task); }
    }
  }

  lemma StepKeeps(s: State, e: Event)
    requires Inv(s) && Enabled(s, e)
    ensures Inv(Step(s, e))
  {
    match e
    case Fire(_) => FireKeeps(s, e);
    case Begin(_, _) => BeginKeeps(s, e);
    case StartForce(_) => LockedKeeps(s, e);
    case StartDelay(_) => LockedKeeps(s, e);
    case StopForce(_, _) => LockedKeeps(s, e);
    case StopDelay(_, _) => LockedKeeps(s, e);
    case ClearIds(_) => LockedKeeps(s, e);
    case _ => UnlockedKeeps(s, e);
  }

  // ---- Runs ----

  ghost predicate CanRun(s: State, es: seq<Event>)
    decreases |es|
  {
    es == [] || (Enabled(s, es[0]) && CanRun(Step(s, es[0]), es[1..]))
  }

  ghost function Run(s: State, es: seq<Event>): State
    requires CanRun(s, es)
    decreases |es|
  {
    if es == [] then s else Run(Step(s, es[0]), es[1..])
  }

  lemma {:induction false} RunKeeps(s: State, es: seq<Event>)
    requires Inv(s) && CanRun(s, es)
    ensures Inv(Run(s, es))
    decreases |es|
  {
    if es != [] {
      StepKeeps(s, es[0]);
      RunKeeps(Step(s, es[0]), es[1..]);
    }
  }

  /** No wake-up is lost: whatever the interleaving, pending stores are looked after. */
  lemma NoLostWakeUp(es: seq<Event>)
    requires CanRun(Init(), es)
    ensures LookedAfter(Run(Init(), es))
  {
    InitInv();
    RunKeeps(Init(), es);
  }

  /** Never more than the two timers wait at a time. */
  lemma AtMostTwoTimers(es: seq<Event>)
    requires CanRun(Init(), es)
    ensures |Run(Init(), es).queued| <= 2
  {
    InitInv();
    RunKeeps(Init(), es);
    var s := Run(Init(), es);
    assert s.queued <= {s.force, s.delay};
    SubsetSize(s.queued, {s.force, s.delay});
  }

  // ---- Pending stores are drained ----

  /** Events that do not depend on new stores or on a missing service. */
  predicate Internal(e: Event) {
    !e.Add? && !e.NoService?
  }

  predicate Quiescent(s: State) {
    s.queued == {} && s.fired == {} && s.threads == map[]
  }

  /** A thread waits at most for the lock, and the one that holds it can go on. */
  lemma Progress(s: State) returns (e: Event)
    requires Inv(s) && !Quiescent(s)
    ensures Enabled(s, e) && Internal(e)
  {
    if task :| task in s.queued {
      e := Fire(task);
    } else if task :| task in s.fired {
      var t := Above(s.threads.Keys);
      e := Begin(t, task);
    } else {
      var t := if s.lock.By? then s.lock.thread else var u :| u in s.threads; u;
      match s.threads[t]
      case ToStart => e := EnterStart(t);
      case Starting => e := StartForce(t);
      case Started => e := StartDelay(t);
      case ToStop(_) => e := EnterStop(t);
      case Stopping => e := StopForce(t, true);
      case HalfStopped => e := StopDelay(t, true);
      case Stopped => e := ClearIds(t);
      case ToTake => e := Take(t);
      case ToCheck => e := Check(t);
    }
  }

  lemma {:induction false} Above(ids: set<nat>) returns (m: nat)
    ensures forall u <- ids :: u < m
  {
    m := 0;
    if ids != {} {
      var x :| x in ids;
      var n := Above(ids - {x});
      m := if x < n then n else x + 1;
      assert forall u <- ids :: u == x || u in ids - {x};
    }
  }

  const FIRED_WORK: nat := 7
  const QUEUED_WORK: nat := 8

  /** A bound on the events a thread gives rise to, the tasks it schedules included. */
  function Work(phase: Phase, pending: nat): nat {
    match phase
    case ToCheck => if pending > 0 then 20 else 1
    case ToStart => 19
    case Starting => 18
    case Started => 9
    case ToStop(_) => 6
    case Stopping => 5
    case HalfStopped => 4
    case Stopped => 3
    case ToTake => 2
  }

  ghost function ThreadWork(threads: map<nat, Phase>, pending: nat): nat {
    if threads == map[] then 0
    else var t: nat :| t in threads; Work(threads[t], pending) + ThreadWork(threads - {t}, pending)
  }

  ghost function WorkLeft(s: State): nat {
    2 * s.pending + QUEUED_WORK * |s.queued| + FIRED_WORK * |s.fired| + ThreadWork(s.threads, s.pending)
  }

  lemma {:induction false} WorkOf(threads: map<nat, Phase>, pending: nat, t: nat)
    requires t in threads
    ensures ThreadWork(threads, pending) == Work(threads[t], pending) + ThreadWork(threads - {t}, pending)
    decreases |threads|
  {
    var u: nat :| u in threads && ThreadWork(threads, pending) == Work(threads[u], pending) + ThreadWork(threads - {u}, pending);
    if u != t {
      WorkOf(threads - {u}, pending, t);
      WorkOf(threads - {t}, pending, u);
      assert threads - {u} - {t} == threads - {t} - {u};
    }
  }

  lemma {:induction false} WorkShrinks(threads: map<nat, Phase>, more: nat, less: nat)
    requires less <= more
    ensures ThreadWork(threads, less) <= ThreadWork(threads, more)
    decreases |threads|
  {
    if threads != map[] {
      var t :| t in threads;
      WorkOf(threads, more, t);
      WorkOf(threads, less, t);
      WorkShrinks(threads - {t}, more, less);
    }
  }

  /** What a step of thread `t` does to the work of all threads. */
  lemma WorkMoves(threads: map<nat, Phase>, t: nat, phase: Phase, pending: nat)
    ensures ThreadWork(threads[t := phase], pending)
            == ThreadWork(threads, pending) + Work(phase, pending) - if t in threads then Work(threads[t], pending) else 0
  {
    WorkOf(threads[t := phase], pending, t);
    assert threads[t := phase] - {t} == threads - {t};
    if t in threads {
      WorkOf(threads, pending, t);
    } else {
      assert threads - {t} == threads;
    }
  }

  lemma TakeShrinksWork(s: State, e: Event)
    requires Enabled(s, e) && e.Take?
    ensures WorkLeft(Step(s, e)) < WorkLeft(s)
  {
    var s' := Step(s, e);
    WorkMoves(s.threads, e.t, ToCheck, s'.pending);
    WorkShrinks(s.threads, s.pending, s'.pending);
  }

  lemma StartShrinksWork(s: State, e: Event)
    requires Enabled(s, e) && (e.EnterStart? || e.StartForce? || e.StartDelay?)
    ensures WorkLeft(Step(s, e)) < WorkLeft(s)
  {
    match e
    case EnterStart(t) => WorkMoves(s.threads, t, Starting, s.pending);
    case StartForce(t) => WorkMoves(s.threads, t, Started, s.pending);
    case StartDelay(t) => WorkOf(s.threads, s.pending, t);
  }

  lemma StopShrinksWork(s: State, e: Event)
    requires Enabled(s, e) && (e.EnterStop? || e.StopForce? || e.StopDelay? || e.ClearIds?)
    ensures WorkLeft(Step(s, e)) < WorkLeft(s)
  {
    match e
    case EnterStop(t) => WorkMoves(s.threads, t, Step(s, e).threads[t], s.pending);
    case ClearIds(t) => WorkMoves(s.threads, t, Step(s, e).threads[t], s.pending);
    case _ => RemoveShrinksWork(s, e);
  }

  lemma RemoveShrinksWork(s: State, e: Event)
    requires Enabled(s, e) && (e.StopForce? || e.StopDelay?)
    ensures WorkLeft(Step(s, e)) < WorkLeft(s)
  {
    var id, phase := if e.StopForce? then s.force else s.delay, if e.StopForce? then HalfStopped else Stopped;
    RemovedIsSmaller(s, id, e.caught);
    WorkMoves(s.threads, e.t, phase, s.pending);
    assert Step(s, e) == Go(Removed(s, id, e.caught), e.t, phase);
  }

  lemma RemovedIsSmaller(s: State, id: nat, caught: bool)
    ensures var r := Removed(s, id, caught);
            |r.queued| <= |s.queued| && |r.fired| <= |s.fired| && r.threads == s.threads && r.pending == s.pending
  {
    SubsetSize(Removed(s, id, caught).queued, s.queued);
    SubsetSize(Removed(s, id, caught).fired, s.fired);
  }

  lemma CheckShrinksWork(s: State, e: Event)
    requires Enabled(s, e) && e.Check?
    ensures WorkLeft(Step(s, e)) < WorkLeft(s)
  {
    WorkMoves(s.threads, e.t, ToStart, s.pending);
    WorkOf(s.threads, s.pending, e.t);
  }

  lemma TaskShrinksWork(s: State, e: Event)
    requires Enabled(s, e) && (e.Fire? || e.Begin?)
    ensures WorkLeft(Step(s, e)) < WorkLeft(s)
  {
    if e.Begin? {
      WorkMoves(s.threads, e.t, ToStop(e.task), s.pending);
    }
  }

  /** Every internal event uses up work. */
  lemma StepShrinksWork(s: State, e: Event)
    requires Enabled(s, e) && Internal(e)
    ensures WorkLeft(Step(s, e)) < WorkLeft(s)
  {
    if e.EnterStart? || e.StartForce? || e.StartDelay? {
      StartShrinksWork(s, e);
    } else if e.EnterStop? || e.StopForce? || e.StopDelay? || e.ClearIds? {
      StopShrinksWork(s, e);
    } else if e.Take? {
      TakeShrinksWork(s, e);
    } else if e.Check? {
      CheckShrinksWork(s, e);
    } else {
      TaskShrinksWork(s, e);
    }
  }

  lemma {:induction false} RunShrinksWork(s: State, es: seq<Event>)
    requires CanRun(s, es) && forall e <- es :: Internal(e)
    ensures |es| + WorkLeft(Run(s, es)) <= WorkLeft(s)
    decreases |es|
  {
    if es != [] {
      StepShrinksWork(s, es[0]);
      RunShrinksWork(Step(s, es[0]), es[1..]);
    }
  }

  /** From every reachable state, without new stores and with the service at hand, every run ends, and where it can no longer go on every store has been taken. */
  lemma PendingStoresAreDrained(before: seq<Event>, es: seq<Event>)
    requires CanRun(Init(), before) && CanRun(Run(Init(), before), es) && forall e <- es :: Internal(e)
    ensures |es| <= WorkLeft(Run(Init(), before))
    ensures var s := Run(Run(Init(), before), es);
            (forall e | Internal(e) :: !Enabled(s, e)) ==> s.pending == 0 && Quiescent(s)
  {
    InitInv();
    RunKeeps(Init(), before);
    RunKeeps(Run(Init(), before), es);
    RunShrinksWork(Run(Init(), before), es);
    var s := Run(Run(Init(), before), es);
    if !Quiescent(s) {
      var e := Progress(s);
    }
  }
}
