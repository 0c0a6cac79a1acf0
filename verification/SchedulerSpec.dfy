/**
 TaskScheduler as a state machine.  Every event is one critical section under the scheduler's mutex:
 those of the callers, and the two of the worker's Loop, between which a task executes.
 */
module SchedulerSpec {

  const INVALID_TASK_ID: nat := 0
  const INVALID_INTERVAL: int := 0
  const MODULUS: nat := 0x1_0000_0000_0000_0000
  const UNLIMITED_TIMES: nat := MODULUS - 1

  datatype Task = Task(id: nat, interval: int, times: nat)

  const IDLE := Task(INVALID_TASK_ID, INVALID_INTERVAL, UNLIMITED_TIMES)

  /** An element of the multimap `tasks_`; `node` is its identity, which iterators refer to. */
  datatype Entry = Entry(time: int, node: nat, task: Task)

  datatype State = State(tasks: seq<Entry>, indexes: map<nat, nat>, running: Task, lastId: nat, nextNode: nat)

  function Init(): State {
    State([], map[], IDLE, INVALID_TASK_ID, 0)
  }

  /** Inserting into a multimap puts an element behind those with the same time. */
  function Insert(tasks: seq<Entry>, e: Entry): (r: seq<Entry>)
    ensures |r| == |tasks| + 1
  {
    if tasks == [] || e.time < tasks[0].time then [e] + tasks else [tasks[0]] + Insert(tasks[1..], e)
  }

  function Erase(tasks: seq<Entry>, node: nat): (r: seq<Entry>)
    ensures |r| <= |tasks|
  {
    if tasks == [] then []
    else if tasks[0].node == node then tasks[1..]
    else [tasks[0]] + Erase(tasks[1..], node)
  }

  /** The task an iterator refers to. */
  function At(tasks: seq<Entry>, node: nat): Task {
    if tasks == [] then IDLE else if tasks[0].node == node then tasks[0].task else At(tasks[1..], node)
  }

  datatype Event =
    | Schedule(begin: int, interval: int, times: nat)
    | Reset(id: nat, interval: int, now: int)
    | Remove(id: nat, wait: bool)
    | Clean
    | Start(now: int)
    | Finish(now: int)

  /** Remove waits while its task executes; the worker starts a task only when it has one that is due. */
  predicate Enabled(s: State, e: Event) {
    match e
    case Schedule(_, _, times) => times < MODULUS
    case Remove(id, wait) => !wait || s.running.id != id
    case Start(now) => s.running.id == INVALID_TASK_ID && s.tasks != [] && s.tasks[0].time <= now
    case Finish(_) => s.running.id != INVALID_TASK_ID
    case _ => true
  }

  function Put(s: State, time: int, task: Task): State {
    s.(tasks := Insert(s.tasks, Entry(time, s.nextNode, task)), indexes := s.indexes[task.id := s.nextNode],
       nextNode := s.nextNode + 1)
  }

  function Drop(s: State, id: nat): State {
    if id in s.indexes then s.(tasks := Erase(s.tasks, s.indexes[id]), indexes := s.indexes - {id}) else s
  }

  function Step(s: State, e: Event, capacity: nat): State
    requires Enabled(s, e)
  {
    match e
    case Schedule(begin, interval, times) =>
      if |s.tasks| >= capacity then s
      else Put(s, begin, Task(s.lastId + 1, interval, times)).(lastId := s.lastId + 1)
    case Reset(id, interval, now) =>
      if s.running.id == id && s.running.interval != INVALID_INTERVAL then
        s.(running := s.running.(interval := interval))
      else if id !in s.indexes then s
      else
        var t := At(s.tasks, s.indexes[id]);
        var t' := if t.interval != INVALID_INTERVAL then t.(interval := interval) else t;
        Put(Drop(s, id), now + interval, t')
    case Remove(id, _) => Drop(s, id)
    case Clean => s.(tasks := [], indexes := map[])
    case Start(_) =>
      var t := s.tasks[0].task;
      s.(tasks := s.tasks[1..], indexes := s.indexes - {t.id}, running := t.(times := (t.times - 1) % MODULUS))
    case Finish(now) =>
      var t := s.running;
      (if t.interval != INVALID_INTERVAL && t.times > 0 then Put(s, now + t.interval, t) else s).(running := IDLE)
  }

  // ---- The invariant ----

  /** `tasks_` and `indexes_` are in bijection by id. */
  ghost predicate Indexed(s: State) {
    && (forall e <- s.tasks :: e.task.id in s.indexes && s.indexes[e.task.id] == e.node)
    && s.indexes.Keys == Ids(s.tasks)
  }

  function Ids(tasks: seq<Entry>): set<nat> {
    set e <- tasks :: e.task.id
  }

  /** In order of time, and of insertion among equal times. */
  predicate Before(a: Entry, b: Entry) {
    a.node != b.node && (a.time < b.time || (a.time == b.time && a.node < b.node))
  }

  ghost predicate Ordered(tasks: seq<Entry>) {
    forall i, j | 0 <= i < j < |tasks| :: Before(tasks[i], tasks[j])
  }

  /** The queue is in order, indexed by id, and made of the ids and nodes given out so far. */
  ghost predicate Shape(s: State) {
    && Indexed(s) && Ordered(s.tasks)
    && (forall e <- s.tasks :: 0 < e.task.id <= s.lastId && e.node < s.nextNode)
  }

  ghost predicate Inv(s: State, capacity: nat) {
    && Shape(s)
    && s.running.id <= s.lastId && s.running.id !in s.indexes
    && |s.tasks| + (if s.running.id == INVALID_TASK_ID then 0 else 1) <= capacity + 1
  }

  lemma {:induction false} InsertMembers(tasks: seq<Entry>, x: Entry, e: Entry)
    ensures e in Insert(tasks, x) <==> e in tasks || e == x
  {
    if tasks != [] && tasks[0].time <= x.time {
      InsertMembers(tasks[1..], x, e);
      assert e in tasks <==> e == tasks[0] || e in tasks[1..];
    }
  }

  lemma {:induction false} InsertSplits(tasks: seq<Entry>, x: Entry) returns (k: nat)
    ensures k <= |tasks| && Insert(tasks, x) == tasks[..k] + [x] + tasks[k..]
    ensures forall i | 0 <= i < k :: tasks[i].time <= x.time
    ensures k < |tasks| ==> x.time < tasks[k].time
  {
    if tasks == [] || x.time < tasks[0].time {
      k := 0;
    } else {
      var h := InsertSplits(tasks[1..], x);
      k := h + 1;
      assert tasks[..k] == [tasks[0]] + tasks[1..][..h];
    }
  }

  lemma InsertOrdered(tasks: seq<Entry>, x: Entry)
    requires Ordered(tasks) && forall e <- tasks :: e.node < x.node
    ensures Ordered(Insert(tasks, x))
  {
    var k := InsertSplits(tasks, x);
    var r := Insert(tasks, x);
    forall i, j | 0 <= i < j < |r| ensures Before(r[i], r[j]) {
      if i != k && j != k {
        assert Before(tasks[if i < k then i else i - 1], tasks[if j < k then j else j - 1]);
      } else if i == k && j > k + 1 {
        assert Before(tasks[k], tasks[j - 1]);
      }
    }
  }

  lemma {:induction false} EraseIsCut(tasks: seq<Entry>, i: nat)
    requires Ordered(tasks) && i < |tasks|
    ensures Erase(tasks, tasks[i].node) == tasks[..i] + tasks[i + 1..]
  {
    if i > 0 {
      assert Before(tasks[0], tasks[i]);
      TailOrdered(tasks);
      EraseIsCut(tasks[1..], i - 1);
      CutTail(tasks, i);
    }
  }

  lemma TailOrdered(tasks: seq<Entry>)
    requires Ordered(tasks) && tasks != []
    ensures Ordered(tasks[1..])
  {
    var r := tasks[1..];
    forall a, b | 0 <= a < b < |r| ensures Before(r[a], r[b]) {
      assert Before(tasks[a + 1], tasks[b + 1]);
    }
  }

  lemma CutTail<T>(s: seq<T>, i: nat)
    requires 0 < i < |s|
    ensures s[..i] + s[i + 1..] == [s[0]] + (s[1..][..i - 1] + s[1..][i..])
  {
  }

  lemma CutOrdered(tasks: seq<Entry>, i: nat)
    requires Ordered(tasks) && i < |tasks|
    ensures Ordered(tasks[..i] + tasks[i + 1..])
  {
    var r := tasks[..i] + tasks[i + 1..];
    forall a, b | 0 <= a < b < |r| ensures Before(r[a], r[b]) {
      assert Before(tasks[if a < i then a else a + 1], tasks[if b < i then b else b + 1]);
    }
  }

  lemma CutMembers(tasks: seq<Entry>, i: nat, e: Entry)
    requires Ordered(tasks) && i < |tasks|
    ensures e in tasks[..i] + tasks[i + 1..] <==> e in tasks && e.node != tasks[i].node
  {
    var r := tasks[..i] + tasks[i + 1..];
    if e in r {
      var j :| 0 <= j < |r| && r[j] == e;
      var k := if j < i then j else j + 1;
      assert Before(tasks[if k < i then k else i], tasks[if k < i then i else k]);
    }
    if e in tasks && e.node != tasks[i].node {
      var j :| 0 <= j < |tasks| && tasks[j] == e;
      assert r[if j < i then j else j - 1] == e;
    }
  }

  lemma EraseFacts(tasks: seq<Entry>, x: Entry)
    requires Ordered(tasks) && x in tasks
    ensures forall e :: e in Erase(tasks, x.node) <==> e in tasks && e.node != x.node
    ensures Ordered(Erase(tasks, x.node))
    ensures |Erase(tasks, x.node)| == |tasks| - 1
  {
    var i :| 0 <= i < |tasks| && tasks[i] == x;
    EraseIsCut(tasks, i);
    CutOrdered(tasks, i);
    forall e ensures e in Erase(tasks, x.node) <==> e in tasks && e.node != x.node {
      CutMembers(tasks, i, e);
    }
  }

  lemma {:induction false} AtMember(tasks: seq<Entry>, node: nat)
    requires exists e <- tasks :: e.node == node
    ensures exists e <- tasks :: e.node == node && e.task == At(tasks, node)
  {
    if tasks[0].node != node {
      AtMember(tasks[1..], node);
    }
  }

  lemma SameNode(tasks: seq<Entry>, a: Entry, b: Entry)
    requires Ordered(tasks) && a in tasks && b in tasks && a.node == b.node
    ensures a == b
  {
    var i :| 0 <= i < |tasks| && tasks[i] == a;
    var j :| 0 <= j < |tasks| && tasks[j] == b;
    assert i == j;
  }

  // ---- Every event keeps the invariant ----

  lemma PutKeeps(s: State, time: int, task: Task)
    requires Shape(s) && task.id !in s.indexes && 0 < task.id <= s.lastId
    ensures Shape(Put(s, time, task))
  {
    var x := Entry(time, s.nextNode, task);
    var s' := Put(s, time, task);
    InsertOrdered(s.tasks, x);
    forall e ensures e in s'.tasks <==> e in s.tasks || e == x {
      InsertMembers(s.tasks, x, e);
    }
    assert Ids(s'.tasks) == Ids(s.tasks) + {task.id} by {
      assert x in s'.tasks;
      forall id <- Ids(s.tasks) ensures id in Ids(s'.tasks) {
        var e :| e in s.tasks && e.task.id == id;
        assert e in s'.tasks;
      }
    }
  }

  lemma DropKeeps(s: State, id: nat)
    requires Shape(s)
    ensures Shape(Drop(s, id)) && id !in Drop(s, id).indexes && Drop(s, id).lastId == s.lastId
    ensures |Drop(s, id).tasks| == |s.tasks| - if id in s.indexes then 1 else 0
    ensures forall e :: e in Drop(s, id).tasks <==> e in s.tasks && e.task.id != id
  {
    if id in s.indexes {
      var s' := Drop(s, id);
      var x :| x in s.tasks && x.task.id == id;
      EraseFacts(s.tasks, x);
      forall e <- s.tasks ensures e.node == x.node <==> e.task.id == id {
        if e.node == x.node { SameNode(s.tasks, e, x); }
      }
      assert Ids(s'.tasks) == Ids(s.tasks) - {id} by {
        forall j <- Ids(s.tasks) - {id} ensures j in Ids(s'.tasks) {
          var e :| e in s.tasks && e.task.id == j;
          assert e in s'.tasks;
        }
      }
    }
  }

  lemma StartKeeps(s: State)
    requires Shape(s) && s.tasks != []
    ensures var t := s.tasks[0].task; Shape(s.(tasks := s.tasks[1..], indexes := s.indexes - {t.id}))
  {
    var x := s.tasks[0];
    EraseIsCut(s.tasks, 0);
    assert s.tasks[..0] + s.tasks[1..] == s.tasks[1..];
    assert s.indexes[x.task.id] == x.node;
    DropKeeps(s, x.task.id);
  }

  lemma FreshId(s: State)
    requires Shape(s)
    ensures s.lastId + 1 !in s.indexes && INVALID_TASK_ID !in s.indexes
  {
    assert forall id <- Ids(s.tasks) :: 0 < id <= s.lastId;
  }

  lemma MoreIds(s: State)
    requires Shape(s)
    ensures Shape(s.(lastId := s.lastId + 1))
  {
  }

  lemma ScheduledShape(s: State, e: Event, capacity: nat)
    requires Shape(s) && e.Schedule? && Enabled(s, e) && |s.tasks| < capacity
    ensures Shape(Step(s, e, capacity))
  {
    var next, task := s.(lastId := s.lastId + 1), Task(s.lastId + 1, e.interval, e.times);
    FreshId(s);
    MoreIds(s);
    PutKeeps(next, e.begin, task);
    assert Step(s, e, capacity) == Put(next, e.begin, task);
  }

  lemma ScheduleKeeps(s: State, e: Event, capacity: nat)
    requires Inv(s, capacity) && e.Schedule? && Enabled(s, e)
    ensures Inv(Step(s, e, capacity), capacity)
  {
    if |s.tasks| < capacity {
      ScheduledShape(s, e, capacity);
    }
  }

  /** The task an id is queued with. */
  lemma QueuedTask(s: State, id: nat) returns (x: Entry)
    requires Shape(s) && id in s.indexes
    ensures x in s.tasks && x.node == s.indexes[id] && x.task.id == id && At(s.tasks, s.indexes[id]) == x.task
  {
    var y :| y in s.tasks && y.task.id == id;
    AtMember(s.tasks, y.node);
    x :| x in s.tasks && x.node == y.node && x.task == At(s.tasks, y.node);
    SameNode(s.tasks, x, y);
  }

  lemma RequeueKeeps(s: State, time: int, task: Task)
    requires Shape(s) && task.id in s.indexes && 0 < task.id <= s.lastId
    ensures var s' := Put(Drop(s, task.id), time, task);
            && Shape(s') && |s'.tasks| == |s.tasks| && s'.indexes.Keys == s.indexes.Keys
            && s'.running == s.running && s'.lastId == s.lastId
  {
    DropKeeps(s, task.id);
    PutKeeps(Drop(s, task.id), time, task);
  }

  /** Whether a Reset moves a queued task; an executing one is changed in place. */
  predicate Moves(s: State, e: Event) {
    e.Reset? && e.id in s.indexes && !(s.running.id == e.id && s.running.interval != INVALID_INTERVAL)
  }

  lemma MoveIsPut(s: State, e: Event, capacity: nat) returns (t: Task)
    requires Shape(s) && Moves(s, e)
    ensures t.id == e.id && 0 < t.id <= s.lastId && Step(s, e, capacity) == Put(Drop(s, e.id), e.now + e.interval, t)
  {
    var x := QueuedTask(s, e.id);
    t := if x.task.interval != INVALID_INTERVAL then x.task.(interval := e.interval) else x.task;
  }

  lemma MovedShape(s: State, e: Event, capacity: nat)
    requires Shape(s) && Moves(s, e)
    ensures var s' := Step(s, e, capacity);
            && Shape(s') && |s'.tasks| == |s.tasks| && s'.indexes.Keys == s.indexes.Keys
            && s'.running == s.running && s'.lastId == s.lastId
  {
    var t := MoveIsPut(s, e, capacity);
    RequeueKeeps(s, e.now + e.interval, t);
  }

  lemma MoveKeeps(s: State, e: Event, capacity: nat)
    requires Inv(s, capacity) && Moves(s, e)
    ensures Inv(Step(s, e, capacity), capacity)
  {
    MovedShape(s, e, capacity);
    SameIdsKeep(s, Step(s, e, capacity), capacity);
  }

  lemma SameIdsKeep(s: State, s': State, capacity: nat)
    requires Inv(s, capacity) && Shape(s') && |s'.tasks| == |s.tasks| && s'.indexes.Keys == s.indexes.Keys
    requires s'.running == s.running && s'.lastId == s.lastId
    ensures Inv(s', capacity)
  {
  }

  lemma ResetKeeps(s: State, e: Event, capacity: nat)
    requires Inv(s, capacity) && e.Reset?
    ensures Inv(Step(s, e, capacity), capacity)
  {
    if Moves(s, e) {
      MoveKeeps(s, e, capacity);
    }
  }

  lemma FinishKeeps(s: State, e: Event, capacity: nat)
    requires Inv(s, capacity) && e.Finish? && Enabled(s, e)
    ensures Inv(Step(s, e, capacity), capacity)
  {
    if s.running.interval != INVALID_INTERVAL && s.running.times > 0 {
      PutKeeps(s, e.now + s.running.interval, s.running);
    }
    FreshId(Step(s, e, capacity));
  }

  lemma StepKeeps(s: State, e: Event, capacity: nat)
    requires Inv(s, capacity) && Enabled(s, e)
    ensures Inv(Step(s, e, capacity), capacity)
  {
    match e
    case Schedule(_, _, _) => ScheduleKeeps(s, e, capacity);
    case Reset(_, _, _) => ResetKeeps(s, e, capacity);
    case Remove(id, _) => DropKeeps(s, id);
    case Clean =>
    case Start(_) => StartKeeps(s);
    case Finish(now) => FinishKeeps(s, e, capacity);
  }

  // ---- Runs ----

  ghost predicate CanRun(s: State, es: seq<Event>, capacity: nat)
    decreases |es|
  {
    es == [] || (Enabled(s, es[0]) && CanRun(Step(s, es[0], capacity), es[1..], capacity))
  }

  ghost function Run(s: State, es: seq<Event>, capacity: nat): State
    requires CanRun(s, es, capacity)
    decreases |es|
  {
    if es == [] then s else Run(Step(s, es[0], capacity), es[1..], capacity)
  }

  /** Whether an event begins an execution of task `id`. */
  predicate Begins(s: State, e: Event, id: nat)
    requires Enabled(s, e)
  {
    e.Start? && s.tasks[0].task.id == id
  }

  /** How often a run executes task `id`. */
  ghost function Executions(s: State, es: seq<Event>, id: nat, capacity: nat): nat
    requires CanRun(s, es, capacity)
    decreases |es|
  {
    if es == [] then 0
    else (if Begins(s, es[0], id) then 1 else 0) + Executions(Step(s, es[0], capacity), es[1..], id, capacity)
  }

  lemma Prepend(s: State, e: Event, es: seq<Event>, capacity: nat)
    requires Enabled(s, e) && CanRun(Step(s, e, capacity), es, capacity)
    ensures CanRun(s, [e] + es, capacity) && Run(s, [e] + es, capacity) == Run(Step(s, e, capacity), es, capacity)
    ensures forall id :: Executions(s, [e] + es, id, capacity)
                         == (if Begins(s, e, id) then 1 else 0) + Executions(Step(s, e, capacity), es, id, capacity)
  {
    assert ([e] + es)[1..] == es;
  }

  lemma {:induction false} RunKeeps(s: State, es: seq<Event>, capacity: nat)
    requires Inv(s, capacity) && CanRun(s, es, capacity)
    ensures Inv(Run(s, es, capacity), capacity)
    decreases |es|
  {
    if es != [] {
      StepKeeps(s, es[0], capacity);
      RunKeeps(Step(s, es[0], capacity), es[1..], capacity);
    }
  }

  lemma InitInv(capacity: nat)
    ensures Inv(Init(), capacity)
  {
  }

  /** The worker starts the due task with the smallest time, the one queued first among equal times. */
  lemma StartsEarliest(s: State, now: int, e: Entry, capacity: nat)
    requires Inv(s, capacity) && Enabled(s, Start(now)) && e in s.tasks
    ensures var s' := Step(s, Start(now), capacity);
            exists x <- s.tasks :: && x.task.id == s'.running.id && x.time <= now && x.task.id !in s'.indexes
                                   && (x == e || x.time < e.time || (x.time == e.time && x.node < e.node))
  {
    assert s.tasks[0] in s.tasks;
  }

  lemma PutMembers(s: State, time: int, task: Task)
    ensures forall x :: x in Put(s, time, task).tasks <==> x in s.tasks || x == Entry(time, s.nextNode, task)
  {
    forall x ensures x in Put(s, time, task).tasks <==> x in s.tasks || x == Entry(time, s.nextNode, task) {
      InsertMembers(s.tasks, Entry(time, s.nextNode, task), x);
    }
  }

  lemma MoveMembers(s: State, time: int, t: Task)
    requires Shape(s)
    ensures forall x :: x in Put(Drop(s, t.id), time, t).tasks
                        <==> x == Entry(time, s.nextNode, t) || (x in s.tasks && x.task.id != t.id)
  {
    DropKeeps(s, t.id);
    PutMembers(Drop(s, t.id), time, t);
  }

  lemma MovedEntry(s: State, e: Event, capacity: nat) returns (q: Entry, z: Entry)
    requires Inv(s, capacity) && Moves(s, e)
    ensures q in s.tasks && q.task.id == z.task.id == e.id && z.task.times == q.task.times && z.node == s.nextNode
    ensures forall x :: x in Step(s, e, capacity).tasks <==> x == z || (x in s.tasks && x.task.id != e.id)
  {
    q := QueuedTask(s, e.id);
    var t := if q.task.interval != INVALID_INTERVAL then q.task.(interval := e.interval) else q.task;
    z := Entry(e.now + e.interval, s.nextNode, t);
    assert Step(s, e, capacity) == Put(Drop(s, e.id), e.now + e.interval, t);
    MoveMembers(s, e.now + e.interval, t);
  }

  /** Every entry of the queue after an event was there before, or has a node larger than all those before. */
  lemma NodesCountInsertions(s: State, e: Event, capacity: nat, x: Entry)
    requires Inv(s, capacity) && Enabled(s, e)
    requires x in Step(s, e, capacity).tasks && x !in s.tasks
    ensures forall y <- s.tasks :: y.node < x.node
  {
    match e
    case Schedule(begin, interval, times) => PutMembers(s, begin, Task(s.lastId + 1, interval, times));
    case Reset(_, _, _) => if Moves(s, e) { var q, z := MovedEntry(s, e, capacity); }
    case Remove(id, _) => DropKeeps(s, id);
    case Clean =>
    case Start(_) =>
    case Finish(now) => PutMembers(s, now + s.running.interval, s.running);
  }

  /** An entry leaves the queue only by an event that is about it, or by Clean. */
  lemma EntryStays(s: State, e: Event, capacity: nat, x: Entry)
    requires Inv(s, capacity) && Enabled(s, e) && x in s.tasks && !e.Clean?
    requires (e.Remove? || Moves(s, e)) ==> e.id != x.task.id
    requires !Begins(s, e, x.task.id)
    ensures x in Step(s, e, capacity).tasks
  {
    match e
    case Schedule(begin, interval, times) => PutMembers(s, begin, Task(s.lastId + 1, interval, times));
    case Reset(_, _, _) => if Moves(s, e) { var q, z := MovedEntry(s, e, capacity); }
    case Remove(id, _) => DropKeeps(s, id);
    case Start(_) =>
    case Finish(now) => PutMembers(s, now + s.running.interval, s.running);
  }

  // ---- A removed task never executes again ----

  ghost predicate Queued(s: State, id: nat) { id in s.indexes }

  /** An id that was issued, and is neither queued nor executing. */
  ghost predicate Gone(s: State, id: nat) {
    0 < id <= s.lastId && !Queued(s, id) && s.running.id != id
  }

  /** An id that executes for the last time: it is not queued and will not be queued again. */
  ghost predicate Leaving(s: State, id: nat) {
    && 0 < id <= s.lastId && !Queued(s, id)
    && (s.running.id == id ==> s.running.interval == INVALID_INTERVAL || s.running.times == 0)
  }

  lemma LeavingStays(s: State, e: Event, id: nat, capacity: nat)
    requires Inv(s, capacity) && Enabled(s, e) && Leaving(s, id)
    ensures Leaving(Step(s, e, capacity), id) && !Begins(s, e, id)
    ensures s.running.id != id ==> Step(s, e, capacity).running.id != id
  {
    match e
    case Schedule(_, _, _) => FreshId(s);
    case Reset(j, _, _) => if j in s.indexes { var x := QueuedTask(s, j); }
    case Remove(_, _) =>
    case Clean =>
    case Start(_) => assert s.tasks[0] in s.tasks;
    case Finish(_) =>
  }

  lemma {:induction false} LeavingNeverExecutes(s: State, es: seq<Event>, id: nat, capacity: nat)
    requires Inv(s, capacity) && CanRun(s, es, capacity) && Leaving(s, id)
    ensures Executions(s, es, id, capacity) == 0
    ensures Leaving(Run(s, es, capacity), id)
    ensures s.running.id != id ==> Run(s, es, capacity).running.id != id
    decreases |es|
  {
    if es != [] {
      LeavingStays(s, es[0], id, capacity);
      StepKeeps(s, es[0], capacity);
      LeavingNeverExecutes(Step(s, es[0], capacity), es[1..], id, capacity);
    }
  }

  /** Once Remove(id, true) returns, no run executes the task again, nor is it executing. */
  lemma RemovedNeverExecutes(s: State, id: nat, es: seq<Event>, capacity: nat)
    requires Inv(s, capacity) && 0 < id <= s.lastId && Enabled(s, Remove(id, true))
    requires CanRun(Step(s, Remove(id, true), capacity), es, capacity)
    ensures var s' := Step(s, Remove(id, true), capacity);
            && Executions(s', es, id, capacity) == 0
            && Gone(Run(s', es, capacity), id)
  {
    StepKeeps(s, Remove(id, true), capacity);
    DropKeeps(s, id);
    LeavingNeverExecutes(Step(s, Remove(id, true), capacity), es, id, capacity);
  }

  /** A queued task can always be brought to execution. */
  lemma {:induction false} QueuedCanExecute(s: State, id: nat, capacity: nat) returns (es: seq<Event>)
    requires Inv(s, capacity) && Queued(s, id)
    ensures CanRun(s, es, capacity) && Executions(s, es, id, capacity) == 1
    decreases s.running.id != INVALID_TASK_ID, |s.tasks|
  {
    var x := QueuedTask(s, id);
    var head := s.tasks[0];
    var e := if s.running.id != INVALID_TASK_ID then Finish(0)
             else if head.task.id == id then Start(head.time)
             else Remove(head.task.id, false);
    StepKeeps(s, e, capacity);
    var s' := Step(s, e, capacity);
    var rest := [];
    if !e.Start? {
      if e.Remove? { DropKeeps(s, head.task.id); assert head in s.tasks; assert x in s'.tasks; }
      rest := QueuedCanExecute(s', id, capacity);
    }
    Prepend(s, e, rest, capacity);
    es := [e] + rest;
  }

  /** Whether the worker will queue the executing task again. */
  predicate WillRepeat(s: State, id: nat) {
    s.running.id == id && s.running.interval != INVALID_INTERVAL && s.running.times > 0
  }

  /** A Remove that does not wait rules out later executions exactly when its task is not executing with repeats left. */
  lemma RemoveIsFinalExactlyWhen(s: State, id: nat, capacity: nat)
    requires Inv(s, capacity) && 0 < id <= s.lastId
    ensures var s' := Step(s, Remove(id, false), capacity);
            (forall es | CanRun(s', es, capacity) :: Executions(s', es, id, capacity) == 0) <==> !WillRepeat(s, id)
  {
    var s' := Step(s, Remove(id, false), capacity);
    StepKeeps(s, Remove(id, false), capacity);
    DropKeeps(s, id);
    if WillRepeat(s, id) {
      var s'' := Step(s', Finish(0), capacity);
      StepKeeps(s', Finish(0), capacity);
      var rest := QueuedCanExecute(s'', id, capacity);
      Prepend(s', Finish(0), rest, capacity);
      assert Executions(s', [Finish(0)] + rest, id, capacity) == 1;
    } else {
      forall es | CanRun(s', es, capacity) ensures Executions(s', es, id, capacity) == 0 {
        LeavingNeverExecutes(s', es, id, capacity);
      }
    }
  }

  // ---- Accounting ----

  /** The executions a task still has, the current one not included. */
  function Remaining(s: State, id: nat): nat {
    if s.running.id == id then s.running.times
    else if id in s.indexes then At(s.tasks, s.indexes[id]).times
    else 0
  }

  ghost predicate Live(s: State, id: nat) { id != INVALID_TASK_ID && (s.running.id == id || Queued(s, id)) }

  /** A live task that was given a positive number of executions. */
  ghost predicate Counted(s: State, id: nat) {
    && Live(s, id) && Remaining(s, id) < MODULUS
    && (Queued(s, id) && s.running.id != id ==> Remaining(s, id) >= 1)
  }

  /** The executions an entry of the queue still has. */
  lemma RemainingOf(s: State, x: Entry)
    requires Shape(s) && x in s.tasks && s.running.id != x.task.id
    ensures Queued(s, x.task.id) && Remaining(s, x.task.id) == x.task.times
  {
    var y := QueuedTask(s, x.task.id);
    SameNode(s.tasks, x, y);
  }

  lemma StartAccounts(s: State, e: Event, id: nat, capacity: nat)
    requires Inv(s, capacity) && Enabled(s, e) && Begins(s, e, id) && Counted(s, id)
    ensures Counted(Step(s, e, capacity), id) && 1 + Remaining(Step(s, e, capacity), id) == Remaining(s, id)
  {
    assert s.tasks[0] in s.tasks;
    RemainingOf(s, s.tasks[0]);
    var t := s.tasks[0].task.times;
    assert (t - 1) % MODULUS == t - 1;
  }

  lemma MoveAccounts(s: State, e: Event, capacity: nat)
    requires Inv(s, capacity) && Moves(s, e) && Counted(s, e.id)
    ensures Counted(Step(s, e, capacity), e.id) && Remaining(Step(s, e, capacity), e.id) == Remaining(s, e.id)
  {
    StepKeeps(s, e, capacity);
    var q, z := MovedEntry(s, e, capacity);
    RemainingOf(s, q);
    RemainingOf(Step(s, e, capacity), z);
  }

  /** Every event that leaves a task live moves at most one execution from what remains to what was done. */
  lemma QueuedAccounts(s: State, e: Event, id: nat, capacity: nat)
    requires Inv(s, capacity) && Enabled(s, e) && Queued(s, id) && Counted(s, id) && Live(Step(s, e, capacity), id)
    ensures var s' := Step(s, e, capacity);
            && Counted(s', id)
            && (if Begins(s, e, id) then 1 else 0) + Remaining(s', id) == Remaining(s, id)
  {
    if Begins(s, e, id) {
      StartAccounts(s, e, id, capacity);
    } else if Moves(s, e) && e.id == id {
      MoveAccounts(s, e, capacity);
    } else {
      StepKeeps(s, e, capacity);
      if e.Remove? { DropKeeps(s, e.id); }
      var x := QueuedTask(s, id);
      RemainingOf(s, x);
      EntryStays(s, e, capacity, x);
      RemainingOf(Step(s, e, capacity), x);
    }
  }

  lemma ExecutingAccounts(s: State, e: Event, id: nat, capacity: nat)
    requires Inv(s, capacity) && Enabled(s, e) && s.running.id == id && Counted(s, id) && Live(Step(s, e, capacity), id)
    ensures Counted(Step(s, e, capacity), id) && Remaining(Step(s, e, capacity), id) == Remaining(s, id)
  {
    if e.Finish? {
      StepKeeps(s, e, capacity);
      PutMembers(s, e.now + s.running.interval, s.running);
      RemainingOf(Step(s, e, capacity), Entry(e.now + s.running.interval, s.nextNode, s.running));
    }
  }

  /** Executions done and executions remaining add up to those given, under every interleaving. */
  lemma {:induction false} Accounts(s: State, es: seq<Event>, id: nat, capacity: nat)
    requires Inv(s, capacity) && CanRun(s, es, capacity) && Counted(s, id)
    ensures var s' := Run(s, es, capacity);
            && Executions(s, es, id, capacity) <= Remaining(s, id)
            && (Live(s', id) ==> Executions(s, es, id, capacity) + Remaining(s', id) == Remaining(s, id))
    decreases |es|
  {
    if es != [] {
      var s' := Step(s, es[0], capacity);
      StepKeeps(s, es[0], capacity);
      if Live(s', id) {
        if s.running.id == id {
          ExecutingAccounts(s, es[0], id, capacity);
        } else {
          QueuedAccounts(s, es[0], id, capacity);
        }
        Accounts(s', es[1..], id, capacity);
      } else {
        IssuedIds(s, id, capacity);
        LeavingNeverExecutes(s', es[1..], id, capacity);
      }
    }
  }

  lemma IssuedIds(s: State, id: nat, capacity: nat)
    requires Inv(s, capacity) && Live(s, id)
    ensures 0 < id <= s.lastId
  {
    if id in s.indexes { var x := QueuedTask(s, id); }
  }

  /** A task scheduled with `times` executes at most that often in every run exactly when `times` is positive: zero wraps around. */
  lemma TimesBoundsExecutionsExactlyWhen(s: State, e: Event, capacity: nat)
    requires Inv(s, capacity) && e.Schedule? && Enabled(s, e) && |s.tasks| < capacity
    ensures var s', id := Step(s, e, capacity), s.lastId + 1;
            (forall es | CanRun(s', es, capacity) :: Executions(s', es, id, capacity) <= e.times) <==> e.times >= 1
  {
    var s', id := Step(s, e, capacity), s.lastId + 1;
    var z := Entry(e.begin, s.nextNode, Task(id, e.interval, e.times));
    StepKeeps(s, e, capacity);
    InsertMembers(s.tasks, z, z);
    RemainingOf(s', z);
    if e.times >= 1 {
      forall es | CanRun(s', es, capacity) ensures Executions(s', es, id, capacity) <= e.times {
        Accounts(s', es, id, capacity);
      }
    } else {
      var es := QueuedCanExecute(s', id, capacity);
    }
  }

  /** While a task that repeats is executing, `n` more are scheduled; then it is queued again. */
  lemma {:induction false} FillUp(s: State, n: nat, capacity: nat) returns (es: seq<Event>)
    requires |s.tasks| + n <= capacity
    requires s.running.id != INVALID_TASK_ID && s.running.interval != INVALID_INTERVAL && s.running.times > 0
    ensures CanRun(s, es, capacity) && |Run(s, es, capacity).tasks| == |s.tasks| + n + 1
    decreases n
  {
    if n == 0 {
      Prepend(s, Finish(0), [], capacity);
      es := [Finish(0)] + [];
    } else {
      var e := Schedule(0, 0, 1);
      es := FillUp(Step(s, e, capacity), n - 1, capacity);
      Prepend(s, e, es, capacity);
      es := [e] + es;
    }
  }

  /**
   The bound of capacity + 1 tasks is reached, whatever the capacity: the worker queues its task again without
   looking at the capacity.
   */
  lemma {:induction false} QueueMayExceedCapacity(capacity: nat) returns (es: seq<Event>)
    requires capacity >= 1
    ensures CanRun(Init(), es, capacity) && |Run(Init(), es, capacity).tasks| == capacity + 1
  {
    var s1 := State([Entry(0, 0, Task(1, 1, 5))], map[1 := 0], IDLE, 1, 1);
    var s2 := State([], map[], Task(1, 1, 4), 1, 1);
    assert Step(Init(), Schedule(0, 1, 5), capacity) == s1 && Step(s1, Start(0), capacity) == s2;
    es := FillUp(s2, capacity, capacity);
    Prepend(s1, Start(0), es, capacity);
    es := [Start(0)] + es;
    Prepend(Init(), Schedule(0, 1, 5), es, capacity);
    es := [Schedule(0, 1, 5)] + es;
  }
}
