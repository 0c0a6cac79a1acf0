/**
 TaskScheduler as an object.  Each method is one critical section; its effect is the event of SchedulerSpec
 it is named after, so what is proved there about runs holds of every interleaving of these methods.
 */
module TaskScheduler {

  import opened SchedulerSpec

  /** The queue's head is another one than before, so a worker that waits for the old head must be woken. */
  predicate NewHead(was: seq<Entry>, tasks: seq<Entry>) {
    tasks != [] && (was == [] || was[0] != tasks[0])
  }

  lemma {:induction false} InsertThenErase(tasks: seq<Entry>, e: Entry, node: nat)
    requires Ordered(tasks) && e.node != node
    ensures Erase(Insert(tasks, e), node) == Insert(Erase(tasks, node), e)
  {
    if tasks != [] {
      assert Ordered(tasks[1..]);
      if tasks[0].time <= e.time {
        InsertThenErase(tasks[1..], e, node);
      } else if tasks[0].node != node {
        assert ([e] + tasks)[1..] == tasks;
      }
    }
  }

  lemma InsertHead(tasks: seq<Entry>, e: Entry)
    ensures NewHead(tasks, Insert(tasks, e)) ==> Insert(tasks, e)[0] == e
  {
  }

  lemma EraseHead(tasks: seq<Entry>, node: nat)
    requires tasks != [] && tasks[0].node != node
    ensures Erase(tasks, node) != [] && Erase(tasks, node)[0] == tasks[0]
  {
  }

  lemma ScheduleFacts(s: State, e: Event, capacity: nat)
    requires Inv(s, capacity) && e.Schedule? && Enabled(s, e)
    ensures Inv(Step(s, e, capacity), capacity)
    ensures s.lastId + 1 !in s.indexes && s.lastId + 1 != s.running.id
    ensures |s.tasks| < capacity && NewHead(s.tasks, Step(s, e, capacity).tasks)
            ==> Step(s, e, capacity).tasks[0].node == s.nextNode
  {
    StepKeeps(s, e, capacity);
    FreshId(s);
    InsertHead(s.tasks, Entry(e.begin, s.nextNode, Task(s.lastId + 1, e.interval, e.times)));
  }

  /** The entry Reset moves a queued task to. */
  function Target(s: State, e: Event): Entry
    requires Moves(s, e)
  {
    var t := SchedulerSpec.At(s.tasks, s.indexes[e.id]);
    Entry(e.now + e.interval, s.nextNode, if t.interval != INVALID_INTERVAL then t.(interval := e.interval) else t)
  }

  /** Reset inserts the moved task before it erases the old one. */
  function Moved(s: State, e: Event): State
    requires Moves(s, e)
  {
    s.(tasks := Erase(Insert(s.tasks, Target(s, e)), s.indexes[e.id]), indexes := s.indexes[e.id := s.nextNode],
       nextNode := s.nextNode + 1)
  }

  /** Whether, between the two, one of them is the head. */
  predicate Wakes(s: State, e: Event)
    requires Moves(s, e)
  {
    var head := Insert(s.tasks, Target(s, e))[0].node;
    head == s.nextNode || head == s.indexes[e.id]
  }

  lemma MovedIsReset(s: State, e: Event, capacity: nat)
    requires Inv(s, capacity) && Moves(s, e)
    ensures Moved(s, e) == Step(s, e, capacity)
    ensures NewHead(s.tasks, Moved(s, e).tasks) ==> Wakes(s, e)
  {
    var z := Target(s, e);
    var x := QueuedTask(s, e.id);
    InsertThenErase(s.tasks, z, x.node);
    InsertHead(s.tasks, z);
    if Insert(s.tasks, z)[0].node != x.node { EraseHead(Insert(s.tasks, z), x.node); }
    assert (s.indexes - {e.id})[e.id := z.node] == s.indexes[e.id := z.node];
  }

  class Scheduler {
    const capacity: nat
    var tasks: seq<Entry>
    var indexes: map<nat, nat>
    var running: Task
    var taskId: nat
    var nextNode: nat

    ghost function Abs(): State
      reads this
    {
      State(tasks, indexes, running, taskId, nextNode)
    }

    ghost predicate Valid()
      reads this
    {
      Inv(Abs(), capacity)
    }

    constructor (limit: nat)
      ensures Valid() && Abs() == Init() && capacity == limit
    {
      capacity := limit;
      tasks := [];
      indexes := map[];
      running := IDLE;
      taskId := INVALID_TASK_ID;
      nextNode := 0;
      new;
      InitInv(capacity);
    }

    method GenTaskId() returns (id: nat)
      requires taskId < MODULUS
      modifies this`taskId
      ensures id == taskId && 0 < id < MODULUS
      ensures old(taskId) < MODULUS - 1 ==> id == old(taskId) + 1
    {
      taskId := (taskId + 1) % MODULUS;
      if taskId == INVALID_TASK_ID {
        taskId := (taskId + 1) % MODULUS;
      }
      id := taskId;
    }

    method At(begin: int, interval: int, times: nat) returns (id: nat, notified: bool)
      requires Valid() && times < MODULUS && taskId < MODULUS - 1
      modifies this
      ensures Valid()
      ensures Abs() == Step(old(Abs()), Schedule(begin, interval, times), capacity)
      ensures id == if old(|tasks|) < capacity then taskId else INVALID_TASK_ID
      ensures id != INVALID_TASK_ID ==> id !in old(indexes) && id in indexes && id != running.id
      ensures NewHead(old(tasks), tasks) ==> notified
    {
      ghost var next := Step(Abs(), Schedule(begin, interval, times), capacity);
      ScheduleFacts(Abs(), Schedule(begin, interval, times), capacity);
      if |tasks| >= capacity {
        return INVALID_TASK_ID, false;
      }
      id := GenTaskId();
      var it := nextNode;
      nextNode := nextNode + 1;
      tasks := Insert(tasks, Entry(begin, it, Task(id, interval, times)));
      notified := tasks[0].node == it;
      indexes := indexes[id := it];
      assert Abs() == next;
    }

    method Reset(id: nat, interval: int, now: int) returns (r: nat, notified: bool)
      requires Valid()
      modifies this
      ensures Valid()
      ensures Abs() == Step(old(Abs()), Event.Reset(id, interval, now), capacity)
      ensures r == if WillReset(old(Abs()), id) then id else INVALID_TASK_ID
      ensures NewHead(old(tasks), tasks) ==> notified
    {
      StepKeeps(Abs(), Event.Reset(id, interval, now), capacity);
      if running.id == id && running.interval != INVALID_INTERVAL {
        running := running.(interval := interval);
        return running.id, false;
      }
      if id !in indexes {
        return INVALID_TASK_ID, false;
      }
      MovedIsReset(Abs(), Event.Reset(id, interval, now), capacity);
      notified := Move(id, interval, now);
      r := id;
    }

    /** The end of Reset, for a task that is in the queue. */
    method Move(id: nat, interval: int, now: int) returns (notified: bool)
      requires Moves(Abs(), Event.Reset(id, interval, now))
      modifies this`tasks, this`indexes, this`nextNode
      ensures Abs() == Moved(old(Abs()), Event.Reset(id, interval, now))
      ensures notified == Wakes(old(Abs()), Event.Reset(id, interval, now))
    {
      var was := indexes[id];
      var task := SchedulerSpec.At(tasks, was);
      if task.interval != INVALID_INTERVAL {
        task := task.(interval := interval);
      }
      var it := nextNode;
      nextNode := nextNode + 1;
      tasks := Insert(tasks, Entry(now + interval, it, task));
      notified := tasks[0].node == it || tasks[0].node == was;
      tasks := Erase(tasks, was);
      indexes := indexes[id := it];
    }

    /** Reset accepts a queued task, and an executing one that repeats. */
    ghost predicate WillReset(s: State, id: nat) {
      (s.running.id == id && s.running.interval != INVALID_INTERVAL) || id in s.indexes
    }

    method Clean()
      requires Valid()
      modifies this`tasks, this`indexes
      ensures Valid() && Abs() == Step(old(Abs()), Event.Clean, capacity)
    {
      StepKeeps(Abs(), Event.Clean, capacity);
      indexes := map[];
      tasks := [];
    }

    /** The section behind the wait: `wait` is satisfied when the task does not execute. */
    method Remove(id: nat, wait: bool) returns (notified: bool)
      requires Valid() && (!wait || running.id != id)
      modifies this`tasks, this`indexes
      ensures Valid() && Abs() == Step(old(Abs()), Event.Remove(id, wait), capacity)
      ensures NewHead(old(tasks), tasks) ==> notified
    {
      StepKeeps(Abs(), Event.Remove(id, wait), capacity);
      if id !in indexes {
        return false;
      }
      tasks := Erase(tasks, indexes[id]);
      indexes := indexes - {id};
      notified := true;
    }

    /** The worker's first section, when the worker is idle: it starts a task, or has to wait. */
    method BeginTask(now: int) returns (started: bool)
      requires Valid() && running.id == INVALID_TASK_ID
      modifies this`tasks, this`indexes, this`running
      ensures Valid() && (started <==> Enabled(old(Abs()), Start(now)))
      ensures Abs() == if Enabled(old(Abs()), Start(now)) then Step(old(Abs()), Start(now), capacity) else old(Abs())
    {
      if tasks == [] || tasks[0].time > now {
        return false;
      }
      ghost var next := Step(Abs(), Start(now), capacity);
      StepKeeps(Abs(), Start(now), capacity);
      running := tasks[0].task;
      indexes := indexes - {running.id};
      tasks := tasks[1..];
      running := running.(times := (running.times - 1) % MODULUS);
      assert Abs() == next;
      started := true;
    }

    /** The worker's second section, after the task has executed. */
    method EndTask(now: int)
      requires Valid() && running.id != INVALID_TASK_ID
      modifies this`tasks, this`indexes, this`running, this`nextNode
      ensures Valid() && Abs() == Step(old(Abs()), Finish(now), capacity)
    {
      ghost var next := Step(Abs(), Finish(now), capacity);
      StepKeeps(Abs(), Finish(now), capacity);
      if running.interval != INVALID_INTERVAL && running.times > 0 {
        var it := nextNode;
        nextNode := nextNode + 1;
        tasks := Insert(tasks, Entry(now + running.interval, it, running));
        indexes := indexes[running.id := it];
      }
      running := IDLE;
      assert Abs() == next;
    }
  }
}
