/** The scheduler's tables, updated in place: the ready queue is an array shifted one element
    at a time, and every call does to the tables what one step of the model does. */
module Scheduler {
  import opened Basics
  import opened SchedulerModel

  lemma InsertAtIs(tasks: seq<Task>, queue: seq<int>, handle: int, n: nat)
    requires n <= |queue|
    requires forall i :: 0 <= i < n ==> !Outranks(tasks, handle, queue[i])
    requires n < |queue| ==> Outranks(tasks, handle, queue[n])
    ensures InsertAt(tasks, queue, handle) == n
  {
  }

  lemma IndexInIs(queue: seq<int>, handle: int, n: nat)
    requires n <= |queue|
    requires forall i :: 0 <= i < n ==> queue[i] != handle
    requires n < |queue| ==> queue[n] == handle
    ensures IndexIn(queue, handle) == n
  {
    var m := IndexIn(queue, handle);
    assert forall i :: 0 <= i < m ==> queue[i] == queue[..m][i];
  }

  lemma FirstRankedIs(tasks: seq<Task>, queue: seq<int>, priority: int, n: nat, i: nat)
    requires n <= i <= |queue|
    requires forall j :: n <= j < i ==> !Ranks(tasks, queue[j], priority)
    requires i < |queue| ==> Ranks(tasks, queue[i], priority)
    ensures FirstRanked(tasks, queue, priority, n) == i
  {
  }

  // What the pass behind the current task finds, or -1.
  ghost function Behind(tasks: seq<Task>, queue: seq<int>, best: int, current: int): int {
    var at := IndexIn(queue, current);
    var behind := if at < |queue| && Ranks(tasks, current, best)
                  then FirstRanked(tasks, queue, best, at + 1) else |queue|;
    if behind < |queue| then queue[behind] else NO_TASK
  }

  // What a scan of the whole queue finds, or -1.
  ghost function FirstOf(tasks: seq<Task>, queue: seq<int>, best: int): int {
    var first := FirstRanked(tasks, queue, best, 0);
    if first < |queue| then queue[first] else NO_TASK
  }

  // The state of the pass behind the current task before it looks at position i.
  ghost predicate Passing(tasks: seq<Task>, queue: seq<int>, best: int, current: int, i: nat, found: bool)
    requires i <= |queue|
  {
    var at := IndexIn(queue, current);
    && (found <==> at < i && Ranks(tasks, current, best))
    && (found ==> forall j :: at < j < i ==> !Ranks(tasks, queue[j], best))
  }

  lemma PassStarts(tasks: seq<Task>, queue: seq<int>, best: int, current: int)
    ensures Passing(tasks, queue, best, current, 0, false)
  {
  }

  lemma PassSkips(tasks: seq<Task>, queue: seq<int>, best: int, current: int, i: nat, found: bool)
    requires i < |queue| && Passing(tasks, queue, best, current, i, found) && !Ranks(tasks, queue[i], best)
    ensures Passing(tasks, queue, best, current, i + 1, found)
  {
  }

  lemma PassLooks(tasks: seq<Task>, queue: seq<int>, best: int, current: int, i: nat)
    requires i < |queue| && Passing(tasks, queue, best, current, i, false) && Ranks(tasks, queue[i], best)
    ensures Passing(tasks, queue, best, current, i + 1, queue[i] == current)
  {
    var at := IndexIn(queue, current);
    assert forall j :: 0 <= j < at ==> queue[j] == queue[..at][j];
  }

  lemma PassFinds(tasks: seq<Task>, queue: seq<int>, best: int, current: int, i: nat)
    requires i < |queue| && Passing(tasks, queue, best, current, i, true) && Ranks(tasks, queue[i], best)
    ensures Behind(tasks, queue, best, current) == queue[i]
  {
    FirstRankedIs(tasks, queue, best, IndexIn(queue, current) + 1, i);
  }

  lemma PassEnds(tasks: seq<Task>, queue: seq<int>, best: int, current: int, found: bool)
    requires Passing(tasks, queue, best, current, |queue|, found)
    ensures Behind(tasks, queue, best, current) == NO_TASK
  {
    if found {
      FirstRankedIs(tasks, queue, best, IndexIn(queue, current) + 1, |queue|);
    }
  }

  lemma ScanFinds(tasks: seq<Task>, queue: seq<int>, best: int, i: nat)
    requires i < |queue| && Ranks(tasks, queue[i], best)
    requires forall j :: 0 <= j < i ==> !Ranks(tasks, queue[j], best)
    ensures FirstOf(tasks, queue, best) == queue[i]
  {
    FirstRankedIs(tasks, queue, best, 0, i);
  }

  lemma ScanEnds(tasks: seq<Task>, queue: seq<int>, best: int)
    requires forall j :: 0 <= j < |queue| ==> !Ranks(tasks, queue[j], best)
    ensures FirstOf(tasks, queue, best) == NO_TASK
  {
    FirstRankedIs(tasks, queue, best, 0, |queue|);
  }

  lemma FoundIsSelect(signed: bool, tasks: seq<Task>, queue: seq<int>, current: int)
    ensures var best := Compared(signed, Best(signed, tasks, queue));
      var behind := Behind(tasks, queue, best, current);
      Select(signed, tasks, queue, current) == if behind >= 0 then behind else FirstOf(tasks, queue, best)
  {
  }

  class SchedState {
    const signed: bool
    var tasks: array<Task>
    var readyQueue: array<int>
    var readyCount: nat
    var current: int
    var slice: int  // the handle scheduler_run holds while its task executes

    ghost predicate Valid()
      reads this
    {
      && tasks.Length == readyQueue.Length == MAX_TASKS && readyCount <= MAX_TASKS
      && slice < MAX_TASKS
    }

    ghost function Tables(): Sched
      reads this, tasks, readyQueue
      requires Valid()
    {
      Sched(tasks[..], readyQueue[..readyCount], current, slice, signed)
    }

    constructor (signed: bool)
      ensures Valid() && fresh(tasks) && fresh(readyQueue)
      ensures Tables() == Initial(signed)
    {
      this.signed := signed;
      tasks := new Task[MAX_TASKS](_ => Task(false, 0, Inactive));
      readyQueue := new int[MAX_TASKS];
      readyCount, current, slice := 0, NO_TASK, NO_TASK;
      new;
      assert tasks[..] == Initial(signed).tasks;
    }

    predicate InUse(handle: int)
      reads this, tasks
    {
      0 <= handle < tasks.Length && tasks[handle].inUse
    }

    method FindFreeSlot() returns (handle: int)
      requires Valid()
      ensures var n := FreeSlot(tasks[..]); handle == if n < MAX_TASKS then n else -1
    {
      for i := 0 to MAX_TASKS
        invariant forall j :: 0 <= j < i ==> tasks[j].inUse
      {
        if !tasks[i].inUse {
          return i;
        }
      }
      return -1;
    }

    // The first position whose task the handle's task outranks, or the end.
    method InsertPosition(handle: int) returns (at: nat)
      requires Valid() && InUse(handle)
      ensures at == InsertAt(tasks[..], readyQueue[..readyCount], handle)
    {
      ghost var queue := readyQueue[..readyCount];
      at := readyCount;
      for i := 0 to readyCount
        invariant at == readyCount
        invariant forall j :: 0 <= j < i ==> !Outranks(tasks[..], handle, queue[j])
      {
        var other := readyQueue[i];
        if InUse(other) && tasks[handle].priority > tasks[other].priority {
          at := i;
          break;
        }
      }
      InsertAtIs(tasks[..], queue, handle, at);
    }

    method AddToReadyQueue(handle: int)
      requires Valid()
      modifies this`readyCount, readyQueue
      ensures Valid()
      ensures readyQueue[..readyCount] == Add(tasks[..], old(readyQueue[..readyCount]), handle)
    {
      ghost var queue := readyQueue[..readyCount];
      if readyCount >= MAX_TASKS || !InUse(handle) {
        return;
      }
      var at := InsertPosition(handle);
      hide InsertAt;
      ShiftUp(at);
      readyQueue[at] := handle;
      readyCount := readyCount + 1;
      assert readyQueue[..readyCount] == Insert(queue, at, handle);
    }

    // Moves the entries from a position on one place up.
    method ShiftUp(at: nat)
      requires Valid() && at <= readyCount < MAX_TASKS
      modifies readyQueue
      ensures forall j :: 0 <= j < at ==> readyQueue[j] == old(readyQueue[j])
      ensures forall j :: at < j <= readyCount ==> readyQueue[j] == old(readyQueue[j - 1])
    {
      var i := readyCount;
      while i > at
        invariant at <= i <= readyCount
        invariant forall j :: 0 <= j < i ==> readyQueue[j] == old(readyQueue[j])
        invariant forall j :: i < j <= readyCount ==> readyQueue[j] == old(readyQueue[j - 1])
      {
        readyQueue[i] := readyQueue[i - 1];
        i := i - 1;
      }
    }

    method RemoveFromReadyQueue(handle: int)
      requires Valid()
      modifies this`readyCount, readyQueue
      ensures Valid()
      ensures readyQueue[..readyCount] == Remove(old(readyQueue[..readyCount]), handle)
    {
      ghost var queue := readyQueue[..readyCount];
      for i := 0 to readyCount
        invariant readyCount == |queue| && readyQueue[..readyCount] == queue
        invariant forall j :: 0 <= j < i ==> queue[j] != handle
      {
        if readyQueue[i] == handle {
          IndexInIs(queue, handle, i);
          ShiftDown(i);
          readyCount := readyCount - 1;
          assert readyQueue[..readyCount] == queue[..i] + queue[i + 1..];
          return;
        }
      }
      IndexInIs(queue, handle, |queue|);
    }

    // Moves the entries behind a position one place down.
    method ShiftDown(at: nat)
      requires Valid() && at < readyCount
      modifies readyQueue
      ensures forall k :: 0 <= k < at ==> readyQueue[k] == old(readyQueue[k])
      ensures forall k :: at <= k < readyCount - 1 ==> readyQueue[k] == old(readyQueue[k + 1])
    {
      var j := at;
      while j < readyCount - 1
        invariant at <= j < readyCount
        invariant forall k :: 0 <= k < at ==> readyQueue[k] == old(readyQueue[k])
        invariant forall k :: at <= k < j ==> readyQueue[k] == old(readyQueue[k + 1])
        invariant forall k :: j < k < readyCount ==> readyQueue[k] == old(readyQueue[k])
      {
        readyQueue[j] := readyQueue[j + 1];
        j := j + 1;
      }
    }

    method BestPriority() returns (best: int)
      requires Valid()
      ensures best == Best(signed, tasks[..], readyQueue[..readyCount])
    {
      best := -1;
      for i := 0 to readyCount
        invariant best == Best(signed, tasks[..], readyQueue[..i])
      {
        var handle := readyQueue[i];
        assert readyQueue[..i + 1][..i] == readyQueue[..i];
        if InUse(handle) && tasks[handle].priority > Compared(signed, best) {
          best := tasks[handle].priority;
        }
      }
    }

    // One pass over the queue: the first looks behind the current task, the second anywhere.
    method OnePass(pass: nat, best: int, foundBefore: bool) returns (selected: int, found: bool)
      requires Valid() && (pass == 0 ==> !foundBefore)
      ensures selected ==
        if pass == 0 then Behind(tasks[..], readyQueue[..readyCount], best, current)
        else FirstOf(tasks[..], readyQueue[..readyCount], best)
    {
      ghost var ts, queue := tasks[..], readyQueue[..readyCount];
      hide FirstRanked, IndexIn, Behind, FirstOf, Passing;
      selected, found := NO_TASK, foundBefore;
      if pass == 0 {
        PassStarts(ts, queue, best, current);
      }
      var i := 0;
      while i < readyCount
        invariant 0 <= i <= readyCount && selected == NO_TASK
        invariant pass == 0 ==> Passing(ts, queue, best, current, i, found)
        invariant pass != 0 ==> forall j :: 0 <= j < i ==> !Ranks(ts, queue[j], best)
      {
        var handle := readyQueue[i];
        if !InUse(handle) || tasks[handle].priority != best {
          if pass == 0 {
            PassSkips(ts, queue, best, current, i, found);
          }
        } else if pass == 0 && !found {
          PassLooks(ts, queue, best, current, i);
          if handle == current {
            found := true;
          }
        } else {
          if pass == 0 {
            PassFinds(ts, queue, best, current, i);
          } else {
            ScanFinds(ts, queue, best, i);
          }
          return handle, found;
        }
        i := i + 1;
      }
      if pass == 0 {
        PassEnds(ts, queue, best, current, found);
      } else {
        ScanEnds(ts, queue, best);
      }
    }

    method FirstOfPriority(best: int) returns (selected: int)
      requires Valid()
      ensures selected == FirstOf(tasks[..], readyQueue[..readyCount], best)
    {
      ghost var ts, queue := tasks[..], readyQueue[..readyCount];
      hide FirstRanked, FirstOf;
      for i := 0 to readyCount
        invariant forall j :: 0 <= j < i ==> !Ranks(ts, queue[j], best)
      {
        var handle := readyQueue[i];
        if InUse(handle) && tasks[handle].priority == best {
          ScanFinds(ts, queue, best, i);
          return handle;
        }
      }
      ScanEnds(ts, queue, best);
      return NO_TASK;
    }

    /** The scans of the queue agree with the model's selection; the last one only repeats the
        second pass, and never finds more. */
    method SelectNextTask() returns (selected: int)
      requires Valid()
      ensures selected == Select(signed, tasks[..], readyQueue[..readyCount], current)
    {
      if readyCount == 0 {
        return NO_TASK;
      }
      ghost var ts, queue := tasks[..], readyQueue[..readyCount];
      var highest := BestPriority();
      var best := Compared(signed, highest);
      FoundIsSelect(signed, ts, queue, current);
      hide Best, FirstRanked, IndexIn, Behind, FirstOf, Passing, Select;
      selected := NO_TASK;
      var found := false;
      for pass := 0 to 2
        invariant pass == 0 ==> selected == NO_TASK && !found
        invariant pass == 1 ==> selected == Behind(ts, queue, best, current)
        invariant pass == 2 ==> Behind(ts, queue, best, current) < 0 && selected == FirstOf(ts, queue, best)
        invariant selected >= 0 ==> selected == Select(signed, ts, queue, current)
      {
        if selected >= 0 {
          break;
        }
        selected, found := OnePass(pass, best, found);
      }
      if selected < 0 {
        selected := FirstOfPriority(best);
      }
    }

    // ---------- The calls ----------

    method CreateTask(priority: nat) returns (handle: int)
      requires Valid()
      modifies tasks
      ensures Valid() && Tables() == Step(old(Tables()), Create(priority))
      ensures if handle == -ENOMEM then forall h :: 0 <= h < MAX_TASKS ==> old(tasks[h].inUse)
              else 0 <= handle < MAX_TASKS && !old(tasks[handle].inUse) && tasks[handle] == Task(true, priority, Inactive)
    {
      handle := FindFreeSlot();
      if handle < 0 {
        return -ENOMEM;
      }
      tasks[handle] := Task(true, priority, Inactive);
    }

    method DestroyTask(handle: int) returns (rc: int)
      requires Valid()
      modifies this, tasks, readyQueue
      ensures Valid() && tasks == old(tasks) && readyQueue == old(readyQueue)
      ensures Tables() == Step(old(Tables()), Destroy(handle))
      ensures rc == if old(InUse(handle)) then 0 else -ENOENT
    {
      if !InUse(handle) {
        return -ENOENT;
      }
      RemoveFromReadyQueue(handle);
      hide Remove;
      if current == handle {
        current := NO_TASK;
      }
      tasks[handle] := tasks[handle].(inUse := false);
      return 0;
    }

    method StartTask(handle: int) returns (rc: int)
      requires Valid()
      modifies this`readyCount, tasks, readyQueue
      ensures Valid() && Tables() == Step(old(Tables()), Start(handle))
      ensures rc == if !old(InUse(handle)) then -ENOENT
        else if old(tasks[handle].state) == Inactive || old(tasks[handle].state) == Suspended then 0 else -EINVAL
    {
      if !InUse(handle) {
        return -ENOENT;
      }
      if tasks[handle].state != Inactive && tasks[handle].state != Suspended {
        return -EINVAL;
      }
      EnterReady(handle);
      return 0;
    }

    // The slot is marked ready and queued.
    method EnterReady(handle: int)
      requires Valid() && InUse(handle)
      modifies this`readyCount, tasks, readyQueue
      ensures Valid() && Tables() == MakeReady(old(Tables()), handle)
    {
      tasks[handle] := tasks[handle].(state := Ready);
      AddToReadyQueue(handle);
      hide Add;
    }

    // The slot is marked ready, taken out of the queue and queued.
    method RequeueReady(handle: int)
      requires Valid() && InUse(handle)
      modifies this`readyCount, tasks, readyQueue
      ensures Valid() && Tables() == Requeue(old(Tables()), handle)
    {
      tasks[handle] := tasks[handle].(state := Ready);
      RemoveFromReadyQueue(handle);
      hide Remove;
      AddToReadyQueue(handle);
      hide Add;
    }

    method Leave(handle: int, state: TaskState)
      requires Valid() && InUse(handle)
      modifies this`readyCount, tasks, readyQueue
      ensures Valid() && Tables() == Withdraw(old(Tables()), handle, state)
    {
      tasks[handle] := tasks[handle].(state := state);
      RemoveFromReadyQueue(handle);
      hide Remove;
    }

    method SuspendTask(handle: int) returns (rc: int)
      requires Valid()
      modifies this`readyCount, tasks, readyQueue
      ensures Valid() && Tables() == Step(old(Tables()), Suspend(handle))
      ensures rc == if old(InUse(handle)) then 0 else -ENOENT
    {
      if !InUse(handle) {
        return -ENOENT;
      }
      Leave(handle, Suspended);
      return 0;
    }

    method ResumeTask(handle: int) returns (rc: int)
      requires Valid()
      modifies this`readyCount, tasks, readyQueue
      ensures Valid() && Tables() == Step(old(Tables()), Resume(handle))
      ensures rc == if !old(InUse(handle)) then -ENOENT else if old(tasks[handle].state) == Suspended then 0 else -EINVAL
    {
      if !InUse(handle) {
        return -ENOENT;
      }
      if tasks[handle].state != Suspended {
        return -EINVAL;
      }
      EnterReady(handle);
      return 0;
    }

    method ChangeTaskPriority(handle: int, priority: nat) returns (rc: int)
      requires Valid()
      modifies this`readyCount, tasks, readyQueue
      ensures Valid() && Tables() == Step(old(Tables()), SetPriority(handle, priority))
      ensures rc == if old(InUse(handle)) then 0 else -ENOENT
    {
      if !InUse(handle) {
        return -ENOENT;
      }
      tasks[handle] := tasks[handle].(priority := priority);
      if tasks[handle].state == Ready {
        RequeueReady(handle);
      }
      return 0;
    }

    method YieldTask()
      requires Valid()
      modifies this`readyCount, tasks, readyQueue
      ensures Valid() && Tables() == Step(old(Tables()), Yield)
    {
      if current >= 0 {
        if InUse(current) && tasks[current].state == Running {
          RequeueReady(current);
        }
      }
    }

    method BlockTask()
      requires Valid()
      modifies this`readyCount, tasks, readyQueue
      ensures Valid() && Tables() == Step(old(Tables()), Block)
    {
      if current >= 0 {
        if InUse(current) {
          Leave(current, Blocked);
        }
      }
    }

    method UnblockTask(handle: int) returns (rc: int)
      requires Valid()
      modifies this`readyCount, tasks, readyQueue
      ensures Valid() && Tables() == Step(old(Tables()), Unblock(handle))
      ensures rc == if !old(InUse(handle)) then -ENOENT else if old(tasks[handle].state) == Blocked then 0 else -EINVAL
    {
      if !InUse(handle) {
        return -ENOENT;
      }
      if tasks[handle].state != Blocked {
        return -EINVAL;
      }
      EnterReady(handle);
      return 0;
    }

    method TickTimer(expired: bool)
      requires Valid()
      modifies this, tasks, readyQueue
      ensures Valid() && tasks == old(tasks) && readyQueue == old(readyQueue)
      ensures Tables() == Step(old(Tables()), Tick(expired))
    {
      if current >= 0 {
        if !InUse(current) {
          return;
        }
        if expired && tasks[current].state == Running {
          RequeueReady(current);
          current := NO_TASK;
        }
      }
    }

    // The first half of a cycle, up to the call of the task's entry function.
    method BeginCycle() returns (next: int)
      requires Valid() && slice == NO_TASK
      modifies this, tasks, readyQueue
      ensures Valid() && tasks == old(tasks) && readyQueue == old(readyQueue)
      ensures Tables() == Step(old(Tables()), RunBegin)
      ensures if next >= 0 then slice == current == next else Tables() == old(Tables())
    {
      next := SelectNextTask();
      if next < 0 {
        return;
      }
      if !InUse(next) {
        return -EINVAL;
      }
      current := next;
      slice := next;
      Leave(next, Running);
    }

    // The second half, after the entry function has returned.
    method EndCycle()
      requires Valid() && slice >= 0
      modifies this, tasks, readyQueue
      ensures Valid() && tasks == old(tasks) && readyQueue == old(readyQueue)
      ensures Tables() == Step(old(Tables()), RunEnd)
    {
      if tasks[slice].state == Running {
        tasks[slice] := tasks[slice].(state := Terminated);
      } else if tasks[slice].state == Ready {
        AddToReadyQueue(slice);
      }
      current := NO_TASK;
      slice := NO_TASK;
    }
  }
}
