/** What every run of the scheduler keeps, what the runs without a second enqueue keep, and
    the order in which tasks are dispatched. */
module SchedulerTheorems {
  import opened SchedulerModel

  // ---------- How often a handle is queued ----------

  lemma RemoveTakesOne(queue: seq<int>, handle: int)
    ensures multiset(Remove(queue, handle)) == multiset(queue) - multiset{handle}
  {
    var n := IndexIn(queue, handle);
    if n < |queue| {
      assert queue == queue[..n] + [handle] + queue[n + 1..];
      assert multiset(queue) == multiset(queue[..n]) + multiset{handle} + multiset(queue[n + 1..]);
    } else {
      assert queue[..n] == queue;
      assert handle !in multiset(queue);
    }
  }

  lemma AddPutsAtMostOne(tasks: seq<Task>, queue: seq<int>, handle: int)
    ensures multiset(Add(tasks, queue, handle)) ==
      if |queue| < MAX_TASKS && Live(tasks, handle) then multiset(queue) + multiset{handle} else multiset(queue)
  {
    var n := InsertAt(tasks, queue, handle);
    assert queue == queue[..n] + queue[n..];
    assert multiset(Insert(queue, n, handle)) == multiset(queue[..n]) + multiset{handle} + multiset(queue[n..]);
  }

  // ---------- Every run as written ----------

  /** The most often a handle can be queued. Within its own slice a task is queued at most
      once, and only while running or ready; otherwise a ready task may be queued twice, a
      blocked one is not queued, and any other slot, a free one included, is left with at
      most one stale entry. */
  function Cap(s: Sched, h: int): nat
    requires 0 <= h < |s.tasks|
  {
    var t := s.tasks[h];
    if s.slice == h then (if t.inUse && (t.state == Running || t.state == Ready) then 1 else 0)
    else if t.inUse && t.state == Ready then 2
    else if t.inUse && t.state == Blocked then 0
    else 1
  }

  ghost predicate Shape(s: Sched) {
    && |s.tasks| == MAX_TASKS && |s.ready| <= MAX_TASKS
    && (s.slice == NO_TASK || 0 <= s.slice < MAX_TASKS)
    && (s.current == NO_TASK || s.current == s.slice)
    && (forall i :: 0 <= i < |s.ready| ==> 0 <= s.ready[i] < MAX_TASKS)
    && (forall h :: 0 <= h < |s.tasks| && s.tasks[h].inUse && s.tasks[h].state == Running ==> h == s.slice)
  }

  ghost predicate Capped(s: Sched) {
    forall h :: 0 <= h < |s.tasks| ==> multiset(s.ready)[h] <= Cap(s, h)
  }

  lemma RemoveKeepsRange(queue: seq<int>, handle: int)
    requires forall i :: 0 <= i < |queue| ==> 0 <= queue[i] < MAX_TASKS
    ensures |Remove(queue, handle)| <= |queue|
    ensures var r := Remove(queue, handle); forall i :: 0 <= i < |r| ==> 0 <= r[i] < MAX_TASKS
  {
  }

  lemma AddKeepsRange(tasks: seq<Task>, queue: seq<int>, handle: int)
    requires |tasks| == MAX_TASKS && |queue| <= MAX_TASKS
    requires forall i :: 0 <= i < |queue| ==> 0 <= queue[i] < MAX_TASKS
    ensures |Add(tasks, queue, handle)| <= MAX_TASKS
    ensures var r := Add(tasks, queue, handle); forall i :: 0 <= i < |r| ==> 0 <= r[i] < MAX_TASKS
  {
  }

  // A change of one task and of its entries in the queue.
  ghost predicate OnlyTouches(s: Sched, s': Sched, h: int) {
    && |s'.tasks| == |s.tasks|
    && (forall k :: 0 <= k < |s.tasks| && k != h ==> s'.tasks[k] == s.tasks[k])
    && (forall k :: k != h ==> multiset(s'.ready)[k] == multiset(s.ready)[k])
  }

  lemma TouchKeepsCapped(s: Sched, s': Sched, h: int)
    requires Capped(s) && OnlyTouches(s, s', h)
    requires s'.slice == s.slice || s'.slice == h || (s.slice == h && s'.slice == NO_TASK)
    requires s.slice == s'.slice || s.slice == h || s.slice == NO_TASK
    requires 0 <= h < |s.tasks| ==> multiset(s'.ready)[h] <= Cap(s', h)
    ensures Capped(s')
  {
  }

  lemma AddTouches(s: Sched, tasks: seq<Task>, queue: seq<int>, h: int)
    requires |tasks| == |s.tasks| == MAX_TASKS && 0 <= h < |tasks|
    requires forall k :: 0 <= k < |s.tasks| && k != h ==> tasks[k] == s.tasks[k]
    requires forall k :: k != h ==> multiset(queue)[k] == multiset(s.ready)[k]
    ensures OnlyTouches(s, s.(tasks := tasks, ready := Add(tasks, queue, h)), h)
    ensures multiset(Add(tasks, queue, h))[h] <= multiset(queue)[h] + 1
  {
    AddPutsAtMostOne(tasks, queue, h);
    hide Add;
  }

  lemma ReadyKeepsShape(s: Sched, queue: seq<int>, h: int)
    requires Shape(s) && 0 <= h < MAX_TASKS && |queue| <= MAX_TASKS
    requires forall i :: 0 <= i < |queue| ==> 0 <= queue[i] < MAX_TASKS
    ensures var tasks := SetState(s.tasks, h, Ready);
      Shape(s.(tasks := tasks, ready := Add(tasks, queue, h)))
  {
    hide Add;
    AddKeepsRange(SetState(s.tasks, h, Ready), queue, h);
  }

  lemma MakeReadyKeeps(s: Sched, h: int)
    requires Shape(s) && Capped(s) && Live(s.tasks, h)
    requires LiveIn(s.tasks, h, Inactive) || LiveIn(s.tasks, h, Suspended) || LiveIn(s.tasks, h, Blocked)
    ensures Shape(MakeReady(s, h)) && Capped(MakeReady(s, h))
  {
    hide Add;
    assert multiset(s.ready)[h] <= Cap(s, h);
    ReadyKeepsShape(s, s.ready, h);
    hide Shape, Capped;
    AddTouches(s, SetState(s.tasks, h, Ready), s.ready, h);
    hide OnlyTouches;
    TouchKeepsCapped(s, MakeReady(s, h), h);
  }

  lemma RequeueKeeps(s: Sched, h: int)
    requires Shape(s) && Capped(s)
    requires LiveIn(s.tasks, h, Ready) || (LiveIn(s.tasks, h, Running) && h == s.slice)
    ensures Shape(Requeue(s, h)) && Capped(Requeue(s, h))
  {
    hide Add, Remove;
    assert multiset(s.ready)[h] <= Cap(s, h);
    RemoveTakesOne(s.ready, h);
    RemoveKeepsRange(s.ready, h);
    ReadyKeepsShape(s, Remove(s.ready, h), h);
    hide Shape, Capped;
    AddTouches(s, SetState(s.tasks, h, Ready), Remove(s.ready, h), h);
    hide OnlyTouches;
    TouchKeepsCapped(s, Requeue(s, h), h);
  }

  lemma WithdrawKeepsShape(s: Sched, h: int, state: TaskState)
    requires Shape(s) && Live(s.tasks, h) && state != Running
    ensures Shape(Withdraw(s, h, state))
  {
    hide Remove;
    RemoveKeepsRange(s.ready, h);
  }

  lemma RemoveTouches(s: Sched, s': Sched, h: int)
    requires |s'.tasks| == |s.tasks| && s'.ready == Remove(s.ready, h)
    requires forall k :: 0 <= k < |s.tasks| && k != h ==> s'.tasks[k] == s.tasks[k]
    ensures OnlyTouches(s, s', h)
    ensures multiset(s'.ready)[h] <= multiset(s.ready)[h]
    ensures multiset(s.ready)[h] > 0 ==> multiset(s'.ready)[h] == multiset(s.ready)[h] - 1
  {
    RemoveTakesOne(s.ready, h);
    hide Remove;
  }

  lemma WithdrawKeeps(s: Sched, h: int, state: TaskState)
    requires Shape(s) && Capped(s) && Live(s.tasks, h)
    requires state == Suspended || (state == Blocked && h == s.slice)
    ensures Shape(Withdraw(s, h, state)) && Capped(Withdraw(s, h, state))
  {
    WithdrawKeepsShape(s, h, state);
    assert multiset(s.ready)[h] <= Cap(s, h);
    RemoveTouches(s, Withdraw(s, h, state), h);
    hide Remove, Shape, Capped, OnlyTouches;
    TouchKeepsCapped(s, Withdraw(s, h, state), h);
  }

  lemma DestroyKeepsShape(s: Sched, h: int)
    requires Shape(s)
    ensures Shape(DestroyTask(s, h))
  {
    hide Remove;
    RemoveKeepsRange(s.ready, h);
  }

  lemma DestroyKeeps(s: Sched, h: int)
    requires Shape(s) && Capped(s)
    ensures Shape(DestroyTask(s, h)) && Capped(DestroyTask(s, h))
  {
    DestroyKeepsShape(s, h);
    if Live(s.tasks, h) {
      assert multiset(s.ready)[h] <= Cap(s, h);
      RemoveTouches(s, DestroyTask(s, h), h);
      hide Remove, Shape, Capped, OnlyTouches;
      TouchKeepsCapped(s, DestroyTask(s, h), h);
    }
  }

  lemma CreateKeepsShape(s: Sched, priority: nat)
    requires Shape(s)
    ensures Shape(CreateTask(s, priority))
  {
  }

  lemma CreateKeeps(s: Sched, priority: nat)
    requires Shape(s) && Capped(s)
    ensures Shape(CreateTask(s, priority)) && Capped(CreateTask(s, priority))
  {
    CreateKeepsShape(s, priority);
    var n := FreeSlot(s.tasks);
    hide Shape, FreeSlot;
    if n < |s.tasks| {
      assert multiset(s.ready)[n] <= Cap(s, n);
      hide Capped;
      TouchKeepsCapped(s, CreateTask(s, priority), n);
    }
  }

  lemma ChangePriorityKeeps(s: Sched, h: int, priority: nat)
    requires Shape(s) && Capped(s)
    ensures Shape(ChangePriority(s, h, priority)) && Capped(ChangePriority(s, h, priority))
  {
    if Live(s.tasks, h) {
      var t := s.(tasks := s.tasks[h := s.tasks[h].(priority := priority)]);
      assert Shape(t) && Capped(t);
      if t.tasks[h].state == Ready {
        RequeueKeeps(t, h);
      }
    }
    hide Shape, Capped, Requeue;
  }

  lemma BeginRunKeeps(s: Sched)
    requires Shape(s) && Capped(s)
    ensures Shape(BeginRun(s)) && Capped(BeginRun(s))
  {
    hide Remove, Select;
    var next := Select(s.signed, s.tasks, s.ready, s.current);
    if s.slice < 0 && Live(s.tasks, next) {
      RemoveTakesOne(s.ready, next);
      RemoveKeepsRange(s.ready, next);
    }
  }

  lemma EndRunKeepsCapped(s: Sched)
    requires Shape(s) && Capped(s) && s.slice >= 0
    ensures Capped(EndRun(s))
  {
    hide Add;
    AddPutsAtMostOne(s.tasks, s.ready, s.slice);
    assert multiset(s.ready)[s.slice] <= Cap(s, s.slice);
    hide Capped;
    TouchKeepsCapped(s, EndRun(s), s.slice);
  }

  lemma EndRunKeeps(s: Sched)
    requires Shape(s) && Capped(s)
    ensures Shape(EndRun(s)) && Capped(EndRun(s))
  {
    hide Add, Capped;
    if s.slice >= 0 {
      AddKeepsRange(s.tasks, s.ready, s.slice);
      EndRunKeepsCapped(s);
    }
  }

  lemma TickKeeps(s: Sched, expired: bool)
    requires Shape(s) && Capped(s)
    ensures Shape(Step(s, Tick(expired))) && Capped(Step(s, Tick(expired)))
  {
    hide Requeue;
    if LiveIn(s.tasks, s.current, Running) {
      RequeueKeeps(s, s.current);
      RequeueKeepsSlice(s, s.current);
    }
  }

  lemma RequeueKeepsSlice(s: Sched, h: int)
    requires 0 <= h < |s.tasks|
    ensures Requeue(s, h).slice == s.slice && Requeue(s, h).current == s.current
  {
  }

  lemma WakeKeeps(s: Sched, op: Op)
    requires Shape(s) && Capped(s) && (op.Start? || op.Resume? || op.Unblock?)
    ensures Shape(Step(s, op)) && Capped(Step(s, op))
  {
    hide Shape, Capped, MakeReady;
    if LiveIn(s.tasks, op.handle, Inactive) || LiveIn(s.tasks, op.handle, Suspended) || LiveIn(s.tasks, op.handle, Blocked) {
      MakeReadyKeeps(s, op.handle);
    }
  }

  lemma LeaveKeeps(s: Sched, op: Op)
    requires Shape(s) && Capped(s) && (op.Suspend? || op.Block? || op.Yield?)
    ensures Shape(Step(s, op)) && Capped(Step(s, op))
  {
    assert s.current == NO_TASK || s.current == s.slice;
    hide Shape, Capped, Withdraw, Requeue;
    match op
    case Suspend(h) => if Live(s.tasks, h) { WithdrawKeeps(s, h, Suspended); }
    case Block => if Live(s.tasks, s.current) { WithdrawKeeps(s, s.current, Blocked); }
    case Yield => if LiveIn(s.tasks, s.current, Running) { RequeueKeeps(s, s.current); }
  }

  lemma StepKeeps(s: Sched, op: Op)
    requires Shape(s) && Capped(s)
    ensures Shape(Step(s, op)) && Capped(Step(s, op))
  {
    hide Shape, Capped, CreateTask, DestroyTask, ChangePriority, BeginRun, EndRun, Live, LiveIn;
    if op.Start? || op.Resume? || op.Unblock? {
      hide Step;
      WakeKeeps(s, op);
    } else if op.Suspend? || op.Block? || op.Yield? {
      hide Step;
      LeaveKeeps(s, op);
    } else {
      match op
      case Create(priority) => CreateKeeps(s, priority);
      case Destroy(h) => DestroyKeeps(s, h);
      case SetPriority(h, priority) => ChangePriorityKeeps(s, h, priority);
      case Tick(expired) => TickKeeps(s, expired);
      case RunBegin => BeginRunKeeps(s);
      case RunEnd => EndRunKeeps(s);
    }
  }

  lemma {:induction false} RunKeeps(signed: bool, ops: seq<Op>)
    ensures Shape(Run(Initial(signed), ops)) && Capped(Run(Initial(signed), ops))
    decreases |ops|
  {
    if ops != [] {
      RunKeeps(signed, ops[..|ops| - 1]);
      hide Shape, Capped, Step;
      StepKeeps(Run(Initial(signed), ops[..|ops| - 1]), ops[|ops| - 1]);
    }
  }

  /** In every run, whatever the tasks and their callers do: no handle is queued more than
      twice; it is queued at most once unless it is a ready task outside its own slice, and
      never while it is blocked; and the queue never outgrows its array. */
  lemma NeverQueuedMoreThanTwice(signed: bool, ops: seq<Op>, h: int)
    requires 0 <= h < MAX_TASKS
    ensures var s := Run(Initial(signed), ops);
      && |s.tasks| == MAX_TASKS && |s.ready| <= MAX_TASKS
      && multiset(s.ready)[h] <= 2
      && (!LiveIn(s.tasks, h, Ready) || h == s.slice ==> multiset(s.ready)[h] <= 1)
      && (LiveIn(s.tasks, h, Blocked) ==> multiset(s.ready)[h] == 0)
  {
    RunKeeps(signed, ops);
    hide Run;
  }
}
