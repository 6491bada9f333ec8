/** The runs in which no task ends its own slice ready: the queue holds exactly the ready
    tasks, by priority and then by the time they became ready, and nobody is passed over. */
module SchedulerFairness {
  import opened SchedulerModel
  import opened SchedulerTheorems

  // A scheduler with, for every slot, the step at which it was last queued.
  datatype Timed = Timed(s: Sched, since: seq<nat>, now: nat)

  /** The end of a slice whose task is ready by then: it is in the queue, and is put in again
      if there is room. */
  predicate QueuesTwice(s: Sched, op: Op) {
    op.RunEnd? && LiveIn(s.tasks, s.slice, Ready) && |s.ready| < MAX_TASKS
  }

  /** The task a step puts into the queue, or NO_TASK. */
  function Enqueued(s: Sched, op: Op): int {
    match op
    case Start(h) => if LiveIn(s.tasks, h, Inactive) || LiveIn(s.tasks, h, Suspended) then h else NO_TASK
    case Resume(h) => if LiveIn(s.tasks, h, Suspended) then h else NO_TASK
    case Unblock(h) => if LiveIn(s.tasks, h, Blocked) then h else NO_TASK
    case SetPriority(h, _) => if LiveIn(s.tasks, h, Ready) then h else NO_TASK
    case Yield => if LiveIn(s.tasks, s.current, Running) then s.current else NO_TASK
    case Tick(expired) => if expired && LiveIn(s.tasks, s.current, Running) then s.current else NO_TASK
    case RunEnd => if QueuesTwice(s, op) then s.slice else NO_TASK
    case _ => NO_TASK
  }

  function TimedStep(t: Timed, op: Op): Timed {
    var h := Enqueued(t.s, op);
    Timed(Step(t.s, op), if 0 <= h < |t.since| then t.since[h := t.now] else t.since, t.now + 1)
  }

  // ---------- Order in the queue ----------

  ghost predicate Before(tasks: seq<Task>, since: seq<nat>, a: int, b: int) {
    && 0 <= a < |tasks| && 0 <= b < |tasks| && a < |since| && b < |since|
    && (tasks[a].priority > tasks[b].priority
        || (tasks[a].priority == tasks[b].priority && since[a] < since[b]))
  }

  ghost predicate InOrder(tasks: seq<Task>, since: seq<nat>, queue: seq<int>) {
    forall i, j :: 0 <= i < j < |queue| ==> Before(tasks, since, queue[i], queue[j])
  }

  // The queued tasks are live, and were queued before now.
  ghost predicate QueuedBefore(tasks: seq<Task>, since: seq<nat>, now: nat, queue: seq<int>) {
    forall i :: 0 <= i < |queue| ==> Live(tasks, queue[i]) && queue[i] < |since| && since[queue[i]] < now
  }

  ghost predicate Exact(tasks: seq<Task>, queue: seq<int>) {
    forall h :: 0 <= h < |tasks| ==> (h in queue <==> tasks[h].inUse && tasks[h].state == Ready)
  }

  /** The queue holds exactly the ready tasks, each once, by priority and then by the time
      they were queued. */
  ghost predicate CleanQueue(tasks: seq<Task>, queue: seq<int>, since: seq<nat>, now: nat) {
    && |tasks| == |since| == MAX_TASKS
    && Exact(tasks, queue) && InOrder(tasks, since, queue) && QueuedBefore(tasks, since, now, queue)
  }

  ghost predicate Tidy(t: Timed) {
    CleanQueue(t.s.tasks, t.s.ready, t.since, t.now)
  }

  ghost predicate Clean(t: Timed) {
    Shape(t.s) && Capped(t.s) && Tidy(t)
  }

  lemma OrderedAreDistinct(tasks: seq<Task>, since: seq<nat>, queue: seq<int>, i: nat, j: nat)
    requires InOrder(tasks, since, queue) && i < j < |queue|
    ensures queue[i] != queue[j]
  {
    assert Before(tasks, since, queue[i], queue[j]);
  }

  lemma RemoveKeepsOrder(tasks: seq<Task>, since: seq<nat>, queue: seq<int>, h: int)
    requires InOrder(tasks, since, queue)
    ensures InOrder(tasks, since, Remove(queue, h))
  {
    var n, r := IndexIn(queue, h), Remove(queue, h);
    forall i, j | 0 <= i < j < |r|
      ensures Before(tasks, since, r[i], r[j])
    {
      if n < |queue| {
        assert r[i] == queue[if i < n then i else i + 1] && r[j] == queue[if j < n then j else j + 1];
      }
    }
  }

  lemma RemoveTakesOnlyOne(tasks: seq<Task>, since: seq<nat>, queue: seq<int>, h: int, k: int)
    requires InOrder(tasks, since, queue)
    ensures k in Remove(queue, h) <==> k in queue && k != h
  {
    var n, r := IndexIn(queue, h), Remove(queue, h);
    if n < |queue| {
      if k in queue && k != h {
        var i :| 0 <= i < |queue| && queue[i] == k;
        assert r[if i < n then i else i - 1] == k;
      }
      if k in r {
        var i :| 0 <= i < |r| && r[i] == k;
        var j := if i < n then i else i + 1;
        assert r[i] == queue[j];
        OrderedAreDistinct(tasks, since, queue, if j < n then j else n, if j < n then n else j);
      }
    } else {
      assert queue[..n] == queue;
    }
  }

  lemma RemoveFromOrdered(tasks: seq<Task>, since: seq<nat>, queue: seq<int>, h: int)
    requires InOrder(tasks, since, queue)
    ensures InOrder(tasks, since, Remove(queue, h))
    ensures forall k :: k in Remove(queue, h) <==> k in queue && k != h
  {
    RemoveKeepsOrder(tasks, since, queue, h);
    forall k
      ensures k in Remove(queue, h) <==> k in queue && k != h
    {
      RemoveTakesOnlyOne(tasks, since, queue, h, k);
    }
  }

  lemma RemoveKeepsQueued(tasks: seq<Task>, since: seq<nat>, now: nat, queue: seq<int>, h: int)
    requires QueuedBefore(tasks, since, now, queue)
    ensures QueuedBefore(tasks, since, now, Remove(queue, h))
  {
  }

  lemma NewcomerInOrder(tasks: seq<Task>, since: seq<nat>, now: nat, queue: seq<int>, h: int, i: nat)
    requires InOrder(tasks, since, queue) && QueuedBefore(tasks, since, now, queue)
    requires Live(tasks, h) && h < |since| && h !in queue && i < |queue|
    ensures var n, since' := InsertAt(tasks, queue, h), since[h := now];
      if i < n then Before(tasks, since', queue[i], h) else Before(tasks, since', h, queue[i])
  {
    var n := InsertAt(tasks, queue, h);
    assert queue[i] in queue;
    if i < n {
      assert !Outranks(tasks, h, queue[i]);
    } else {
      assert Outranks(tasks, h, queue[n]);
      if i > n {
        assert Before(tasks, since, queue[n], queue[i]);
      }
    }
  }

  lemma OthersInOrder(tasks: seq<Task>, since: seq<nat>, now: nat, queue: seq<int>, h: int, i: nat, j: nat)
    requires InOrder(tasks, since, queue) && h !in queue && 0 <= h < |since| && i < j < |queue|
    ensures Before(tasks, since[h := now], queue[i], queue[j])
  {
    assert queue[i] in queue && queue[j] in queue;
    assert Before(tasks, since, queue[i], queue[j]);
  }

  /** Stable insertion: behind every task of at least the same priority, before the rest. */
  lemma InsertIntoOrdered(tasks: seq<Task>, since: seq<nat>, now: nat, queue: seq<int>, h: int)
    requires InOrder(tasks, since, queue) && QueuedBefore(tasks, since, now, queue)
    requires Live(tasks, h) && h < |since| && h !in queue
    ensures var n := InsertAt(tasks, queue, h);
      InOrder(tasks, since[h := now], Insert(queue, n, h))
  {
    var n := InsertAt(tasks, queue, h);
    var r, since' := Insert(queue, n, h), since[h := now];
    forall i, j | 0 <= i < j < |r|
      ensures Before(tasks, since', r[i], r[j])
    {
      hide InOrder, QueuedBefore, InsertAt, Before;
      if i < n && j == n {
        NewcomerInOrder(tasks, since, now, queue, h, i);
      } else if i == n {
        NewcomerInOrder(tasks, since, now, queue, h, j - 1);
      } else {
        OthersInOrder(tasks, since, now, queue, h, if i < n then i else i - 1, if j < n then j else j - 1);
      }
    }
  }

  // ---------- The full-queue guard never drops a task ----------

  function Handles(n: nat): set<int> {
    if n == 0 then {} else Handles(n - 1) + {n - 1}
  }

  lemma {:induction false} HandlesCount(n: nat)
    ensures |Handles(n)| == n
    ensures forall h :: h in Handles(n) <==> 0 <= h < n
  {
    if n > 0 {
      HandlesCount(n - 1);
    }
  }

  function Elements(queue: seq<int>): set<int> {
    set h | h in queue
  }

  lemma {:induction false} DistinctCount(tasks: seq<Task>, since: seq<nat>, queue: seq<int>)
    requires InOrder(tasks, since, queue)
    ensures |Elements(queue)| == |queue|
  {
    if queue != [] {
      var rest := queue[1..];
      DistinctCount(tasks, since, rest);
      forall i | 0 <= i < |rest|
        ensures rest[i] != queue[0]
      {
        OrderedAreDistinct(tasks, since, queue, 0, i + 1);
      }
      hide InOrder;
      assert Elements(queue) == Elements(rest) + {queue[0]};
    }
  }

  lemma SubsetCount(a: set<int>, b: set<int>)
    requires a <= b
    ensures |a| <= |b|
  {
    assert b == a + (b - a);
  }

  /** A queue that misses one task has room for it. */
  lemma RoomForOneMore(tasks: seq<Task>, since: seq<nat>, queue: seq<int>, h: int)
    requires InOrder(tasks, since, queue) && 0 <= h < MAX_TASKS && h !in queue
    requires forall i :: 0 <= i < |queue| ==> 0 <= queue[i] < MAX_TASKS
    ensures |queue| < MAX_TASKS
  {
    DistinctCount(tasks, since, queue);
    HandlesCount(MAX_TASKS);
    SubsetCount(Elements(queue) + {h}, Handles(MAX_TASKS));
  }

  // ---------- Every step keeps the queue clean ----------

  lemma InsertMembers(queue: seq<int>, n: nat, h: int)
    requires n <= |queue|
    ensures forall k :: k in Insert(queue, n, h) <==> k in queue || k == h
  {
    assert queue == queue[..n] + queue[n..];
  }

  /** Queueing a ready task that is not in the queue. */
  lemma EnqueueKeepsClean(t: Timed, tasks: seq<Task>, queue: seq<int>, h: int)
    requires |tasks| == |t.since| == MAX_TASKS && LiveIn(tasks, h, Ready) && h !in queue
    requires InOrder(tasks, t.since, queue) && QueuedBefore(tasks, t.since, t.now, queue)
    requires forall k :: 0 <= k < MAX_TASKS && k != h ==> (k in queue <==> tasks[k].inUse && tasks[k].state == Ready)
    ensures var q := Add(tasks, queue, h);
      && InOrder(tasks, t.since[h := t.now], q)
      && QueuedBefore(tasks, t.since[h := t.now], t.now + 1, q)
      && Exact(tasks, q)
  {
    assert forall i :: 0 <= i < |queue| ==> 0 <= queue[i] < MAX_TASKS;
    hide InOrder, QueuedBefore, InsertAt, Insert, Exact;
    RoomForOneMore(tasks, t.since, queue, h);
    InsertIntoOrdered(tasks, t.since, t.now, queue, h);
    var n := InsertAt(tasks, queue, h);
    var q := Insert(queue, n, h);
    InsertMembers(queue, n, h);
    QueuedWithNew(tasks, t.since, t.now, queue, q, h);
    assert Exact(tasks, q) by { ExactWithNew(tasks, queue, q, h); }
  }

  lemma ExactWithNew(tasks: seq<Task>, queue: seq<int>, q: seq<int>, h: int)
    requires |tasks| == MAX_TASKS && LiveIn(tasks, h, Ready)
    requires forall k :: k in q <==> k in queue || k == h
    requires forall k :: 0 <= k < MAX_TASKS && k != h ==> (k in queue <==> tasks[k].inUse && tasks[k].state == Ready)
    ensures Exact(tasks, q)
  {
  }

  lemma QueuedWithNew(tasks: seq<Task>, since: seq<nat>, now: nat, queue: seq<int>, q: seq<int>, h: int)
    requires QueuedBefore(tasks, since, now, queue) && Live(tasks, h) && h < |since|
    requires forall k :: k in q ==> k in queue || k == h
    ensures QueuedBefore(tasks, since[h := now], now + 1, q)
  {
    forall i | 0 <= i < |q|
      ensures Live(tasks, q[i]) && q[i] < |since| && since[h := now][q[i]] < now + 1
    {
      assert q[i] in q;
      if q[i] != h {
        assert q[i] in queue;
        var j :| 0 <= j < |queue| && queue[j] == q[i];
      }
    }
  }

  // Changing a task that is not queued, or its state, leaves the order alone.
  lemma OrderSurvives(tasks: seq<Task>, tasks': seq<Task>, since: seq<nat>, now: nat, queue: seq<int>, h: int)
    requires InOrder(tasks, since, queue) && QueuedBefore(tasks, since, now, queue)
    requires |tasks'| == |tasks| && h !in queue
    requires forall k :: 0 <= k < |tasks| && k != h ==> tasks'[k] == tasks[k]
    ensures InOrder(tasks', since, queue) && QueuedBefore(tasks', since, now + 1, queue)
    ensures QueuedBefore(tasks', since, now, queue)
  {
    forall i | 0 <= i < |queue|
      ensures queue[i] in queue && queue[i] != h
    {
    }
  }

  ghost predicate DifferAt(tasks: seq<Task>, tasks': seq<Task>, h: int) {
    |tasks'| == |tasks| && forall k :: 0 <= k < |tasks| && k != h ==> tasks'[k] == tasks[k]
  }

  /** A task that is not ready any more leaves the queue. */
  lemma LeaveQueue(tasks: seq<Task>, tasks': seq<Task>, queue: seq<int>, since: seq<nat>, now: nat, h: int)
    requires CleanQueue(tasks, queue, since, now) && DifferAt(tasks, tasks', h) && 0 <= h < MAX_TASKS
    requires !LiveIn(tasks', h, Ready)
    ensures CleanQueue(tasks', Remove(queue, h), since, now + 1)
  {
    hide InOrder, QueuedBefore, Remove;
    RemoveFromOrdered(tasks, since, queue, h);
    RemoveKeepsQueued(tasks, since, now, queue, h);
    OrderSurvives(tasks, tasks', since, now, Remove(queue, h), h);
  }

  /** A ready task goes to the place its priority and the present time give it. */
  lemma EnterQueue(tasks: seq<Task>, tasks': seq<Task>, queue: seq<int>, since: seq<nat>, now: nat, h: int, t: Timed)
    requires CleanQueue(tasks, queue, since, now) && DifferAt(tasks, tasks', h)
    requires LiveIn(tasks', h, Ready) && t.since == since && t.now == now
    ensures CleanQueue(tasks', Add(tasks', Remove(queue, h), h), since[h := now], now + 1)
  {
    hide InOrder, QueuedBefore, Remove, Add;
    RemoveFromOrdered(tasks, since, queue, h);
    RemoveKeepsQueued(tasks, since, now, queue, h);
    OrderSurvives(tasks, tasks', since, now, Remove(queue, h), h);
    EnqueueKeepsClean(t, tasks', Remove(queue, h), h);
  }

  lemma RemoveAbsent(queue: seq<int>, h: int)
    requires h !in queue
    ensures Remove(queue, h) == queue
  {
  }

  lemma TimePasses(tasks: seq<Task>, queue: seq<int>, since: seq<nat>, now: nat)
    requires CleanQueue(tasks, queue, since, now)
    ensures CleanQueue(tasks, queue, since, now + 1)
  {
  }

  // ---------- Clean runs ----------

  lemma WaitingIsTidy(t: Timed)
    requires Tidy(t)
    ensures Tidy(t.(now := t.now + 1))
  {
    TimePasses(t.s.tasks, t.s.ready, t.since, t.now);
  }

  lemma MakeReadyIsTidy(t: Timed, h: int)
    requires Tidy(t) && Live(t.s.tasks, h) && !LiveIn(t.s.tasks, h, Ready)
    ensures Tidy(Timed(MakeReady(t.s, h), t.since[h := t.now], t.now + 1))
  {
    RemoveAbsent(t.s.ready, h);
    hide CleanQueue, Remove, Add;
    EnterQueue(t.s.tasks, SetState(t.s.tasks, h, Ready), t.s.ready, t.since, t.now, h, t);
  }

  lemma RequeueIsTidy(t: Timed, h: int)
    requires Tidy(t) && Live(t.s.tasks, h)
    ensures Tidy(Timed(Requeue(t.s, h), t.since[h := t.now], t.now + 1))
  {
    hide CleanQueue, Remove, Add;
    EnterQueue(t.s.tasks, SetState(t.s.tasks, h, Ready), t.s.ready, t.since, t.now, h, t);
  }

  lemma WithdrawIsTidy(t: Timed, h: int, state: TaskState)
    requires Tidy(t) && Live(t.s.tasks, h) && state != Ready
    ensures Tidy(Timed(Withdraw(t.s, h, state), t.since, t.now + 1))
  {
    assert |t.s.tasks| == MAX_TASKS;
    hide CleanQueue, Remove;
    LeaveQueue(t.s.tasks, SetState(t.s.tasks, h, state), t.s.ready, t.since, t.now, h);
  }

  lemma BeginRunIsTidy(t: Timed)
    requires Tidy(t)
    ensures Tidy(TimedStep(t, RunBegin))
  {
    hide Select, CleanQueue, Remove;
    WaitingIsTidy(t);
    var next := Select(t.s.signed, t.s.tasks, t.s.ready, t.s.current);
    if t.s.slice < 0 && Live(t.s.tasks, next) {
      WithdrawIsTidy(t, next, Running);
    }
  }

  lemma EndRunIsTidy(t: Timed)
    requires Tidy(t) && !QueuesTwice(t.s, RunEnd)
    ensures Tidy(TimedStep(t, RunEnd))
  {
    var s := t.s;
    WaitingIsTidy(t);
    if 0 <= s.slice < |s.tasks| && s.tasks[s.slice].state == Running {
      assert s.slice !in s.ready;
      RemoveAbsent(s.ready, s.slice);
      hide CleanQueue, Remove;
      LeaveQueue(s.tasks, SetState(s.tasks, s.slice, Terminated), s.ready, t.since, t.now, s.slice);
    }
  }

  lemma PriorityStep(t: Timed, h: int, priority: nat)
    requires LiveIn(t.s.tasks, h, Ready) && |t.since| == |t.s.tasks|
    ensures var changed := t.s.tasks[h := t.s.tasks[h].(priority := priority)];
      var t' := TimedStep(t, SetPriority(h, priority));
      && t'.s.tasks == changed && t'.s.ready == Add(changed, Remove(t.s.ready, h), h)
      && t'.since == t.since[h := t.now] && t'.now == t.now + 1
  {
    hide Add, Remove;
    var changed := t.s.tasks[h := t.s.tasks[h].(priority := priority)];
    assert SetState(changed, h, Ready) == changed;
  }

  lemma PriorityOfReadyIsTidy(t: Timed, h: int, priority: nat)
    requires Tidy(t) && LiveIn(t.s.tasks, h, Ready)
    ensures Tidy(TimedStep(t, SetPriority(h, priority)))
  {
    PriorityStep(t, h, priority);
    hide CleanQueue, Remove, Add, TimedStep;
    EnterQueue(t.s.tasks, t.s.tasks[h := t.s.tasks[h].(priority := priority)], t.s.ready, t.since, t.now, h, t);
  }

  lemma PriorityOfOtherIsTidy(t: Timed, h: int, priority: nat)
    requires Tidy(t) && !LiveIn(t.s.tasks, h, Ready)
    ensures Tidy(TimedStep(t, SetPriority(h, priority)))
  {
    WaitingIsTidy(t);
    if Live(t.s.tasks, h) {
      var changed := t.s.tasks[h := t.s.tasks[h].(priority := priority)];
      RemoveAbsent(t.s.ready, h);
      hide CleanQueue, Remove, Add;
      LeaveQueue(t.s.tasks, changed, t.s.ready, t.since, t.now, h);
    }
  }

  lemma CreateIsTidy(t: Timed, priority: nat)
    requires Tidy(t)
    ensures Tidy(TimedStep(t, Create(priority)))
  {
    WaitingIsTidy(t);
    var n := FreeSlot(t.s.tasks);
    if n < |t.s.tasks| {
      RemoveAbsent(t.s.ready, n);
      hide CleanQueue, Remove;
      LeaveQueue(t.s.tasks, CreateTask(t.s, priority).tasks, t.s.ready, t.since, t.now, n);
    }
  }

  lemma DestroyIsTidy(t: Timed, h: int)
    requires Tidy(t)
    ensures Tidy(TimedStep(t, Destroy(h)))
  {
    assert |t.s.tasks| == MAX_TASKS;
    hide CleanQueue, Remove;
    WaitingIsTidy(t);
    if Live(t.s.tasks, h) {
      LeaveQueue(t.s.tasks, DestroyTask(t.s, h).tasks, t.s.ready, t.since, t.now, h);
    }
  }

  lemma WakeIsTidy(t: Timed, op: Op)
    requires Tidy(t) && (op.Start? || op.Resume? || op.Unblock?)
    ensures Tidy(TimedStep(t, op))
  {
    WaitingIsTidy(t);
    var h := Enqueued(t.s, op);
    if h != NO_TASK {
      MakeReadyIsTidy(t, h);
      hide Tidy;
      WakeIsMakeReady(t, op);
    } else {
      hide Tidy;
      IdleStep(t, op);
    }
  }

  lemma WakeIsMakeReady(t: Timed, op: Op)
    requires |t.since| == |t.s.tasks|
    requires (op.Start? || op.Resume? || op.Unblock?) && Enqueued(t.s, op) != NO_TASK
    ensures var h := Enqueued(t.s, op);
      TimedStep(t, op) == Timed(MakeReady(t.s, h), t.since[h := t.now], t.now + 1)
  {
    hide MakeReady;
  }

  lemma IdleStep(t: Timed, op: Op)
    requires op.Start? || op.Resume? || op.Unblock? || op.Yield? || op.Tick?
    requires Enqueued(t.s, op) == NO_TASK
    ensures TimedStep(t, op) == t.(now := t.now + 1)
  {
    hide MakeReady, Requeue;
  }

  lemma RotateIsRequeue(t: Timed, op: Op)
    requires |t.since| == |t.s.tasks|
    requires (op.Yield? || op.Tick?) && Enqueued(t.s, op) != NO_TASK
    ensures var h, t' := t.s.current, TimedStep(t, op);
      && t'.s.tasks == Requeue(t.s, h).tasks && t'.s.ready == Requeue(t.s, h).ready
      && t'.since == t.since[h := t.now] && t'.now == t.now + 1
  {
    hide Requeue;
  }

  lemma RotateIsTidy(t: Timed, op: Op)
    requires Tidy(t) && (op.Yield? || op.Tick?)
    ensures Tidy(TimedStep(t, op))
  {
    WaitingIsTidy(t);
    if Enqueued(t.s, op) != NO_TASK {
      RequeueIsTidy(t, t.s.current);
      RotateIsRequeue(t, op);
      hide CleanQueue, Requeue, TimedStep;
    } else {
      hide Tidy;
      IdleStep(t, op);
    }
  }

  lemma StopIsTidy(t: Timed, op: Op)
    requires Tidy(t) && (op.Suspend? || op.Block?)
    ensures Tidy(TimedStep(t, op))
  {
    hide CleanQueue, Withdraw;
    WaitingIsTidy(t);
    match op
    case Suspend(h) => if Live(t.s.tasks, h) { WithdrawIsTidy(t, h, Suspended); }
    case Block => if Live(t.s.tasks, t.s.current) { WithdrawIsTidy(t, t.s.current, Blocked); }
  }

  lemma StepCleans(t: Timed, op: Op)
    requires Clean(t) && !QueuesTwice(t.s, op)
    ensures Clean(TimedStep(t, op))
  {
    StepKeeps(t.s, op);
    assert TimedStep(t, op).s == Step(t.s, op);
    hide Shape, Capped, Tidy, TimedStep, Step;
    match op
    case Create(priority) => CreateIsTidy(t, priority);
    case Destroy(h) => DestroyIsTidy(t, h);
    case SetPriority(h, priority) =>
      if LiveIn(t.s.tasks, h, Ready) { PriorityOfReadyIsTidy(t, h, priority); }
      else { PriorityOfOtherIsTidy(t, h, priority); }
    case Start(_) => WakeIsTidy(t, op);
    case Resume(_) => WakeIsTidy(t, op);
    case Unblock(_) => WakeIsTidy(t, op);
    case Yield => RotateIsTidy(t, op);
    case Tick(_) => RotateIsTidy(t, op);
    case Suspend(_) => StopIsTidy(t, op);
    case Block => StopIsTidy(t, op);
    case RunBegin => BeginRunIsTidy(t);
    case RunEnd => EndRunIsTidy(t);
  }

  lemma EndRunReady(s: Sched)
    requires LiveIn(s.tasks, s.slice, Ready)
    ensures Step(s, RunEnd).ready == Add(s.tasks, s.ready, s.slice)
  {
  }

  lemma ReadyIsQueued(t: Timed, h: int)
    requires Clean(t) && LiveIn(t.s.tasks, h, Ready)
    ensures multiset(t.s.ready)[h] >= 1
  {
    assert h in t.s.ready;
  }

  lemma QueuesAgain(t: Timed, op: Op)
    requires Clean(t) && QueuesTwice(t.s, op)
    ensures multiset(Step(t.s, op).ready)[t.s.slice] >= 2
  {
    ReadyIsQueued(t, t.s.slice);
    hide Clean;
    EndRunReady(t.s);
    AddPutsAtMostOne(t.s.tasks, t.s.ready, t.s.slice);
    hide Step, Add;
  }

  /** A step leaves the queue clean exactly when it does not queue a task a second time. */
  lemma StepKeepsCleanIff(t: Timed, op: Op)
    requires Clean(t)
    ensures Clean(TimedStep(t, op)) <==> !QueuesTwice(t.s, op)
  {
    if QueuesTwice(t.s, op) {
      QueuesAgain(t, op);
      assert TimedStep(t, op).s == Step(t.s, op);
      hide Clean, Step, TimedStep, QueuesTwice;
      CleanHoldsOnce(TimedStep(t, op), t.s.slice);
    } else {
      StepCleans(t, op);
    }
  }

  lemma CleanHoldsOnce(t: Timed, h: int)
    ensures Clean(t) ==> multiset(t.s.ready)[h] <= 1
  {
    if Clean(t) {
      assert InOrder(t.s.tasks, t.since, t.s.ready);
      OrderedCount(t.s.tasks, t.since, t.s.ready, h);
    }
  }

  lemma OrderedCount(tasks: seq<Task>, since: seq<nat>, queue: seq<int>, h: int)
    requires InOrder(tasks, since, queue)
    ensures multiset(queue)[h] <= 1
  {
    RemoveTakesOnlyOne(tasks, since, queue, h, h);
    RemoveTakesOne(queue, h);
    hide Remove, InOrder;
    assert h !in multiset(Remove(queue, h));
  }

  function TimedRun(t: Timed, ops: seq<Op>): Timed
    decreases |ops|
  {
    if ops == [] then t else TimedStep(TimedRun(t, ops[..|ops| - 1]), ops[|ops| - 1])
  }

  predicate CleanRun(t: Timed, ops: seq<Op>)
    decreases |ops|
  {
    ops == [] ||
    (CleanRun(t, ops[..|ops| - 1]) && !QueuesTwice(TimedRun(t, ops[..|ops| - 1]).s, ops[|ops| - 1]))
  }

  lemma {:induction false} RunCleans(t: Timed, ops: seq<Op>)
    requires Clean(t) && CleanRun(t, ops)
    ensures Clean(TimedRun(t, ops))
    decreases |ops|
  {
    if ops != [] {
      hide Clean, TimedStep, QueuesTwice;
      RunCleans(t, ops[..|ops| - 1]);
      StepCleans(TimedRun(t, ops[..|ops| - 1]), ops[|ops| - 1]);
    }
  }

  lemma {:induction false} TimingIsExtra(t: Timed, ops: seq<Op>)
    ensures TimedRun(t, ops).s == Run(t.s, ops)
    decreases |ops|
  {
    if ops != [] {
      TimingIsExtra(t, ops[..|ops| - 1]);
    }
  }

  function Power(signed: bool): Timed {
    Timed(Initial(signed), seq(MAX_TASKS, _ => 0), 0)
  }

  lemma PowerIsClean(signed: bool)
    ensures Clean(Power(signed))
  {
  }

  ghost predicate CleanThroughout(t: Timed, ops: seq<Op>)
    decreases |ops|
  {
    Clean(TimedRun(t, ops)) && (ops == [] || CleanThroughout(t, ops[..|ops| - 1]))
  }

  /** A run from power-up has a clean queue throughout exactly when no task is queued while it
      is in the queue already. */
  lemma {:induction false} RunIsCleanIff(signed: bool, ops: seq<Op>)
    ensures CleanRun(Power(signed), ops) <==> CleanThroughout(Power(signed), ops)
    decreases |ops|
  {
    PowerIsClean(signed);
    hide Clean, Power, QueuesTwice, TimedStep;
    if ops != [] {
      var most := ops[..|ops| - 1];
      RunIsCleanIff(signed, most);
      if CleanRun(Power(signed), most) {
        RunCleans(Power(signed), most);
        StepKeepsCleanIff(TimedRun(Power(signed), most), ops[|ops| - 1]);
      }
    }
  }

  /** In such a run the queue is free of duplicates, sorted by falling priority, and holds
      exactly the ready tasks; and the guard for a full queue has never dropped one. */
  lemma CleanRunsQueueExactlyTheReady(signed: bool, ops: seq<Op>)
    requires CleanRun(Power(signed), ops)
    ensures var s := Run(Initial(signed), ops);
      && |s.tasks| == MAX_TASKS
      && (forall h :: 0 <= h < MAX_TASKS ==> (h in s.ready <==> LiveIn(s.tasks, h, Ready)))
      && (forall i :: 0 <= i < |s.ready| ==> Live(s.tasks, s.ready[i]))
      && (forall i, j :: 0 <= i < j < |s.ready| ==>
            s.ready[i] != s.ready[j] && s.tasks[s.ready[i]].priority >= s.tasks[s.ready[j]].priority)
  {
    PowerIsClean(signed);
    RunCleans(Power(signed), ops);
    TimingIsExtra(Power(signed), ops);
    hide Run, TimedRun, CleanRun;
    var t := TimedRun(Power(signed), ops);
    forall i, j | 0 <= i < j < |t.s.ready|
      ensures t.s.ready[i] != t.s.ready[j] && Before(t.s.tasks, t.since, t.s.ready[i], t.s.ready[j])
    {
      OrderedAreDistinct(t.s.tasks, t.since, t.s.ready, i, j);
    }
  }

  // ---------- Who is dispatched ----------

  // The position of the first live queued task of the highest priority.
  ghost predicate FirstOfBest(tasks: seq<Task>, queue: seq<int>, i: nat) {
    && i < |queue| && Live(tasks, queue[i])
    && (forall j :: 0 <= j < |queue| && Live(tasks, queue[j]) ==> tasks[queue[j]].priority <= tasks[queue[i]].priority)
    && (forall j :: 0 <= j < i && Live(tasks, queue[j]) ==> tasks[queue[j]].priority < tasks[queue[i]].priority)
  }

  /** Between two cycles the scans agree on the first queued task of the highest priority, in
      every run, if priorities compare as signed numbers. */
  lemma SelectIsFirstOfBest(s: Sched)
    requires s.signed && s.current == NO_TASK
    ensures var h := Select(s.signed, s.tasks, s.ready, s.current);
      if h == NO_TASK then forall i :: 0 <= i < |s.ready| ==> !Live(s.tasks, s.ready[i])
      else exists i :: 0 <= i < |s.ready| && s.ready[i] == h && FirstOfBest(s.tasks, s.ready, i)
  {
    var best := Best(s.signed, s.tasks, s.ready);
    if best >= 0 {
      var first := FirstRanked(s.tasks, s.ready, best, 0);
      hide IndexIn, FirstRanked, Best;
      assert first < |s.ready|;
      assert !Live(s.tasks, s.current);
      assert Select(s.signed, s.tasks, s.ready, s.current) == s.ready[first];
      assert forall j :: 0 <= j < first && Live(s.tasks, s.ready[j]) ==> !Ranks(s.tasks, s.ready[j], best);
    }
  }

  /** In a clean state the next cycle runs the head of the queue: no ready task has a higher
      priority, and of those with its priority it has been waiting the longest. */
  lemma DispatchesLongestWaiting(t: Timed)
    requires Clean(t) && t.s.slice == NO_TASK && t.s.signed
    ensures var s' := BeginRun(t.s);
      if t.s.ready == [] then s' == t.s
      else var h := t.s.ready[0];
        && LiveIn(t.s.tasks, h, Ready)
        && s'.slice == s'.current == h && s'.ready == t.s.ready[1..] && LiveIn(s'.tasks, h, Running)
        && (forall k :: LiveIn(t.s.tasks, k, Ready) && k != h ==> Before(t.s.tasks, t.since, h, k))
  {
    if t.s.ready == [] {
      return;
    }
    SelectsHead(t);
    assert t.s.ready[0] in t.s.ready;
    HeadIsBeforeAll(t);
    RemoveHead(t.s.ready);
    hide InOrder, Select, Remove;
  }

  lemma SelectsHead(t: Timed)
    requires Clean(t) && t.s.ready != [] && t.s.current == NO_TASK && t.s.signed
    ensures Select(t.s.signed, t.s.tasks, t.s.ready, t.s.current) == t.s.ready[0]
  {
    var s := t.s;
    SelectIsFirstOfBest(s);
    assert forall j :: 0 < j < |s.ready| ==> Before(s.tasks, t.since, s.ready[0], s.ready[j]);
    hide Select;
    assert Live(s.tasks, s.ready[0]);
    var next := Select(s.signed, s.tasks, s.ready, s.current);
    assert next != NO_TASK;
    var i :| 0 <= i < |s.ready| && s.ready[i] == next && FirstOfBest(s.tasks, s.ready, i);
  }

  lemma RemoveHead(queue: seq<int>)
    requires queue != []
    ensures Remove(queue, queue[0]) == queue[1..]
  {
  }

  lemma HeadIsBeforeAll(t: Timed)
    requires Clean(t) && t.s.ready != []
    ensures forall k :: LiveIn(t.s.tasks, k, Ready) && k != t.s.ready[0] ==> Before(t.s.tasks, t.since, t.s.ready[0], k)
  {
    forall k | LiveIn(t.s.tasks, k, Ready) && k != t.s.ready[0]
      ensures Before(t.s.tasks, t.since, t.s.ready[0], k)
    {
      assert k in t.s.ready;
      var i :| 0 <= i < |t.s.ready| && t.s.ready[i] == k;
    }
  }

  // ---------- How long a task waits ----------

  /** The ready tasks that go before this one. */
  ghost function Ahead(t: Timed, h: int): set<int> {
    set k | 0 <= k < |t.s.tasks| && LiveIn(t.s.tasks, k, Ready) && Before(t.s.tasks, t.since, k, h)
  }

  /** They are the tasks in front of it in the queue. */
  lemma AheadIsInFront(t: Timed, i: nat)
    requires Clean(t) && i < |t.s.ready|
    ensures Ahead(t, t.s.ready[i]) == Elements(t.s.ready[..i])
    ensures |Ahead(t, t.s.ready[i])| == i
  {
    var queue := t.s.ready;
    assert forall j :: i < j < |queue| ==> Before(t.s.tasks, t.since, queue[i], queue[j]);
    assert forall j :: 0 <= j < i ==> Before(t.s.tasks, t.since, queue[j], queue[i]);
    forall k
      ensures k in Ahead(t, queue[i]) <==> k in queue[..i]
    {
      assert k in queue[..i] ==> k in queue;
      if k in Ahead(t, queue[i]) {
        assert k in queue;
        var j :| 0 <= j < |queue| && queue[j] == k;
        assert j < i;
      }
    }
    DistinctCount(t.s.tasks, t.since, queue[..i]);
  }

  /** Nothing becomes ready in a step but the task the step queues. */
  lemma ReadyBefore(s: Sched, op: Op, k: int)
    requires LiveIn(Step(s, op).tasks, k, Ready) && k != Enqueued(s, op)
    ensures LiveIn(s.tasks, k, Ready) && Step(s, op).tasks[k] == s.tasks[k]
  {
    hide Add, Remove, Select, QueuesTwice;
  }

  /** A task waits through a step: it is ready before and after, it is not queued anew, and the
      task that is queued, if any, is not of a strictly higher priority. */
  predicate WaitsThrough(s: Sched, op: Op, h: int) {
    var k, tasks := Enqueued(s, op), Step(s, op).tasks;
    LiveIn(s.tasks, h, Ready) && LiveIn(tasks, h, Ready) && k != h && !Outranks(tasks, k, h)
  }

  lemma NobodyPasses(t: Timed, op: Op, h: int, k: int)
    requires Clean(t) && WaitsThrough(t.s, op, h) && !QueuesTwice(t.s, op)
    requires k in Ahead(TimedStep(t, op), h)
    ensures k in Ahead(t, h)
  {
    assert |t.since| == |t.s.tasks| == MAX_TASKS;
    assert t.since[h] < t.now by {
      assert h in t.s.ready;
      var i :| 0 <= i < |t.s.ready| && t.s.ready[i] == h;
    }
    hide Clean, QueuesTwice;
    ReadyBefore(t.s, op, h);
    if k != Enqueued(t.s, op) {
      ReadyBefore(t.s, op, k);
    }
    hide Step, Enqueued;
  }

  /** While a task waits nobody gets in front of it, and each dispatch takes one away. */
  lemma WaitShrinks(t: Timed, op: Op, h: int)
    requires t.s.signed && Clean(t) && WaitsThrough(t.s, op, h) && !QueuesTwice(t.s, op)
    ensures Ahead(TimedStep(t, op), h) <= Ahead(t, h)
    ensures |Ahead(TimedStep(t, op), h)| + Dispatched(t.s, op) <= |Ahead(t, h)|
  {
    forall k | k in Ahead(TimedStep(t, op), h)
      ensures k in Ahead(t, h)
    {
      NobodyPasses(t, op, h, k);
    }
    if Dispatched(t.s, op) == 1 {
      DispatchTakesOneAhead(t, h);
    } else {
      hide Clean, Ahead, TimedStep;
      SubsetCount(Ahead(TimedStep(t, op), h), Ahead(t, h));
    }
  }

  lemma DispatchTakesOneAhead(t: Timed, h: int)
    requires t.s.signed && Clean(t) && t.s.slice == NO_TASK && WaitsThrough(t.s, RunBegin, h)
    requires Ahead(TimedStep(t, RunBegin), h) <= Ahead(t, h)
    ensures |Ahead(TimedStep(t, RunBegin), h)| < |Ahead(t, h)|
  {
    HeadIsAhead(t, h);
    var head := t.s.ready[0];
    hide Clean, WaitsThrough, Ahead, TimedStep;
    SubsetCount(Ahead(TimedStep(t, RunBegin), h) + {head}, Ahead(t, h));
  }

  lemma HeadIsAhead(t: Timed, h: int)
    requires t.s.signed && Clean(t) && t.s.slice == NO_TASK && WaitsThrough(t.s, RunBegin, h)
    ensures t.s.ready != []
    ensures t.s.ready[0] in Ahead(t, h) && t.s.ready[0] !in Ahead(TimedStep(t, RunBegin), h)
  {
    assert LiveIn(t.s.tasks, h, Ready) && LiveIn(BeginRun(t.s).tasks, h, Ready);
    assert TimedStep(t, RunBegin).s == BeginRun(t.s);
    assert h in t.s.ready;
    DispatchesLongestWaiting(t);
    hide Clean, BeginRun, Before, TimedStep, WaitsThrough;
  }

  /** Whether the step begins a cycle. */
  function Dispatched(s: Sched, op: Op): nat {
    if op.RunBegin? && s.slice == NO_TASK then 1 else 0
  }

  function Dispatches(t: Timed, ops: seq<Op>): nat
    decreases |ops|
  {
    if ops == [] then 0
    else Dispatches(t, ops[..|ops| - 1]) + Dispatched(TimedRun(t, ops[..|ops| - 1]).s, ops[|ops| - 1])
  }

  predicate WaitsThroughAll(t: Timed, ops: seq<Op>, h: int)
    decreases |ops|
  {
    ops == [] ||
    (WaitsThroughAll(t, ops[..|ops| - 1], h) && WaitsThrough(TimedRun(t, ops[..|ops| - 1]).s, ops[|ops| - 1], h))
  }

  lemma StepKeepsComparison(s: Sched, op: Op)
    ensures Step(s, op).signed == s.signed
  {
    hide Add, Remove, Select;
  }

  lemma {:induction false} RunKeepsComparison(t: Timed, ops: seq<Op>)
    ensures TimedRun(t, ops).s.signed == t.s.signed
    decreases |ops|
  {
    if ops != [] {
      RunKeepsComparison(t, ops[..|ops| - 1]);
      StepKeepsComparison(TimedRun(t, ops[..|ops| - 1]).s, ops[|ops| - 1]);
      hide Step;
    }
  }

  /** No starvation: a task with n ready tasks ahead of it can wait through at most n cycles,
      unless a task of a strictly higher priority becomes ready. */
  lemma {:induction false} WaitIsBounded(t: Timed, ops: seq<Op>, h: int)
    requires t.s.signed && Clean(t) && CleanRun(t, ops) && WaitsThroughAll(t, ops, h)
    ensures |Ahead(TimedRun(t, ops), h)| + Dispatches(t, ops) <= |Ahead(t, h)|
    decreases |ops|
  {
    if ops != [] {
      hide Clean, TimedStep, QueuesTwice, WaitsThrough, Ahead, Dispatched;
      WaitIsBounded(t, ops[..|ops| - 1], h);
      RunCleans(t, ops[..|ops| - 1]);
      RunKeepsComparison(t, ops[..|ops| - 1]);
      WaitShrinks(TimedRun(t, ops[..|ops| - 1]), ops[|ops| - 1], h);
    }
  }

  // ---------- Unsigned priorities ----------

  /** Where the compiler makes the enumeration unsigned, the search starts above every priority:
      nothing is selected unless a task has the largest 32-bit number for its priority. */
  lemma UnsignedSelectsIff(tasks: seq<Task>, queue: seq<int>, current: int)
    requires forall i :: 0 <= i < |queue| && Live(tasks, queue[i]) ==> tasks[queue[i]].priority <= 0xFFFF_FFFF
    ensures Select(false, tasks, queue, current) != NO_TASK
      <==> exists i :: 0 <= i < |queue| && Ranks(tasks, queue[i], 0xFFFF_FFFF)
  {
    UnsignedBest(tasks, queue);
    hide Best, IndexIn;
    var first := FirstRanked(tasks, queue, 0xFFFF_FFFF, 0);
    hide FirstRanked;
  }

  lemma {:induction false} UnsignedBest(tasks: seq<Task>, queue: seq<int>)
    requires forall i :: 0 <= i < |queue| && Live(tasks, queue[i]) ==> tasks[queue[i]].priority <= 0xFFFF_FFFF
    ensures Best(false, tasks, queue) == -1
    decreases |queue|
  {
    if queue != [] {
      UnsignedBest(tasks, queue[..|queue| - 1]);
    }
  }

  // The step gives no task the largest 32-bit number for its priority; the constants of the
  // enumeration are 0 to 4.
  predicate BelowLargest(op: Op) {
    (op.Create? ==> op.priority < 0xFFFF_FFFF) && (op.SetPriority? ==> op.priority < 0xFFFF_FFFF)
  }

  ghost predicate Idle(s: Sched) {
    && !s.signed && s.slice == NO_TASK && s.current == NO_TASK
    && forall h :: 0 <= h < |s.tasks| ==> s.tasks[h].priority < 0xFFFF_FFFF && s.tasks[h].state != Running
  }

  lemma StepKeepsIdle(s: Sched, op: Op)
    requires Idle(s) && BelowLargest(op)
    ensures Idle(Step(s, op))
  {
    if op.RunBegin? {
      UnsignedSelectsIff(s.tasks, s.ready, s.current);
    }
    hide Select, Add, Remove;
  }

  /** There no run ever dispatches a task. */
  lemma {:induction false} UnsignedNeverDispatches(ops: seq<Op>)
    requires forall i :: 0 <= i < |ops| ==> BelowLargest(ops[i])
    ensures Idle(Run(Initial(false), ops))
    decreases |ops|
  {
    if ops != [] {
      var before := ops[..|ops| - 1];
      assert forall i :: 0 <= i < |before| ==> before[i] == ops[i];
      hide Idle, Step, BelowLargest;
      UnsignedNeverDispatches(before);
      StepKeepsIdle(Run(Initial(false), before), ops[|ops| - 1]);
    }
  }

  // ---------- What a yield does ----------

  /** A task that yields is queued twice at the end of its slice, whatever else is queued. */
  lemma YieldQueuesTwice(t: Timed)
    requires Clean(t) && LiveIn(t.s.tasks, t.s.current, Running) && |t.s.ready| + 1 < MAX_TASKS
    ensures multiset(Step(Step(t.s, Yield), RunEnd).ready)[t.s.current] == 2
  {
    assert t.s.current !in t.s.ready && t.s.current == t.s.slice;
    hide Clean;
    YieldThenEnd(t.s);
  }

  lemma YieldThenEnd(s: Sched)
    requires LiveIn(s.tasks, s.slice, Running) && s.current == s.slice
    requires s.slice !in s.ready && |s.ready| + 1 < MAX_TASKS
    ensures multiset(Step(Step(s, Yield), RunEnd).ready)[s.slice] == 2
  {
    assert Step(s, Yield) == Requeue(s, s.slice);
    hide Add, Remove, Step;
    RequeueAbsent(s, s.slice);
    RequeueKeepsSlice(s, s.slice);
    hide Requeue;
    var s' := Requeue(s, s.slice);
    EndRunReady(s');
    AddPutsAtMostOne(s'.tasks, s'.ready, s.slice);
  }

  lemma RequeueAbsent(s: Sched, h: int)
    requires Live(s.tasks, h) && h !in s.ready && |s.ready| < MAX_TASKS
    ensures var s' := Requeue(s, h);
      multiset(s'.ready)[h] == 1 && |s'.ready| == |s.ready| + 1 && LiveIn(s'.tasks, h, Ready)
  {
    RemoveAbsent(s.ready, h);
    assert multiset(s.ready)[h] == 0;
    var tasks := SetState(s.tasks, h, Ready);
    AddPutsAtMostOne(tasks, s.ready, h);
    assert |Add(tasks, s.ready, h)| == |s.ready| + 1;
  }

  // ---------- Who is dispatched without being ready ----------

  predicate DispatchesUnready(s: Sched, op: Op) {
    var next := Select(s.signed, s.tasks, s.ready, s.current);
    op.RunBegin? && s.slice == NO_TASK && Live(s.tasks, next) && s.tasks[next].state != Ready
  }

  /** The run dispatches a task that is not ready, and no step of it up to then queues a task
      twice. */
  predicate RunsUnready(s: Sched, ops: seq<Op>)
    decreases |ops|
  {
    ops != [] &&
    (DispatchesUnready(s, ops[0]) || (!QueuesTwice(s, ops[0]) && RunsUnready(Step(s, ops[0]), ops[1..])))
  }

  // A task has more entries in the queue than its state accounts for.
  ghost predicate Owed(s: Sched, h: int) {
    && s.signed && s.slice == NO_TASK && s.current == NO_TASK && Live(s.tasks, h)
    && multiset(s.ready)[h] >= if s.tasks[h].state == Ready then 2 else 1
  }

  lemma OwedSelects(s: Sched, h: int) returns (next: int)
    requires Owed(s, h)
    ensures next == Select(s.signed, s.tasks, s.ready, s.current) && Live(s.tasks, next) && next in s.ready
  {
    next := Select(s.signed, s.tasks, s.ready, s.current);
    SelectIsFirstOfBest(s);
    hide Select;
    assert h in multiset(s.ready) && h in s.ready;
  }

  // A cycle that runs a ready task to its end.
  lemma CycleSpends(s: Sched, h: int, next: int)
    requires Owed(s, h) && next in s.ready && LiveIn(s.tasks, next, Ready)
    requires next == Select(s.signed, s.tasks, s.ready, s.current)
    ensures var s' := Step(Step(s, RunBegin), RunEnd);
      && !QueuesTwice(Step(s, RunBegin), RunEnd)
      && Owed(s', h) && |s'.ready| < |s.ready|
  {
    hide Select, Remove, Owed;
    RemoveTakesOne(s.ready, next);
    RemoveShortens(s.ready, next);
    assert Step(s, RunBegin) == Withdraw(s, next, Running).(current := next, slice := next) by { OwedIsIdle(s, h); }
    var running := Step(s, RunBegin);
    assert SetState(running.tasks, next, Terminated) == SetState(s.tasks, next, Terminated);
    assert LiveIn(running.tasks, next, Running);
    CycleKeepsOwed(s, h, next);
    assert Step(running, RunEnd) ==
      Sched(SetState(s.tasks, next, Terminated), Remove(s.ready, next), NO_TASK, NO_TASK, s.signed);
    hide Step;
  }

  lemma OwedIsIdle(s: Sched, h: int)
    requires Owed(s, h)
    ensures s.slice == NO_TASK
  {
  }

  lemma CycleKeepsOwed(s: Sched, h: int, next: int)
    requires Owed(s, h) && LiveIn(s.tasks, next, Ready)
    ensures multiset(Remove(s.ready, next)) == multiset(s.ready) - multiset{next} ==>
      Owed(Sched(SetState(s.tasks, next, Terminated), Remove(s.ready, next), NO_TASK, NO_TASK, s.signed), h)
  {
    hide Remove;
  }

  lemma RemoveShortens(queue: seq<int>, h: int)
    requires h in queue
    ensures |Remove(queue, h)| == |queue| - 1
  {
    assert queue[..|queue|] == queue;
  }

  lemma UnreadyNow(s: Sched)
    requires DispatchesUnready(s, RunBegin)
    ensures RunsUnready(s, [RunBegin])
  {
  }

  lemma UnreadyLater(s: Sched, rest: seq<Op>)
    requires !QueuesTwice(Step(s, RunBegin), RunEnd) && RunsUnready(Step(Step(s, RunBegin), RunEnd), rest)
    ensures RunsUnready(s, [RunBegin, RunEnd] + rest)
  {
    var ops := [RunBegin, RunEnd] + rest;
    assert ops[1..] == [RunEnd] + rest && ops[1..][1..] == rest;
    hide Step, DispatchesUnready;
    assert !QueuesTwice(s, RunBegin);
    assert RunsUnready(Step(s, RunBegin), ops[1..]);
  }

  /** Such a task is sooner or later dispatched without being ready, if only every cycle that
      is run runs its task to the end. */
  lemma {:induction false} OwedIsPaid(s: Sched, h: int) returns (ops: seq<Op>)
    requires Owed(s, h)
    ensures RunsUnready(s, ops)
    decreases |s.ready|
  {
    var next := OwedSelects(s, h);
    OwedIsIdle(s, h);
    hide Owed, Select, Step, RunsUnready, QueuesTwice;
    if s.tasks[next].state != Ready {
      ops := [RunBegin];
      UnreadyNow(s);
    } else {
      CycleSpends(s, h, next);
      var rest := OwedIsPaid(Step(Step(s, RunBegin), RunEnd), h);
      ops := [RunBegin, RunEnd] + rest;
      UnreadyLater(s, rest);
    }
  }

  lemma QueuedTwiceIsOwed(t: Timed, op: Op)
    requires Clean(t) && t.s.signed && QueuesTwice(t.s, op)
    ensures Owed(Step(t.s, op), t.s.slice)
  {
    QueuesAgain(t, op);
    hide Clean, Add;
    EndedSlice(t.s);
    hide Step;
  }

  lemma EndedSlice(s: Sched)
    requires LiveIn(s.tasks, s.slice, Ready)
    ensures var s' := Step(s, RunEnd);
      s'.tasks == s.tasks && s'.slice == NO_TASK && s'.current == NO_TASK && s'.signed == s.signed
  {
    hide Add;
  }

  lemma {:induction false} CleanNeverRunsUnready(t: Timed, ops: seq<Op>)
    requires Clean(t) && t.s.signed && RunsUnready(t.s, ops)
    ensures false
    decreases |ops|
  {
    DispatchesReady(t, ops[0]);
    assert !QueuesTwice(t.s, ops[0]) && RunsUnready(Step(t.s, ops[0]), ops[1..]);
    hide Clean, DispatchesUnready, QueuesTwice, RunsUnready, Step;
    StepKeepsCleanIff(t, ops[0]);
    StepKeepsComparison(t.s, ops[0]);
    CleanNeverRunsUnready(TimedStep(t, ops[0]), ops[1..]);
  }

  lemma DispatchesReady(t: Timed, op: Op)
    requires Clean(t) && t.s.signed
    ensures !DispatchesUnready(t.s, op)
  {
    if t.s.slice == NO_TASK {
      SelectIsFirstOfBest(t.s);
      if t.s.ready != [] {
        SelectsHead(t);
        assert t.s.ready[0] in t.s.ready;
      }
      hide Select;
    }
  }

  /** From a clean state a step queues a task twice exactly when, without another such step, the
      run can be continued to the dispatch of a task that is not ready. */
  lemma RunsUnreadyIff(t: Timed, op: Op)
    requires Clean(t) && t.s.signed
    ensures QueuesTwice(t.s, op) <==> exists ops :: RunsUnready(Step(t.s, op), ops)
  {
    if QueuesTwice(t.s, op) {
      QueuedTwiceIsOwed(t, op);
      var ops := OwedIsPaid(Step(t.s, op), t.s.slice);
    } else {
      StepKeepsCleanIff(t, op);
      StepKeepsComparison(t.s, op);
      assert TimedStep(t, op).s == Step(t.s, op);
      hide Clean, TimedStep, Step, RunsUnready, QueuesTwice;
      forall ops
        ensures !RunsUnready(Step(t.s, op), ops)
      {
        if RunsUnready(Step(t.s, op), ops) {
          CleanNeverRunsUnready(TimedStep(t, op), ops);
        }
      }
    }
  }

  lemma RunThenStep(s: Sched, ops: seq<Op>, op: Op)
    ensures Run(s, ops + [op]) == Step(Run(s, ops), op)
  {
    assert (ops + [op])[..|ops|] == ops;
  }

  function OneTask(priority: nat, state: TaskState, ready: seq<int>, slice: int): Sched {
    Sched(Initial(true).tasks[0 := Task(true, priority, state)], ready, slice, slice, true)
  }

  /** The second entry outlives the task: after the task has returned from its entry function
      and is terminated, it is run once more. */
  lemma YieldedTaskRunsAfterItsEnd(priority: nat)
    ensures var ops := [Create(priority), Start(0), RunBegin, Yield, RunEnd, RunBegin, RunEnd];
      && Run(Initial(true), ops) == OneTask(priority, Terminated, [0], NO_TASK)
      && Run(Initial(true), ops + [RunBegin]) == OneTask(priority, Running, [], 0)
  {
    var a := [Create(priority)];
    var b := [Create(priority), Start(0)];
    var c := [Create(priority), Start(0), RunBegin];
    var d := [Create(priority), Start(0), RunBegin, Yield];
    var e := [Create(priority), Start(0), RunBegin, Yield, RunEnd];
    var f := [Create(priority), Start(0), RunBegin, Yield, RunEnd, RunBegin];
    var g := [Create(priority), Start(0), RunBegin, Yield, RunEnd, RunBegin, RunEnd];
    assert a == [] + [Create(priority)] && b == a + [Start(0)] && c == b + [RunBegin] && d == c + [Yield];
    assert e == d + [RunEnd] && f == e + [RunBegin] && g == f + [RunEnd];
    assert Run(Initial(true), []) == Initial(true);
    hide Run;
    RunThenStep(Initial(true), [], Create(priority));
    RunThenStep(Initial(true), a, Start(0));
    RunThenStep(Initial(true), b, RunBegin);
    RunThenStep(Initial(true), c, Yield);
    RunThenStep(Initial(true), d, RunEnd);
    RunThenStep(Initial(true), e, RunBegin);
    RunThenStep(Initial(true), f, RunEnd);
    RunThenStep(Initial(true), g, RunBegin);
    hide Step, OneTask, Initial;
    OneTaskStarts(priority);
    OneTaskYields(priority);
    OneTaskBegins(priority, Ready, [0]);
    OneTaskBegins(priority, Ready, [0, 0]);
    OneTaskEnds(priority);
    OneTaskBegins(priority, Terminated, [0]);
  }

  lemma OneTaskStarts(priority: nat)
    ensures Step(Initial(true), Create(priority)) == OneTask(priority, Inactive, [], NO_TASK)
    ensures Step(OneTask(priority, Inactive, [], NO_TASK), Start(0)) == OneTask(priority, Ready, [0], NO_TASK)
  {
    assert FreeSlot(Initial(true).tasks) == 0;
    assert OneTask(priority, Ready, [0], NO_TASK).tasks ==
      SetState(OneTask(priority, Inactive, [], NO_TASK).tasks, 0, Ready);
    assert Insert([], 0, 0) == [0];
  }

  lemma OneTaskBegins(priority: nat, state: TaskState, ready: seq<int>)
    requires ready == [0] || ready == [0, 0]
    ensures Step(OneTask(priority, state, ready, NO_TASK), RunBegin) == OneTask(priority, Running, ready[1..], 0)
  {
    var s := OneTask(priority, state, ready, NO_TASK);
    SelectIsFirstOfBest(s);
    assert Live(s.tasks, s.ready[0]);
    RemoveHead(ready);
    hide Select, Remove;
    assert Select(s.signed, s.tasks, s.ready, s.current) == 0;
    assert SetState(s.tasks, 0, Running) == OneTask(priority, Running, [], 0).tasks;
  }

  lemma OneTaskYields(priority: nat)
    ensures Step(OneTask(priority, Running, [], 0), Yield) == OneTask(priority, Ready, [0], 0)
    ensures Step(OneTask(priority, Ready, [0], 0), RunEnd) == OneTask(priority, Ready, [0, 0], NO_TASK)
  {
    var s, s' := OneTask(priority, Running, [], 0), OneTask(priority, Ready, [0], 0);
    RemoveAbsent([], 0);
    assert SetState(s.tasks, 0, Ready) == s'.tasks;
    assert Add(s'.tasks, [], 0) == [0];
    assert Add(s'.tasks, [0], 0) == [0, 0] by {
      assert InsertAt(s'.tasks, [0], 0) == 1;
    }
    hide Add, Remove, Initial;
  }

  lemma OneTaskEnds(priority: nat)
    ensures Step(OneTask(priority, Running, [0], 0), RunEnd) == OneTask(priority, Terminated, [0], NO_TASK)
  {
    var s := OneTask(priority, Running, [0], 0);
    assert SetState(s.tasks, 0, Terminated) == OneTask(priority, Terminated, [0], NO_TASK).tasks;
  }
}
