/** How long a task waits in the runs as written, with tasks that yield or are preempted and are
    queued twice: the queue stays sorted, and nobody is overtaken by an equal. */
module SchedulerWaiting {
  import opened SchedulerModel
  import opened SchedulerTheorems
  import opened SchedulerFairness

  // The queued tasks are in use, and priorities fall.
  ghost predicate Sorted(tasks: seq<Task>, queue: seq<int>) {
    && (forall i :: 0 <= i < |queue| ==> Live(tasks, queue[i]))
    && (forall i, j :: 0 <= i < j < |queue| ==> tasks[queue[i]].priority >= tasks[queue[j]].priority)
  }

  /** A task that is destroyed or given another priority has no entry left behind: it is queued
      once at most, and one whose priority changes is ready if it is queued. */
  predicate Mild(s: Sched, op: Op) {
    (op.Destroy? || op.SetPriority?) && op.handle in s.ready ==>
      op.handle !in Remove(s.ready, op.handle) && (LiveIn(s.tasks, op.handle, Ready) || op.Destroy?)
  }

  lemma RemoveKeepsSorted(tasks: seq<Task>, queue: seq<int>, h: int)
    requires Sorted(tasks, queue)
    ensures Sorted(tasks, Remove(queue, h))
  {
    var n, r := IndexIn(queue, h), Remove(queue, h);
    if n < |queue| {
      forall i | 0 <= i < |r|
        ensures r[i] == queue[if i < n then i else i + 1]
      {
      }
    }
    hide IndexIn;
  }

  lemma AddKeepsSorted(tasks: seq<Task>, queue: seq<int>, h: int)
    requires Sorted(tasks, queue)
    ensures Sorted(tasks, Add(tasks, queue, h))
  {
    var n, r := InsertAt(tasks, queue, h), Add(tasks, queue, h);
    if |queue| < MAX_TASKS && Live(tasks, h) {
      hide InsertAt;
      assert n < |queue| ==> Outranks(tasks, h, queue[n]);
      forall i, j | 0 <= i < j < |r|
        ensures tasks[r[i]].priority >= tasks[r[j]].priority
      {
        assert i < n ==> !Outranks(tasks, h, queue[i]);
      }
    }
  }

  // A change that keeps the queued tasks in use, with their priorities.
  lemma SortedSurvives(tasks: seq<Task>, tasks': seq<Task>, queue: seq<int>)
    requires Sorted(tasks, queue)
    requires forall i :: 0 <= i < |queue| ==>
      Live(tasks', queue[i]) && tasks'[queue[i]].priority == tasks[queue[i]].priority
    ensures Sorted(tasks', queue)
  {
  }

  predicate MildRun(s: Sched, ops: seq<Op>)
    decreases |ops|
  {
    ops == [] || (MildRun(s, ops[..|ops| - 1]) && Mild(Run(s, ops[..|ops| - 1]), ops[|ops| - 1]))
  }

  ghost predicate SortedSched(s: Sched) {
    Sorted(s.tasks, s.ready)
  }

  // ---------- Positions ----------

  /** The entries in front of the first one of a task. */
  function Front(s: Sched, h: int): nat {
    IndexIn(s.ready, h)
  }

  lemma IndexIsAt(queue: seq<int>, h: int, n: nat)
    requires n <= |queue|
    requires forall i :: 0 <= i < n ==> queue[i] != h
    requires n < |queue| ==> queue[n] == h
    ensures IndexIn(queue, h) == n
  {
    var m := IndexIn(queue, h);
    assert forall i :: 0 <= i < m ==> queue[i] == queue[..m][i];
  }

  lemma NotBefore(queue: seq<int>, h: int)
    ensures forall i :: 0 <= i < IndexIn(queue, h) ==> queue[i] != h
    ensures h in queue <==> IndexIn(queue, h) < |queue|
  {
    var m := IndexIn(queue, h);
    assert forall i :: 0 <= i < m ==> queue[i] == queue[..m][i];
    assert queue[..|queue|] == queue;
  }

  lemma RemoveMovesUp(queue: seq<int>, k: int, h: int)
    requires h in queue && k != h
    ensures h in Remove(queue, k)
    ensures IndexIn(Remove(queue, k), h) ==
      if IndexIn(queue, k) < IndexIn(queue, h) then IndexIn(queue, h) - 1 else IndexIn(queue, h)
  {
    NotBefore(queue, h);
    NotBefore(queue, k);
    var n, p, r := IndexIn(queue, k), IndexIn(queue, h), Remove(queue, k);
    hide IndexIn;
    var at := if n < p then p - 1 else p;
    if n < |queue| {
      assert forall i :: 0 <= i < |r| ==> r[i] == queue[if i < n then i else i + 1];
    }
    assert r[at] == h;
    IndexIsAt(r, h, at);
  }

  lemma InsertsBehind(tasks: seq<Task>, queue: seq<int>, k: int, p: nat)
    requires Sorted(tasks, queue) && p < |queue| && !Outranks(tasks, k, queue[p])
    ensures InsertAt(tasks, queue, k) > p
  {
    var n := InsertAt(tasks, queue, k);
    hide InsertAt;
    assert forall i :: 0 <= i <= p ==> tasks[queue[i]].priority >= tasks[queue[p]].priority;
    assert n < |queue| ==> Outranks(tasks, k, queue[n]);
  }

  lemma AddStaysBehind(tasks: seq<Task>, queue: seq<int>, k: int, h: int)
    requires Sorted(tasks, queue) && h in queue && !Outranks(tasks, k, h)
    ensures h in Add(tasks, queue, k) && IndexIn(Add(tasks, queue, k), h) == IndexIn(queue, h)
  {
    NotBefore(queue, h);
    var p, r := IndexIn(queue, h), Add(tasks, queue, k);
    InsertsBehind(tasks, queue, k, p);
    hide IndexIn, InsertAt, Sorted, Outranks;
    assert forall i :: 0 <= i <= p ==> r[i] == queue[i];
    assert r[p] == h;
    IndexIsAt(r, h, p);
  }

  // ---------- What a step does to the queue ----------

  /** The task whose first entry a step takes out of the queue, or NO_TASK. */
  function Removed(s: Sched, op: Op): int {
    match op
    case Destroy(h) => if Live(s.tasks, h) then h else NO_TASK
    case Suspend(h) => if Live(s.tasks, h) then h else NO_TASK
    case Block => if Live(s.tasks, s.current) then s.current else NO_TASK
    case RunBegin =>
      var next := Select(s.signed, s.tasks, s.ready, s.current);
      if s.slice < 0 && Live(s.tasks, next) then next else NO_TASK
    case SetPriority(_, _) => Enqueued(s, op)
    case Yield => Enqueued(s, op)
    case Tick(_) => Enqueued(s, op)
    case _ => NO_TASK
  }

  lemma RemoveNobody(queue: seq<int>)
    requires NO_TASK !in queue
    ensures Remove(queue, NO_TASK) == queue
  {
    NotBefore(queue, NO_TASK);
  }

  lemma EndIsAdd(s: Sched)
    requires Shape(s)
    ensures EndRun(s).ready == Add(EndRun(s).tasks, s.ready, Enqueued(s, RunEnd))
  {
    assert QueuesTwice(s, RunEnd) ==> EndRun(s).tasks == s.tasks;
    hide InsertAt;
  }

  // Calls that make no room in the queue.
  lemma WakeIsAdd(s: Sched, op: Op)
    requires NO_TASK !in s.ready && (op.Create? || op.Start? || op.Resume? || op.Unblock?)
    ensures Step(s, op).ready == Add(Step(s, op).tasks, Remove(s.ready, Removed(s, op)), Enqueued(s, op))
  {
    RemoveNobody(s.ready);
    hide Remove, Insert, InsertAt;
  }

  lemma RequeueIsBoth(s: Sched, op: Op)
    requires NO_TASK !in s.ready && (op.SetPriority? || op.Yield? || op.Tick?)
    ensures Step(s, op).ready == Add(Step(s, op).tasks, Remove(s.ready, Removed(s, op)), Enqueued(s, op))
  {
    RemoveNobody(s.ready);
    hide Remove, Insert, InsertAt;
  }

  lemma LeaveIsRemove(s: Sched, op: Op)
    requires NO_TASK !in s.ready && (op.Destroy? || op.Suspend? || op.Block? || op.RunBegin?)
    ensures Step(s, op).ready == Add(Step(s, op).tasks, Remove(s.ready, Removed(s, op)), Enqueued(s, op))
  {
    RemoveNobody(s.ready);
    hide Remove, Select, Insert, InsertAt;
  }

  /** Every step takes out the first entry of one task at most and then puts in one at most. */
  lemma StepIsRemoveThenAdd(s: Sched, op: Op)
    requires Shape(s)
    ensures Step(s, op).ready == Add(Step(s, op).tasks, Remove(s.ready, Removed(s, op)), Enqueued(s, op))
  {
    assert NO_TASK !in s.ready;
    if op.Create? || op.Start? || op.Resume? || op.Unblock? {
      WakeIsAdd(s, op);
    } else if op.SetPriority? || op.Yield? || op.Tick? {
      RequeueIsBoth(s, op);
    } else if op.RunEnd? {
      RemoveNobody(s.ready);
      EndIsAdd(s);
      assert Removed(s, op) == NO_TASK;
      assert Step(s, op) == EndRun(s);
    } else {
      LeaveIsRemove(s, op);
    }
    hide Shape, Add, Remove, Step, Removed, Enqueued, EndRun;
  }

  // Where only states change.
  lemma StatesKeepPriority(s: Sched, op: Op, k: int)
    requires !op.Destroy? && !op.SetPriority? && Live(s.tasks, k)
    ensures Live(Step(s, op).tasks, k) && Step(s, op).tasks[k].priority == s.tasks[k].priority
  {
    hide Add, Remove, Select;
  }

  // The tasks that stay queued stay in use and keep their priorities.
  lemma StepKeepsPriority(s: Sched, op: Op, k: int)
    requires Mild(s, op) && Live(s.tasks, k) && k in Remove(s.ready, Removed(s, op))
    ensures Live(Step(s, op).tasks, k) && Step(s, op).tasks[k].priority == s.tasks[k].priority
  {
    if op.Destroy? || op.SetPriority? {
      RemoveKeepsElements(s.ready, Removed(s, op));
      assert k != op.handle;
      hide Removed, Remove, Mild;
      OthersKeepPriority(s, op, k);
    } else {
      StatesKeepPriority(s, op, k);
    }
    hide *;
  }

  lemma OthersKeepPriority(s: Sched, op: Op, k: int)
    requires (op.Destroy? || op.SetPriority?) && Live(s.tasks, k) && k != op.handle
    ensures Live(Step(s, op).tasks, k) && Step(s, op).tasks[k].priority == s.tasks[k].priority
  {
    hide Add, Remove;
  }

  // Before the addition.
  lemma StepKeepsRest(s: Sched, op: Op)
    requires SortedSched(s) && Mild(s, op)
    ensures Sorted(Step(s, op).tasks, Remove(s.ready, Removed(s, op)))
  {
    RemoveKeepsSorted(s.tasks, s.ready, Removed(s, op));
    var tasks, r := Step(s, op).tasks, Remove(s.ready, Removed(s, op));
    forall k | k in r
      ensures Live(tasks, k) && tasks[k].priority == s.tasks[k].priority
    {
      StepKeepsPriority(s, op, k);
    }
    hide Step, Remove, Removed, Mild;
    SortedSurvives(s.tasks, tasks, r);
  }

  lemma StepKeepsSorted(s: Sched, op: Op)
    requires Shape(s) && SortedSched(s) && Mild(s, op)
    ensures SortedSched(Step(s, op))
  {
    StepIsRemoveThenAdd(s, op);
    StepKeepsRest(s, op);
    hide Step, Remove, Add, Enqueued, Removed, Shape, Sorted, Mild;
    AddKeepsSorted(Step(s, op).tasks, Remove(s.ready, Removed(s, op)), Enqueued(s, op));
  }

  /** A destroyed task's second entry stays, of a slot that is free. */
  lemma DestroyKeepsSortedIff(s: Sched, h: int)
    requires Shape(s) && SortedSched(s)
    ensures SortedSched(Step(s, Destroy(h))) <==> h !in Remove(s.ready, h)
  {
    NotBefore(s.ready, h);
    if h !in Remove(s.ready, h) {
      StepKeepsSorted(s, Destroy(h));
    } else {
      RemoveKeepsElements(s.ready, h);
      var i :| 0 <= i < |Remove(s.ready, h)| && Remove(s.ready, h)[i] == h;
    }
    hide Remove, IndexIn;
  }

  lemma RemoveKeepsElements(queue: seq<int>, h: int)
    ensures forall k :: k in Remove(queue, h) ==> k in queue
  {
  }

  lemma {:induction false} RunKeepsSorted(signed: bool, ops: seq<Op>)
    requires MildRun(Initial(signed), ops)
    ensures SortedSched(Run(Initial(signed), ops))
    decreases |ops|
  {
    if ops != [] {
      hide Shape, Capped, SortedSched, Step, Mild;
      RunKeepsSorted(signed, ops[..|ops| - 1]);
      RunKeeps(signed, ops[..|ops| - 1]);
      StepKeepsSorted(Run(Initial(signed), ops[..|ops| - 1]), ops[|ops| - 1]);
    }
  }

  /** In every such run from power-up, with tasks queued twice as they are, the queue is sorted by
      falling priority and holds only tasks in use. */
  lemma QueueStaysSorted(signed: bool, ops: seq<Op>)
    requires MildRun(Initial(signed), ops)
    ensures var s := Run(Initial(signed), ops);
      && (forall i :: 0 <= i < |s.ready| ==> Live(s.tasks, s.ready[i]))
      && (forall i, j :: 0 <= i < j < |s.ready| ==> s.tasks[s.ready[i]].priority >= s.tasks[s.ready[j]].priority)
  {
    RunKeepsSorted(signed, ops);
    hide Run, MildRun, Initial;
  }

  // ---------- How long an entry waits ----------

  /** An entry of a task waits through a step: the step does not take it out, and the task that
      is put in, if any, is not of a strictly higher priority. */
  predicate KeepsWaiting(s: Sched, op: Op, h: int) {
    Mild(s, op) && Removed(s, op) != h && !Outranks(Step(s, op).tasks, Enqueued(s, op), h)
  }

  lemma BeginTakesHead(s: Sched)
    requires s.signed && SortedSched(s) && s.ready != [] && s.slice == s.current == NO_TASK
    ensures Removed(s, RunBegin) == s.ready[0]
  {
    SelectIsFirstOfBest(s);
    hide Select;
    assert Live(s.tasks, s.ready[0]);
    var next := Select(s.signed, s.tasks, s.ready, s.current);
    var i :| 0 <= i < |s.ready| && s.ready[i] == next && FirstOfBest(s.tasks, s.ready, i);
    assert forall j :: 0 < j < |s.ready| ==> s.tasks[s.ready[0]].priority >= s.tasks[s.ready[j]].priority;
    assert i == 0;
  }

  lemma RemoveBringsForward(s: Sched, op: Op, h: int)
    requires s.signed && SortedSched(s) && Shape(s) && h in s.ready && Removed(s, op) != h
    ensures var r := Remove(s.ready, Removed(s, op));
      h in r && IndexIn(r, h) + Dispatched(s, op) <= Front(s, h)
  {
    RemoveMovesUp(s.ready, Removed(s, op), h);
    if Dispatched(s, op) == 1 {
      BeginTakesHead(s);
      hide Removed, Remove, SortedSched;
      NotBefore(s.ready, h);
      IndexIsAt(s.ready, s.ready[0], 0);
    }
    hide Removed, Remove, SortedSched;
  }

  /** While an entry waits nothing gets in front of it, and each dispatch takes one away. */
  lemma FrontShrinks(s: Sched, op: Op, h: int)
    requires s.signed && SortedSched(s) && Shape(s) && h in s.ready && KeepsWaiting(s, op, h)
    ensures h in Step(s, op).ready
    ensures Front(Step(s, op), h) + Dispatched(s, op) <= Front(s, h)
  {
    StepIsRemoveThenAdd(s, op);
    RemoveBringsForward(s, op, h);
    StepKeepsRest(s, op);
    hide Step, Remove, Add, Enqueued, Removed, Dispatched, Shape, Sorted;
    AddStaysBehind(Step(s, op).tasks, Remove(s.ready, Removed(s, op)), Enqueued(s, op), h);
  }

  predicate KeepsWaitingAll(s: Sched, ops: seq<Op>, h: int)
    decreases |ops|
  {
    ops == [] ||
    (KeepsWaitingAll(s, ops[..|ops| - 1], h) && KeepsWaiting(Run(s, ops[..|ops| - 1]), ops[|ops| - 1], h))
  }

  /** The cycles a run begins. */
  function Cycles(s: Sched, ops: seq<Op>): nat
    decreases |ops|
  {
    if ops == [] then 0
    else Cycles(s, ops[..|ops| - 1]) + Dispatched(Run(s, ops[..|ops| - 1]), ops[|ops| - 1])
  }

  lemma {:induction false} WaitFrom(s: Sched, ops: seq<Op>, h: int)
    requires s.signed && SortedSched(s) && Shape(s) && Capped(s) && h in s.ready && KeepsWaitingAll(s, ops, h)
    ensures var s' := Run(s, ops);
      && s'.signed && SortedSched(s') && Shape(s') && Capped(s')
      && h in s'.ready && Front(s', h) + Cycles(s, ops) <= Front(s, h)
    decreases |ops|
  {
    if ops != [] {
      hide SortedSched, Shape, Capped, Step, Front, Dispatched;
      var before, op := ops[..|ops| - 1], ops[|ops| - 1];
      WaitFrom(s, before, h);
      var s' := Run(s, before);
      FrontShrinks(s', op, h);
      StepKeepsSorted(s', op);
      StepKeeps(s', op);
      StepKeepsComparison(s', op);
    }
  }

  /** No starvation in the runs as written, with yields, ticks and tasks queued twice: after any
      run from power-up, a queued task with n entries in front of its own waits through at most n
      cycles, unless a task of a strictly higher priority is queued. */
  lemma WaitAsWrittenIsBounded(ops: seq<Op>, more: seq<Op>, h: int)
    requires MildRun(Initial(true), ops)
    requires var s := Run(Initial(true), ops); h in s.ready && KeepsWaitingAll(s, more, h)
    ensures var s, s' := Run(Initial(true), ops), Run(Run(Initial(true), ops), more);
      h in s'.ready && Front(s', h) + Cycles(s, more) <= Front(s, h)
  {
    RunKeepsSorted(true, ops);
    RunKeeps(true, ops);
    RunSigned(Initial(true), ops);
    hide Run, MildRun, Cycles, KeepsWaitingAll;
    WaitFrom(Run(Initial(true), ops), more, h);
  }

  lemma CleanStepIsMild(t: Timed, op: Op)
    requires Clean(t)
    ensures Mild(t.s, op)
  {
    if (op.Destroy? || op.SetPriority?) && op.handle in t.s.ready {
      RemoveTakesOnlyOne(t.s.tasks, t.since, t.s.ready, op.handle, op.handle);
    }
    hide Remove, InOrder;
  }

  /** Among these runs are all in which the queue stays free of duplicates. */
  lemma {:induction false} CleanRunIsMild(signed: bool, ops: seq<Op>)
    requires CleanRun(Power(signed), ops)
    ensures MildRun(Initial(signed), ops)
    decreases |ops|
  {
    if ops != [] {
      hide Clean, Mild, QueuesTwice, Step, TimedStep;
      var before := ops[..|ops| - 1];
      CleanRunIsMild(signed, before);
      PowerIsClean(signed);
      RunCleans(Power(signed), before);
      TimingIsExtra(Power(signed), before);
      CleanStepIsMild(TimedRun(Power(signed), before), ops[|ops| - 1]);
    }
  }

  lemma {:induction false} RunSigned(s: Sched, ops: seq<Op>)
    ensures Run(s, ops).signed == s.signed
    decreases |ops|
  {
    if ops != [] {
      RunSigned(s, ops[..|ops| - 1]);
      StepKeepsComparison(Run(s, ops[..|ops| - 1]), ops[|ops| - 1]);
      hide Step;
    }
  }
}
