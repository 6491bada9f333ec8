/** What becomes of each slot of the task table: the transitions of one task, whatever is called
    for whom, and what the table holds after a whole run. */
module SchedulerTable {
  import opened SchedulerModel
  import opened SchedulerTheorems
  import opened SchedulerFairness
  import opened SchedulerWaiting

  // ---------- One step, seen from a slot ----------

  predicate Takes(s: Sched, op: Op, h: int) {
    && op.Create? && 0 <= h < |s.tasks| && !s.tasks[h].inUse
    && forall k :: 0 <= k < h ==> s.tasks[k].inUse
  }

  // The call is made for this task, which is in use.
  predicate Concerns(s: Sched, op: Op, h: int) {
    Live(s.tasks, h) &&
    match op
    case Create(_) => false
    case Yield => h == s.current
    case Block => h == s.current
    case Tick(expired) => expired && h == s.current
    case RunBegin => s.slice < 0 && h == Select(s.signed, s.tasks, s.ready, s.current)
    case RunEnd => false
    case _ => h == op.handle
  }

  /** The state diagram of a task. */
  function StateAfter(state: TaskState, op: Op): TaskState {
    match state
    case Inactive => if op.Start? then Ready else Leaving(state, op)
    case Suspended => if op.Start? || op.Resume? then Ready else Leaving(state, op)
    case Blocked => if op.Unblock? then Ready else Leaving(state, op)
    case Running => if op.Yield? || op.Tick? then Ready else Leaving(state, op)
    case Ready => Leaving(state, op)
    case Terminated => Leaving(state, op)
  }

  function Leaving(state: TaskState, op: Op): TaskState {
    if op.Suspend? then Suspended else if op.Block? then Blocked else if op.RunBegin? then Running else state
  }

  /** What the slot holds after a step. */
  function TaskAfter(s: Sched, op: Op, h: int): Task
    requires 0 <= h < |s.tasks|
  {
    var t := s.tasks[h];
    if Takes(s, op, h) then Task(true, op.priority, Inactive)
    else if op.RunEnd? && h == s.slice && t.state == Running then t.(state := Terminated)
    else if !Concerns(s, op, h) then t
    else Task(!op.Destroy?, if op.SetPriority? then op.priority else t.priority, StateAfter(t.state, op))
  }

  // Whose turn it is then.
  function CurrentAfter(s: Sched, op: Op): int {
    if op.RunEnd? && 0 <= s.slice then NO_TASK
    else if op.RunBegin? && Concerns(s, op, Select(s.signed, s.tasks, s.ready, s.current))
      then Select(s.signed, s.tasks, s.ready, s.current)
    else if op.Destroy? && Concerns(s, op, s.current) then NO_TASK
    else if op.Tick? && Concerns(s, op, s.current) && s.tasks[s.current].state == Running then NO_TASK
    else s.current
  }

  function SliceAfter(s: Sched, op: Op): int {
    if op.RunEnd? && 0 <= s.slice then NO_TASK
    else if op.RunBegin? && Concerns(s, op, Select(s.signed, s.tasks, s.ready, s.current))
      then Select(s.signed, s.tasks, s.ready, s.current)
    else s.slice
  }

  lemma SlotTaken(tasks: seq<Task>, h: int)
    requires 0 <= h < |tasks|
    ensures FreeSlot(tasks) == h <==> !tasks[h].inUse && forall k :: 0 <= k < h ==> tasks[k].inUse
  {
  }

  lemma CallMoves(s: Sched, op: Op, h: int)
    requires 0 <= h < |s.tasks| && !op.Create? && !op.RunBegin? && !op.RunEnd?
    ensures |Step(s, op).tasks| == |s.tasks|
    ensures Step(s, op).tasks[h] == TaskAfter(s, op, h)
  {
    hide Add, Remove, Select;
  }

  /** Every step does to every slot what the state diagram says, and to no other slot anything. */
  lemma StepMovesTasks(s: Sched, op: Op, h: int)
    requires 0 <= h < |s.tasks|
    ensures |Step(s, op).tasks| == |s.tasks|
    ensures Step(s, op).tasks[h] == TaskAfter(s, op, h)
  {
    hide Add, Remove, Select;
    if op.Create? {
      SlotTaken(s.tasks, h);
      hide FreeSlot;
    } else if !op.RunBegin? && !op.RunEnd? {
      CallMoves(s, op, h);
      hide Step, TaskAfter;
    }
  }

  lemma StepMovesTurn(s: Sched, op: Op)
    requires Shape(s)
    ensures Step(s, op).current == CurrentAfter(s, op) && Step(s, op).slice == SliceAfter(s, op)
  {
    hide Add, Remove, Select, FreeSlot;
  }

  /** A change of priority gives the task that priority, in whatever state it is, and changes
      nothing else in the table. */
  lemma PriorityIsSet(s: Sched, h: int, priority: nat, k: int)
    requires Live(s.tasks, h) && 0 <= k < |s.tasks|
    ensures var tasks := Step(s, SetPriority(h, priority)).tasks;
      |tasks| == |s.tasks| && tasks[k] == if k == h then s.tasks[h].(priority := priority) else s.tasks[k]
  {
    StepMovesTasks(s, SetPriority(h, priority), k);
    hide Step;
  }

  // ---------- The table after a run ----------

  /** The priority a slot's task was given last: when it was created, or by a change since. */
  function LastPriority(signed: bool, ops: seq<Op>, h: int): nat
    decreases |ops|
  {
    if ops == [] then 0 else
    var before, op := ops[..|ops| - 1], ops[|ops| - 1];
    if Takes(Run(Initial(signed), before), op, h) then op.priority
    else if op.SetPriority? && op.handle == h && Exists(signed, before, h) then op.priority
    else LastPriority(signed, before, h)
  }

  /** A task was created in the slot and has not been destroyed since. */
  predicate Exists(signed: bool, ops: seq<Op>, h: int)
    decreases |ops|
  {
    ops != [] &&
    var before, op := ops[..|ops| - 1], ops[|ops| - 1];
    Takes(Run(Initial(signed), before), op, h) || (Exists(signed, before, h) && op != Destroy(h))
  }

  /** In every run a slot is in use exactly if a task was created in it and not destroyed since,
      and its priority is the one given last. */
  lemma {:induction false} TableAfterRun(signed: bool, ops: seq<Op>, h: int)
    requires 0 <= h < MAX_TASKS
    ensures var tasks := Run(Initial(signed), ops).tasks;
      && |tasks| == MAX_TASKS
      && (tasks[h].inUse <==> Exists(signed, ops, h))
      && tasks[h].priority == LastPriority(signed, ops, h)
    decreases |ops|
  {
    if ops != [] {
      var before, op := ops[..|ops| - 1], ops[|ops| - 1];
      TableAfterRun(signed, before, h);
      hide Step, Select;
      StepMovesTasks(Run(Initial(signed), before), op, h);
    }
  }

  /** So the queue is sorted by the priorities given last, in all runs whose queue stays sorted. */
  lemma QueueSortedByLastPriority(signed: bool, ops: seq<Op>)
    requires MildRun(Initial(signed), ops)
    ensures var ready := Run(Initial(signed), ops).ready;
      && (forall i :: 0 <= i < |ready| ==> Exists(signed, ops, ready[i]))
      && (forall i, j :: 0 <= i < j < |ready| ==> LastPriority(signed, ops, ready[i]) >= LastPriority(signed, ops, ready[j]))
  {
    QueueStaysSorted(signed, ops);
    var s := Run(Initial(signed), ops);
    TableAfterRun(signed, ops, 0);
    forall i | 0 <= i < |s.ready|
      ensures Exists(signed, ops, s.ready[i]) && s.tasks[s.ready[i]].priority == LastPriority(signed, ops, s.ready[i])
    {
      TableAfterRun(signed, ops, s.ready[i]);
    }
    hide Run, MildRun, Exists, LastPriority;
  }

  // The queue with one more entry, behind all of its priority or a higher one, in front of the rest.
  ghost predicate Placed(tasks: seq<Task>, queue: seq<int>, queue': seq<int>, h: int, n: nat) {
    && n <= |queue| && queue' == queue[..n] + [h] + queue[n..] && Live(tasks, h)
    && forall i :: 0 <= i < |queue| ==>
         Live(tasks, queue[i]) && (i < n <==> tasks[queue[i]].priority >= tasks[h].priority)
  }

  lemma AddPlaces(tasks: seq<Task>, queue: seq<int>, h: int) returns (n: nat)
    requires Sorted(tasks, queue) && Live(tasks, h) && |queue| < MAX_TASKS
    ensures Placed(tasks, queue, Add(tasks, queue, h), h, n)
  {
    n := InsertAt(tasks, queue, h);
    hide InsertAt;
    assert forall i :: 0 <= i < n ==> !Outranks(tasks, h, queue[i]);
    assert n < |queue| ==> Outranks(tasks, h, queue[n]);
  }

  /** A task that is created, given another priority and started is queued by that priority. */
  lemma StartsWithLastPriority(s: Sched, h: int, priority: nat) returns (n: nat)
    requires LiveIn(s.tasks, h, Inactive) && h !in s.ready && |s.ready| < MAX_TASKS && SortedSched(s)
    ensures var s' := Step(Step(s, SetPriority(h, priority)), Start(h));
      && LiveIn(s'.tasks, h, Ready) && s'.tasks[h].priority == priority
      && Placed(s'.tasks, s.ready, s'.ready, h, n)
  {
    var tasks := s.tasks[h := Task(true, priority, Ready)];
    SortedSurvives(s.tasks, tasks, s.ready);
    ChangedThenStarted(s, h, priority);
    hide Sorted, Add, Placed, Step;
    n := AddPlaces(tasks, s.ready, h);
  }

  lemma ChangedThenStarted(s: Sched, h: int, priority: nat)
    requires LiveIn(s.tasks, h, Inactive)
    ensures var tasks := s.tasks[h := Task(true, priority, Ready)];
      Step(Step(s, SetPriority(h, priority)), Start(h)) == s.(tasks := tasks, ready := Add(tasks, s.ready, h))
  {
    var s1 := s.(tasks := s.tasks[h := s.tasks[h].(priority := priority)]);
    assert Step(s, SetPriority(h, priority)) == s1;
    assert SetState(s1.tasks, h, Ready) == s.tasks[h := Task(true, priority, Ready)];
    hide Add;
  }
}
