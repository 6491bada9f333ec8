/** The task scheduler on values. A handle is a slot of the task table; the ready queue is a
    list of handles; a scheduling cycle is two steps, with the task's own calls in between. */
module SchedulerModel {

  const MAX_TASKS: nat := 16
  const NO_TASK: int := -1

  datatype TaskState = Inactive | Ready | Running | Blocked | Suspended | Terminated

  datatype Task = Task(inUse: bool, priority: nat, state: TaskState)

  // `slice` is the task whose entry function is executing, as scheduler_run remembers it;
  // `signed` says whether the compiler makes the enumeration of priorities a signed type.
  datatype Sched = Sched(tasks: seq<Task>, ready: seq<int>, current: int, slice: int, signed: bool)

  datatype Op =
    | Create(priority: nat)
    | Destroy(handle: int)
    | Start(handle: int)
    | Suspend(handle: int)
    | Resume(handle: int)
    | SetPriority(handle: int, priority: nat)
    | Yield
    | Block
    | Unblock(handle: int)
    | Tick(expired: bool)
    | RunBegin
    | RunEnd

  predicate Live(tasks: seq<Task>, handle: int) {
    0 <= handle < |tasks| && tasks[handle].inUse
  }

  predicate LiveIn(tasks: seq<Task>, handle: int, state: TaskState) {
    Live(tasks, handle) && tasks[handle].state == state
  }

  predicate Outranks(tasks: seq<Task>, a: int, b: int) {
    Live(tasks, a) && Live(tasks, b) && tasks[a].priority > tasks[b].priority
  }

  // ---------- The ready queue ----------

  /** Where a handle is inserted: before the first queued task it strictly outranks. */
  function InsertAt(tasks: seq<Task>, queue: seq<int>, handle: int): (n: nat)
    ensures n <= |queue|
    ensures forall i :: 0 <= i < n ==> !Outranks(tasks, handle, queue[i])
    ensures n < |queue| ==> Outranks(tasks, handle, queue[n])
  {
    if queue == [] || Outranks(tasks, handle, queue[0]) then 0
    else 1 + InsertAt(tasks, queue[1..], handle)
  }

  function Insert(queue: seq<int>, n: nat, handle: int): seq<int>
    requires n <= |queue|
  {
    queue[..n] + [handle] + queue[n..]
  }

  function Add(tasks: seq<Task>, queue: seq<int>, handle: int): seq<int> {
    if |queue| >= MAX_TASKS || !Live(tasks, handle) then queue
    else Insert(queue, InsertAt(tasks, queue, handle), handle)
  }

  function IndexIn(queue: seq<int>, handle: int): (n: nat)
    ensures n <= |queue|
    ensures handle !in queue[..n]
    ensures n < |queue| ==> queue[n] == handle
  {
    if queue == [] || queue[0] == handle then 0 else 1 + IndexIn(queue[1..], handle)
  }

  /** Only the first occurrence is removed. */
  function Remove(queue: seq<int>, handle: int): seq<int> {
    var n := IndexIn(queue, handle);
    if n < |queue| then queue[..n] + queue[n + 1..] else queue
  }

  // ---------- Selection ----------

  /** What a search's best priority so far is in a comparison with a task's priority: in an
      unsigned comparison its initial -1 is the largest 32-bit number. */
  function Compared(signed: bool, best: int): int {
    if signed || best >= 0 then best else best + 0x1_0000_0000
  }

  // The best priority the search over the queue finds, or -1.
  function Best(signed: bool, tasks: seq<Task>, queue: seq<int>): (b: int)
    ensures signed ==> forall i :: 0 <= i < |queue| && Live(tasks, queue[i]) ==> tasks[queue[i]].priority <= b
    ensures b >= -1
    ensures b >= 0 ==> exists i :: 0 <= i < |queue| && Live(tasks, queue[i]) && tasks[queue[i]].priority == b
  {
    if queue == [] then -1 else
    var last := queue[|queue| - 1];
    var rest := Best(signed, tasks, queue[..|queue| - 1]);
    if Live(tasks, last) && tasks[last].priority > Compared(signed, rest) then tasks[last].priority else rest
  }

  predicate Ranks(tasks: seq<Task>, handle: int, priority: int) {
    Live(tasks, handle) && tasks[handle].priority == priority
  }

  // The first position from `n` on that holds a live task of the priority.
  function FirstRanked(tasks: seq<Task>, queue: seq<int>, priority: int, n: nat): (i: nat)
    requires n <= |queue|
    ensures n <= i <= |queue|
    ensures forall j :: n <= j < i ==> !Ranks(tasks, queue[j], priority)
    ensures i < |queue| ==> Ranks(tasks, queue[i], priority)
    decreases |queue| - n
  {
    if n == |queue| || Ranks(tasks, queue[n], priority) then n
    else FirstRanked(tasks, queue, priority, n + 1)
  }

  /** The first task of the best priority behind the current one, else the first of the best
      priority. */
  function Select(signed: bool, tasks: seq<Task>, queue: seq<int>, current: int): int {
    var best := Compared(signed, Best(signed, tasks, queue));
    if best < 0 then NO_TASK else
    var at := IndexIn(queue, current);
    var behind := if at < |queue| && Ranks(tasks, current, best)
                  then FirstRanked(tasks, queue, best, at + 1) else |queue|;
    if behind < |queue| then queue[behind]
    else
      var first := FirstRanked(tasks, queue, best, 0);
      if first < |queue| then queue[first] else NO_TASK
  }

  // ---------- Operations ----------

  function SetState(tasks: seq<Task>, handle: int, state: TaskState): (r: seq<Task>)
    requires 0 <= handle < |tasks|
    ensures |r| == |tasks|
  {
    tasks[handle := tasks[handle].(state := state)]
  }

  function FreeSlot(tasks: seq<Task>): (n: nat)
    ensures n <= |tasks|
    ensures forall i :: 0 <= i < n ==> tasks[i].inUse
    ensures n < |tasks| ==> !tasks[n].inUse
  {
    if tasks == [] || !tasks[0].inUse then 0 else 1 + FreeSlot(tasks[1..])
  }

  // A task becomes ready and is queued.
  function MakeReady(s: Sched, handle: int): Sched
    requires 0 <= handle < |s.tasks|
  {
    var tasks := SetState(s.tasks, handle, Ready);
    s.(tasks := tasks, ready := Add(tasks, s.ready, handle))
  }

  // A task becomes ready, leaves the queue if it is there, and is queued again.
  function Requeue(s: Sched, handle: int): Sched
    requires 0 <= handle < |s.tasks|
  {
    var tasks := SetState(s.tasks, handle, Ready);
    s.(tasks := tasks, ready := Add(tasks, Remove(s.ready, handle), handle))
  }

  // A task changes state and leaves the queue.
  function Withdraw(s: Sched, handle: int, state: TaskState): Sched
    requires 0 <= handle < |s.tasks|
  {
    s.(tasks := SetState(s.tasks, handle, state), ready := Remove(s.ready, handle))
  }

  function CreateTask(s: Sched, priority: nat): Sched {
    var n := FreeSlot(s.tasks);
    if n < |s.tasks| then s.(tasks := s.tasks[n := Task(true, priority, Inactive)]) else s
  }

  function DestroyTask(s: Sched, handle: int): Sched {
    if !Live(s.tasks, handle) then s else
    Sched(s.tasks[handle := s.tasks[handle].(inUse := false)], Remove(s.ready, handle),
          if s.current == handle then NO_TASK else s.current, s.slice, s.signed)
  }

  function ChangePriority(s: Sched, handle: int, priority: nat): Sched {
    if !Live(s.tasks, handle) then s else
    var t := s.(tasks := s.tasks[handle := s.tasks[handle].(priority := priority)]);
    if t.tasks[handle].state == Ready then Requeue(t, handle) else t
  }

  function BeginRun(s: Sched): Sched {
    var next := Select(s.signed, s.tasks, s.ready, s.current);
    if s.slice >= 0 || !Live(s.tasks, next) then s
    else Withdraw(s, next, Running).(current := next, slice := next)
  }

  function EndRun(s: Sched): Sched {
    if !(0 <= s.slice < |s.tasks|) then s else
    var done := s.(current := NO_TASK, slice := NO_TASK);
    match s.tasks[s.slice].state
    case Running => done.(tasks := SetState(s.tasks, s.slice, Terminated))
    case Ready => done.(ready := Add(s.tasks, s.ready, s.slice))
    case _ => done
  }

  function Step(s: Sched, op: Op): Sched {
    match op
    case Create(priority) => CreateTask(s, priority)
    case Destroy(h) => DestroyTask(s, h)
    case Start(h) => if LiveIn(s.tasks, h, Inactive) || LiveIn(s.tasks, h, Suspended) then MakeReady(s, h) else s
    case Suspend(h) => if Live(s.tasks, h) then Withdraw(s, h, Suspended) else s
    case Resume(h) => if LiveIn(s.tasks, h, Suspended) then MakeReady(s, h) else s
    case SetPriority(h, priority) => ChangePriority(s, h, priority)
    case Yield => if LiveIn(s.tasks, s.current, Running) then Requeue(s, s.current) else s
    case Block => if Live(s.tasks, s.current) then Withdraw(s, s.current, Blocked) else s
    case Unblock(h) => if LiveIn(s.tasks, h, Blocked) then MakeReady(s, h) else s
    case Tick(expired) =>
      if expired && LiveIn(s.tasks, s.current, Running) then Requeue(s, s.current).(current := NO_TASK) else s
    case RunBegin => BeginRun(s)
    case RunEnd => EndRun(s)
  }

  function Initial(signed: bool): Sched {
    Sched(seq(MAX_TASKS, _ => Task(false, 0, Inactive)), [], NO_TASK, NO_TASK, signed)
  }

  function Run(s: Sched, ops: seq<Op>): Sched
    decreases |ops|
  {
    if ops == [] then s else Step(Run(s, ops[..|ops| - 1]), ops[|ops| - 1])
  }
}
