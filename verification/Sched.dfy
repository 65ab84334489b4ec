/**
 The scheduler and the process life cycle as a state machine on values.

 A system call runs to completion except at the yields inside waitpid, so a
 task that waits carries a program counter and every other call is one step.
 Three history fields have no counterpart in memory: `births` numbers task
 incarnations, `exits` remembers what each incarnation exited with, and
 `ledger` lists the statuses waitpid has handed out.
 */
module Sched {
  import opened Base

  const MAX_TASKS: nat := 8
  const QUEUE_CAPACITY: nat := 16

  datatype RunState = Empty | Runnable | Exited

  datatype Mode = KernelMode | UserMode

  /** Where a task is: outside waitpid, or at one of its two waiting loops. */
  datatype Pc = Outside | WaitingAny | WaitingFor(target: nat, born: nat)

  datatype Task = Task(state: RunState, mode: Mode, parent: nat, exitCode: int, born: nat, pc: Pc)

  const NoTask := Task(Empty, KernelMode, 0, 0, 0, Outside)

  /** One status handed out by waitpid. */
  datatype Receipt = Receipt(child: nat, waiter: nat, status: int)

  datatype Sched = Sched(
    tasks: seq<Task>,
    count: nat,
    current: nat,
    queue: seq<nat>,
    births: nat,
    exits: map<nat, int>,
    ledger: seq<Receipt>)

  // ---------------------------------------------------------------------
  // Operations
  // ---------------------------------------------------------------------

  function Init(): Sched {
    var idle := Task(Runnable, KernelMode, 0, 0, 0, Outside);
    var one := Task(Runnable, KernelMode, 0, 0, 1, Outside);
    Sched([idle, one] + seq(6, _ => NoTask), 2, 1, [0], 2, map[], [])
  }

  predicate Sized(s: Sched) {
    && |s.tasks| == MAX_TASKS
    && s.count <= MAX_TASKS
    && s.current < MAX_TASKS
    && forall i :: 0 <= i < |s.queue| ==> s.queue[i] < MAX_TASKS
  }

  predicate Live(tasks: seq<Task>, i: nat) {
    i < |tasks| && !tasks[i].state.Empty?
  }

  predicate Ready(tasks: seq<Task>, i: nat) {
    i < |tasks| && tasks[i].state.Runnable?
  }

  function Enqueue(queue: seq<nat>, id: nat): Outcome<seq<nat>> {
    if |queue| >= QUEUE_CAPACITY then Panic(QueueFull) else Ok(queue + [id])
  }

  /** Drop entries until a runnable task other than idle comes off the queue. */
  function Scan(tasks: seq<Task>, queue: seq<nat>): (r: (nat, seq<nat>))
    requires |tasks| == MAX_TASKS
    requires forall i :: 0 <= i < |queue| ==> queue[i] < MAX_TASKS
  {
    if queue == [] then (0, [])
    else if queue[0] != 0 && tasks[queue[0]].state.Runnable? then (queue[0], queue[1..])
    else Scan(tasks, queue[1..])
  }

  function PickNext(s: Sched): Outcome<Sched>
    requires Sized(s)
  {
    var queue :- if s.current != 0 && Ready(s.tasks, s.current)
                 then Enqueue(s.queue, s.current) else Ok(s.queue);
    var (next, rest) := Scan(s.tasks, queue);
    Ok(s.(current := next, queue := rest))
  }

  /** The first empty slot in [i, limit), or limit. */
  function FirstEmpty(tasks: seq<Task>, i: nat, limit: nat): (r: nat)
    requires i <= limit <= |tasks|
    ensures i <= r <= limit
    ensures forall j :: i <= j < r ==> !tasks[j].state.Empty?
    ensures r < limit ==> tasks[r].state.Empty?
    decreases limit - i
  {
    if i == limit || tasks[i].state.Empty? then i else FirstEmpty(tasks, i + 1, limit)
  }

  function FindFreeTaskId(s: Sched): Outcome<nat>
    requires Sized(s)
  {
    var i := FirstEmpty(s.tasks, 0, s.count);
    if i == s.count && s.count >= MAX_TASKS then Panic(TableFull) else Ok(i)
  }

  function Spawn(s: Sched): Outcome<Sched>
    requires Sized(s)
  {
    var id :- FindFreeTaskId(s);
    var child := Task(Runnable, UserMode, s.current, 0, s.births, Outside);
    var queue :- Enqueue(s.queue, id);
    Ok(s.(tasks := s.tasks[id := child],
          count := if id >= s.count then id + 1 else s.count,
          queue := queue,
          births := s.births + 1))
  }

  function ReparentTarget(s: Sched): nat {
    if s.current != 1 && s.count > 1 then 1 else 0
  }

  function Reparent(tasks: seq<Task>, count: nat, from: nat, to: nat): (r: seq<Task>)
    ensures |r| == |tasks|
  {
    seq(|tasks|, i requires 0 <= i < |tasks| =>
      if i < count && !tasks[i].state.Empty? && tasks[i].parent == from
      then tasks[i].(parent := to) else tasks[i])
  }

  function Exit(s: Sched, code: int): Outcome<Sched>
    requires Sized(s)
  {
    if s.current == 0 then Panic(IdleExit) else
    var tasks := Reparent(s.tasks, s.count, s.current, ReparentTarget(s));
    var gone := tasks[s.current].(state := Exited, exitCode := code);
    PickNext(s.(tasks := tasks[s.current := gone], exits := s.exits[gone.born := code]))
  }

  predicate IsChild(tasks: seq<Task>, i: nat, parent: nat, requireExited: bool)
    requires i < |tasks|
  {
    && !tasks[i].state.Empty?
    && tasks[i].parent == parent
    && (requireExited ==> tasks[i].state.Exited?)
  }

  /** The first matching child in [i, limit), or limit. */
  function FindChild(tasks: seq<Task>, i: nat, limit: nat, parent: nat, requireExited: bool): (r: nat)
    requires i <= limit <= |tasks|
    ensures i <= r <= limit
    ensures forall j :: i <= j < r ==> !IsChild(tasks, j, parent, requireExited)
    ensures r < limit ==> IsChild(tasks, r, parent, requireExited)
    decreases limit - i
  {
    if i == limit || IsChild(tasks, i, parent, requireExited) then i
    else FindChild(tasks, i + 1, limit, parent, requireExited)
  }

  /** The part of waitpid before its loops; an unchanged state means it returned -1. */
  function WaitBegin(s: Sched, arg: int): (r: Sched)
    requires Sized(s)
  {
    if arg < -1 || arg >= s.count || arg == s.current then s
    else if arg == -1 then
      if FindChild(s.tasks, 0, s.count, s.current, false) == s.count then s
      else s.(tasks := s.tasks[s.current := s.tasks[s.current].(pc := WaitingAny)])
    else if s.tasks[arg].state.Empty? || s.tasks[arg].parent != s.current then s
    else s.(tasks := s.tasks[s.current := s.tasks[s.current].(pc := WaitingFor(arg, s.tasks[arg].born))])
  }

  /** One past the highest non-empty slot below `count`. */
  function TrimCount(tasks: seq<Task>, count: nat): (r: nat)
    requires count <= |tasks|
    ensures r <= count
    ensures r > 0 ==> !tasks[r - 1].state.Empty?
    ensures forall j :: r <= j < count ==> tasks[j].state.Empty?
  {
    if count > 0 && tasks[count - 1].state.Empty? then TrimCount(tasks, count - 1) else count
  }

  /** The end of waitpid: hand out the status and release the slot. */
  function Reap(s: Sched, id: nat): (r: Sched)
    requires Sized(s) && id < MAX_TASKS
  {
    var waiter := s.tasks[s.current].(pc := Outside);
    var tasks := s.tasks[s.current := waiter][id := NoTask];
    var receipt := Receipt(s.tasks[id].born, waiter.born, s.tasks[id].exitCode);
    s.(tasks := tasks, count := TrimCount(tasks, s.count), ledger := s.ledger + [receipt])
  }

  /** The slot waitpid is about to reap, or None when it yields instead. */
  function Harvest(s: Sched): (r: Option<nat>)
    requires Sized(s)
    ensures r.Some? ==> r.value < MAX_TASKS && s.tasks[r.value].state.Exited?
  {
    match s.tasks[s.current].pc
    case Outside => None
    case WaitingAny =>
      var i := FindChild(s.tasks, 0, s.count, s.current, true);
      if i == s.count then None else Some(i)
    case WaitingFor(t, _) =>
      if t < MAX_TASKS && s.tasks[t].state.Exited? then Some(t) else None
  }

  function WaitPoll(s: Sched): Outcome<Sched>
    requires Sized(s)
  {
    match Harvest(s)
    case Some(id) => Ok(Reap(s, id))
    case None => PickNext(s)
  }

  // ---------------------------------------------------------------------
  // Steps and runs
  // ---------------------------------------------------------------------

  /** A step of the current task; Yield also stands for a timer preemption and a
      tick taken on the way out of a system call. */
  datatype Step = SpawnStep | ExitStep(code: int) | WaitStep(arg: int) | PollStep | YieldStep

  /** Only a poll is possible inside waitpid, since the kernel is not preempted. */
  predicate Enabled(s: Sched, step: Step)
    requires Sized(s)
  {
    step.PollStep? <==> !s.tasks[s.current].pc.Outside?
  }

  function Next(s: Sched, step: Step): Outcome<Sched>
    requires Sized(s)
  {
    match step
    case SpawnStep => Spawn(s)
    case ExitStep(code) => Exit(s, code)
    case WaitStep(arg) => Ok(WaitBegin(s, arg))
    case PollStep => WaitPoll(s)
    case YieldStep => PickNext(s)
  }

  // ---------------------------------------------------------------------
  // The invariant
  // ---------------------------------------------------------------------

  ghost predicate CountOk(tasks: seq<Task>, count: nat) {
    && count <= |tasks|
    && (count > 0 ==> Live(tasks, count - 1))
    && forall i :: count <= i < |tasks| ==> !Live(tasks, i)
  }

  /** The queue holds, besides at most one entry for idle, each runnable task
      other than idle and the current one exactly once, and nothing else. */
  ghost predicate QueueOk(tasks: seq<Task>, current: nat, queue: seq<nat>) {
    && NoDup(queue)
    && (forall i :: 0 <= i < |queue| ==>
          queue[i] == 0 || (Ready(tasks, queue[i]) && queue[i] != current))
    && (forall t :: 0 < t < |tasks| && Ready(tasks, t) && t != current ==> t in queue)
  }

  /** What scheduler_find_child looks for. A task that is its own parent, as
      idle is, is found by its own search. */
  ghost predicate HasChild(tasks: seq<Task>, i: nat) {
    exists t :: 0 <= t < |tasks| && IsChild(tasks, t, i, false)
  }

  /** A task other than i has i as its parent. */
  ghost predicate OtherChild(tasks: seq<Task>, i: nat) {
    exists t :: 0 <= t < |tasks| && t != i && IsChild(tasks, t, i, false)
  }

  predicate OwnParent(tasks: seq<Task>, i: nat) { Live(tasks, i) && tasks[i].parent == i }

  /** A waiting task's target is still the incarnation, and still its child. */
  ghost predicate WaiterOk(tasks: seq<Task>, i: nat)
    requires i < |tasks|
  {
    match tasks[i].pc
    case Outside => true
    case WaitingAny => Ready(tasks, i) && HasChild(tasks, i)
    case WaitingFor(t, born) =>
      Ready(tasks, i) && t != i && Live(tasks, t) && tasks[t].parent == i && tasks[t].born == born
  }

  ghost predicate WaitingOk(tasks: seq<Task>) {
    forall i :: 0 <= i < |tasks| ==> WaiterOk(tasks, i)
  }

  ghost predicate Zombie(tasks: seq<Task>, g: nat) {
    exists i :: 0 <= i < |tasks| && tasks[i].state.Exited? && tasks[i].born == g
  }

  ghost predicate Receipted(ledger: seq<Receipt>, g: nat) {
    exists a :: 0 <= a < |ledger| && ledger[a].child == g
  }

  /** Incarnation numbers identify live tasks, and an exited one has its code on record. */
  ghost predicate BirthsOk(tasks: seq<Task>, births: nat, exits: map<nat, int>) {
    && (forall i :: 0 <= i < |tasks| && Live(tasks, i) ==>
          && tasks[i].born < births
          && (tasks[i].born in exits <==> tasks[i].state.Exited?)
          && (tasks[i].state.Exited? ==> exits[tasks[i].born] == tasks[i].exitCode))
    && (forall i, j :: 0 <= i < j < |tasks| && Live(tasks, i) && Live(tasks, j) ==>
          tasks[i].born != tasks[j].born)
  }

  /** Each exited incarnation is a zombie or has one receipt, never both, and a
      receipt carries the incarnation's own exit code. */
  ghost predicate LedgerOk(tasks: seq<Task>, births: nat, exits: map<nat, int>, ledger: seq<Receipt>) {
    && (forall a :: 0 <= a < |ledger| ==>
          && ledger[a].child in exits
          && exits[ledger[a].child] == ledger[a].status
          && !Zombie(tasks, ledger[a].child))
    && (forall a, b :: 0 <= a < b < |ledger| ==> ledger[a].child != ledger[b].child)
    && (forall g :: g in exits ==> g < births && (Zombie(tasks, g) || Receipted(ledger, g)))
  }

  ghost predicate Inv(s: Sched) {
    && Sized(s)
    && Ready(s.tasks, 0) && s.tasks[0].mode.KernelMode? && s.tasks[0].parent == 0
    && Ready(s.tasks, s.current)
    && CountOk(s.tasks, s.count)
    && QueueOk(s.tasks, s.current, s.queue)
    && WaitingOk(s.tasks)
    && BirthsOk(s.tasks, s.births, s.exits)
    && LedgerOk(s.tasks, s.births, s.exits, s.ledger)
  }
}
