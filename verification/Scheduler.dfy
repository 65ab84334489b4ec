/**
 The scheduler in place: the ring-buffer ready queue and the task table, each
 operation proved to take the step that module Sched specifies.
 */
module Scheduler {
  import opened Base
  import opened Sched
  import Spec = Sched

  /** Sixteen slots addressed modulo sixteen by two counters that only grow. */
  class ReadyQueue {
    const slots: array<nat>
    var head: nat
    var tail: nat

    ghost predicate Valid()
      reads this
    {
      slots.Length == QUEUE_CAPACITY && head <= tail <= head + QUEUE_CAPACITY
    }

    /** The live window, oldest entry first. */
    ghost function View(): (s: seq<nat>)
      requires Valid()
      reads this, slots
    {
      seq(tail - head, i requires 0 <= i < tail - head reads this, slots requires Valid() =>
        slots[(head + i) % QUEUE_CAPACITY])
    }

    constructor ()
      ensures Valid() && View() == [] && fresh(slots)
    {
      slots := new nat[QUEUE_CAPACITY](_ => 0);
      head, tail := 0, 0;
    }

    method Enqueue(id: nat) returns (r: Outcome<()>)
      requires Valid()
      modifies this, slots
      ensures Valid()
      ensures r.Ok? <==> Spec.Enqueue(old(View()), id).Ok?
      ensures r.Ok? ==> View() == Spec.Enqueue(old(View()), id).value
      ensures r.Panic? ==> r == Spec.Enqueue(old(View()), id).PropagateFailure()
    {
      if tail - head >= QUEUE_CAPACITY {
        return Panic(QueueFull);
      }
      ghost var before := View();
      var at := tail % QUEUE_CAPACITY;
      slots[at] := id;
      tail := tail + 1;
      forall i | 0 <= i < |before|
        ensures View()[i] == before[i]
      {
        assert (head + i) % QUEUE_CAPACITY != at by { DifferentSlots(head + i, tail - 1); }
      }
      assert View() == before + [id];
      r := Ok(());
    }

    static lemma DifferentSlots(a: nat, b: nat)
      requires a < b < a + QUEUE_CAPACITY
      ensures a % QUEUE_CAPACITY != b % QUEUE_CAPACITY
    {
    }

    /** The oldest entry, or idle when the window is empty. */
    method Dequeue() returns (id: nat)
      requires Valid()
      modifies this
      ensures Valid()
      ensures old(View()) == [] ==> id == 0 && View() == []
      ensures old(View()) != [] ==> id == old(View())[0] && View() == old(View())[1..]
    {
      if tail - head == 0 {
        return 0;
      }
      id := slots[head % QUEUE_CAPACITY];
      head := head + 1;
    }
  }

  class TaskTable {
    const tasks: array<Task>
    const queue: ReadyQueue
    var count: nat
    var current: nat
    // The history fields of module Sched; the code has no counterpart of them.
    var births: nat
    var exits: map<nat, int>
    var ledger: seq<Receipt>

    ghost function State(): (s: Sched)
      requires queue.Valid()
      reads this, tasks, queue, queue.slots
    {
      Sched(tasks[..], count, current, queue.View(), births, exits, ledger)
    }

    ghost predicate Valid()
      reads this, tasks, queue, queue.slots
    {
      queue.Valid() && tasks.Length == MAX_TASKS && Sized(State())
    }

    /** Boot: idle and task 1 are runnable, task 1 is current, idle is queued. */
    constructor ()
      ensures Valid() && State() == Init()
      ensures fresh(tasks) && fresh(queue) && fresh(queue.slots)
    {
      tasks := new Task[MAX_TASKS](_ => NoTask);
      queue := new ReadyQueue();
      count, current, births, exits, ledger := 2, 1, 2, map[], [];
      new;
      tasks[0] := Task(Runnable, KernelMode, 0, 0, 0, Outside);
      tasks[1] := Task(Runnable, KernelMode, 0, 0, 1, Outside);
      var _ := queue.Enqueue(0);
      assert tasks[..] == Init().tasks;
    }

    method FindFree() returns (r: Outcome<nat>)
      requires Valid()
      ensures r == FindFreeTaskId(State())
    {
      var id := 0;
      while id < count
        invariant id <= count
        invariant FirstEmpty(tasks[..], 0, count) == FirstEmpty(tasks[..], id, count)
      {
        if tasks[id].state.Empty? {
          return Ok(id);
        }
        id := id + 1;
      }
      if count >= MAX_TASKS {
        return Panic(TableFull);
      }
      return Ok(count);
    }

    /** The scan of scheduler_pick_next_task: entries are dropped until one is runnable. */
    method TakeRunnable() returns (next: nat)
      requires queue.Valid() && tasks.Length == MAX_TASKS
      requires forall i :: 0 <= i < |queue.View()| ==> queue.View()[i] < MAX_TASKS
      modifies queue
      ensures queue.Valid() && (next, queue.View()) == Scan(tasks[..], old(queue.View()))
      ensures next < MAX_TASKS && forall i :: 0 <= i < |queue.View()| ==> queue.View()[i] < MAX_TASKS
    {
      ghost var full := queue.View();
      var attempts := queue.tail - queue.head + 1;
      next := 0;
      while attempts > 0
        invariant queue.Valid() && next == 0
        invariant attempts == |queue.View()| + 1 || (attempts == 0 && queue.View() == [])
        invariant forall i :: 0 <= i < |queue.View()| ==> queue.View()[i] < MAX_TASKS
        invariant Scan(tasks[..], full) == Scan(tasks[..], queue.View())
        decreases attempts
      {
        ghost var window := queue.View();
        var candidate := queue.Dequeue();
        if candidate == 0 {
          attempts := attempts - 1;
          continue;
        }
        if tasks[candidate].state.Runnable? {
          next := candidate;
          break;
        }
        attempts := attempts - 1;
      }
    }

    /** scheduler_pick_next_task, with its bounded number of attempts. */
    method PickNextTask() returns (r: Outcome<nat>)
      requires Valid()
      modifies this, queue, queue.slots
      ensures queue.Valid()
      ensures r.Ok? <==> PickNext(old(State())).Ok?
      ensures r.Ok? ==> Valid() && State() == PickNext(old(State())).value && r.value == current
    {
      if current != 0 && tasks[current].state.Runnable? {
        var e := queue.Enqueue(current);
        if e.Panic? {
          return Panic(e.fault);
        }
      }
      var next := TakeRunnable();
      current := next;
      r := Ok(next);
    }

    /** The scheduler's part of creating a task: claim a slot, fill it, queue it. */
    method CreateTask() returns (r: Outcome<nat>)
      requires Valid()
      modifies this, tasks, queue, queue.slots
      ensures r.Ok? <==> Spawn(old(State())).Ok?
      ensures r.Ok? ==> Valid() && State() == Spawn(old(State())).value
                        && r == FindFreeTaskId(old(State()))
    {
      r := FindFree();
      if r.Panic? {
        return;
      }
      var id := r.value;
      tasks[id] := Task(Runnable, UserMode, current, 0, births, Outside);
      births := births + 1;
      if id >= count {
        count := id + 1;
      }
      var e := queue.Enqueue(id);
      if e.Panic? {
        r := Panic(e.fault);
      }
      assert r.Ok? ==> tasks[..] == Spawn(old(State())).value.tasks;
    }

    method ReparentChildren(from: nat, to: nat)
      requires Valid()
      modifies tasks
      ensures Valid()
      ensures State() == old(State()).(tasks := Reparent(old(State()).tasks, count, from, to))
    {
      var id := 0;
      while id < count
        invariant id <= count
        invariant forall i :: 0 <= i < MAX_TASKS ==>
                    tasks[i] == if i < id then Reparent(old(tasks[..]), count, from, to)[i] else old(tasks[i])
      {
        if !tasks[id].state.Empty? {
          if tasks[id].parent == from {
            tasks[id] := tasks[id].(parent := to);
          }
        }
        id := id + 1;
      }
      assert tasks[..] == Reparent(old(tasks[..]), count, from, to);
    }

    method ExitCurrentTask(code: int) returns (r: Outcome<nat>)
      requires Valid()
      modifies this, tasks, queue, queue.slots
      ensures r.Ok? <==> Exit(old(State()), code).Ok?
      ensures r.Ok? ==> Valid() && State() == Exit(old(State()), code).value && r.value == current
    {
      if current == 0 {
        return Panic(IdleExit);
      }
      ReparentChildren(current, if current != 1 && count > 1 then 1 else 0);
      tasks[current] := tasks[current].(state := Exited, exitCode := code);
      exits := exits[tasks[current].born := code];
      r := PickNextTask();
    }

    method FindChildOf(parent: nat, requireExited: bool) returns (id: nat)
      requires Valid()
      ensures id == FindChild(State().tasks, 0, count, parent, requireExited)
    {
      id := 0;
      while id < count
        invariant id <= count
        invariant FindChild(tasks[..], 0, count, parent, requireExited)
               == FindChild(tasks[..], id, count, parent, requireExited)
      {
        if !tasks[id].state.Empty? {
          if tasks[id].parent == parent {
            if !requireExited || tasks[id].state.Exited? {
              return;
            }
          }
        }
        id := id + 1;
      }
    }

    /** waitpid up to its first loop; false stands for returning -1. */
    method WaitEnter(arg: int) returns (accepted: bool)
      requires Valid() && tasks[current].pc.Outside?
      modifies tasks
      ensures Valid() && State() == WaitBegin(old(State()), arg)
      ensures accepted <==> State() != old(State())
    {
      if arg < -1 || arg >= count || arg == current {
        return false;
      }
      if arg == -1 {
        var child := FindChildOf(current, false);
        if child == count {
          return false;
        }
        tasks[current] := tasks[current].(pc := WaitingAny);
      } else {
        if tasks[arg].state.Empty? || tasks[arg].parent != current {
          return false;
        }
        tasks[current] := tasks[current].(pc := WaitingFor(arg, tasks[arg].born));
      }
      assert State().tasks[current] != old(State()).tasks[current];
      assert tasks[..] == WaitBegin(old(State()), arg).tasks;
      accepted := true;
    }

    /** Empty the slot and lower the count past the empty slots at its end. */
    method ReleaseTaskSlot(id: nat)
      requires Valid() && id < MAX_TASKS
      modifies this`count, tasks
      ensures Valid()
      ensures var cleared := old(State()).tasks[id := NoTask];
              State() == old(State()).(tasks := cleared, count := TrimCount(cleared, old(count)))
    {
      tasks[id] := NoTask;
      var n := count;
      while n > 0
        invariant 0 <= n <= count
        invariant TrimCount(tasks[..], count) == TrimCount(tasks[..], n)
      {
        if !tasks[n - 1].state.Empty? {
          break;
        }
        n := n - 1;
      }
      count := n;
    }

    /** One turn of waitpid's loops: hand out a status, or yield. */
    method WaitTurn() returns (r: Outcome<Option<int>>)
      requires Valid()
      modifies this, tasks, queue, queue.slots
      ensures r.Ok? <==> WaitPoll(old(State())).Ok?
      ensures r.Ok? ==> Valid() && State() == WaitPoll(old(State())).value
      ensures r.Ok? && Harvest(old(State())).Some? ==>
                r.value == Some(old(State()).tasks[Harvest(old(State())).value].exitCode)
      ensures r.Ok? && Harvest(old(State())).None? ==> r.value.None?
    {
      var target := MAX_TASKS;
      match tasks[current].pc {
        case Outside =>
        case WaitingAny =>
          var child := FindChildOf(current, true);
          if child != count {
            target := child;
          }
        case WaitingFor(t, _) =>
          if t < MAX_TASKS && tasks[t].state.Exited? {
            target := t;
          }
      }
      if target == MAX_TASKS {
        var p := PickNextTask();
        return if p.Ok? then Ok(None) else Panic(p.fault);
      }
      var status := tasks[target].exitCode;
      ledger := ledger + [Receipt(tasks[target].born, tasks[current].born, status)];
      tasks[current] := tasks[current].(pc := Outside);
      ReleaseTaskSlot(target);
      assert tasks[..] == Reap(old(State()), target).tasks;
      r := Ok(Some(status));
    }
  }
}
