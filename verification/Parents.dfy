/**
 The parent links: a tree rooted at task 0 as long as task 1 lives, and exactly
 which exit and which reap would break it.
 */
module Parents {
  import opened Base
  import opened Sched
  import opened SchedSafety

  /** Following parent links from i arrives at task 0 within n links, over live tasks only. */
  ghost predicate ReachesRoot(tasks: seq<Task>, i: nat, n: nat)
    decreases n
  {
    Live(tasks, i) && (i == 0 || (n > 0 && ReachesRoot(tasks, tasks[i].parent, n - 1)))
  }

  ghost predicate Rooted(tasks: seq<Task>, i: nat) {
    exists n: nat :: ReachesRoot(tasks, i, n)
  }

  /** The live tasks form a tree: every chain of parents ends at task 0, so no
      live task names an empty slot as its parent. */
  ghost predicate IsTree(tasks: seq<Task>) {
    forall i :: 0 <= i < |tasks| && Live(tasks, i) ==> Rooted(tasks, i)
  }

  /** Following parent links from i meets c within n links. */
  ghost predicate Climbs(tasks: seq<Task>, i: nat, c: nat, n: nat)
    decreases n
  {
    i == c || (n > 0 && i != 0 && i < |tasks| && Climbs(tasks, tasks[i].parent, c, n - 1))
  }

  ghost predicate Under(tasks: seq<Task>, i: nat, c: nat) {
    exists n: nat :: Climbs(tasks, i, c, n)
  }

  lemma {:induction false} ReachesRootMore(tasks: seq<Task>, i: nat, n: nat, m: nat)
    requires ReachesRoot(tasks, i, n) && n <= m
    ensures ReachesRoot(tasks, i, m)
    decreases n
  {
    if i != 0 {
      ReachesRootMore(tasks, tasks[i].parent, n - 1, m - 1);
    }
  }

  // ---------------------------------------------------------------------
  // While task 1 lives
  // ---------------------------------------------------------------------

  /** Every task's parent is running and older; task 1 is the one boot made. */
  ghost predicate FamilyOk(tasks: seq<Task>) {
    && |tasks| == MAX_TASKS
    && Ready(tasks, 0) && tasks[0].born == 0
    && Ready(tasks, 1) && tasks[1].born == 1 && tasks[1].parent == 0 && tasks[1].mode.KernelMode?
    && (forall i :: 0 < i < |tasks| && Live(tasks, i) ==>
          Ready(tasks, tasks[i].parent) && tasks[tasks[i].parent].born < tasks[i].born)
  }

  lemma {:induction false} OlderParentsReachRoot(tasks: seq<Task>, i: nat)
    requires FamilyOk(tasks) && Live(tasks, i)
    ensures ReachesRoot(tasks, i, tasks[i].born)
    decreases tasks[i].born
  {
    if i != 0 {
      var p := tasks[i].parent;
      OlderParentsReachRoot(tasks, p);
      ReachesRootMore(tasks, p, tasks[p].born, tasks[i].born - 1);
    }
  }

  lemma FamilyIsTree(tasks: seq<Task>)
    requires FamilyOk(tasks)
    ensures IsTree(tasks)
  {
    forall i | 0 <= i < |tasks| && Live(tasks, i)
      ensures Rooted(tasks, i)
    {
      OlderParentsReachRoot(tasks, i);
    }
  }

  lemma FamilyStep(s: Sched, step: Step)
    requires Inv(s) && Enabled(s, step) && Next(s, step).Ok?
    requires FamilyOk(s.tasks)
    requires step.ExitStep? ==> s.current != 1
    ensures FamilyOk(Next(s, step).value.tasks)
  {
    TasksAfter(s, step);
    match step
    case SpawnStep => SpawnFamilyOk(s.tasks, s.births, s.exits, FindFreeTaskId(s).value, s.current);
    case ExitStep(code) => DepartedFamilyOk(s, code);
    case WaitStep(arg) => WaitFamilyOk(s.tasks, WaitBegin(s, arg).tasks);
    case PollStep =>
      if Harvest(s).Some? {
        ReapFamilyOk(s, Harvest(s).value);
      }
    case YieldStep =>
  }

  lemma SpawnFamilyOk(a: seq<Task>, births: nat, exits: map<nat, int>, id: nat, parent: nat)
    requires FamilyOk(a) && BirthsOk(a, births, exits)
    requires 0 < id < |a| && !Live(a, id) && Ready(a, parent)
    ensures FamilyOk(a[id := Task(Runnable, UserMode, parent, 0, births, Outside)])
  {
    assert Live(a, parent) && Live(a, 1);
  }

  lemma WaitFamilyOk(a: seq<Task>, b: seq<Task>)
    requires FamilyOk(a) && |a| == |b|
    requires forall i :: 0 <= i < |a| ==> b[i] == a[i].(pc := b[i].pc)
    ensures FamilyOk(b)
  {
  }

  lemma ReapFamilyOk(s: Sched, t: nat)
    requires Inv(s) && FamilyOk(s.tasks) && t < MAX_TASKS && s.tasks[t].state.Exited?
    ensures FamilyOk(Reap(s, t).tasks)
  {
    ReapShape(s, t);
    var d := Reap(s, t).tasks;
    forall i | 0 < i < |d| && Live(d, i)
      ensures Ready(d, d[i].parent) && d[d[i].parent].born < d[i].born
    {
      assert Live(s.tasks, i);
    }
  }

  lemma DepartedFamilyOk(s: Sched, code: int)
    requires Inv(s) && FamilyOk(s.tasks) && s.current != 0 && s.current != 1
    ensures FamilyOk(Departed(s, code).tasks)
  {
    DepartedShape(s, code);
    var d := Departed(s, code).tasks;
    forall i | 0 < i < |d| && Live(d, i)
      ensures Ready(d, d[i].parent) && d[d[i].parent].born < d[i].born
    {
      assert Live(s.tasks, i) && Live(s.tasks, s.current) && Live(s.tasks, 1) && Live(s.tasks, 0);
      assert i < s.count;
      assert s.tasks[i].parent == s.current ==> d[i].parent == 1;
    }
  }

  lemma InitFamily()
    ensures FamilyOk(Init().tasks)
  {
    var a := Init().tasks;
    assert a[0].born == 0 && a[1].born == 1;
    assert forall i :: 2 <= i < MAX_TASKS ==> a[i] == NoTask;
  }

  /** In every run in which task 1 does not exit, the parent links are a tree,
      every parent is a running task, and task_count is one past the highest
      non-empty slot. */
  lemma {:induction false} RunIsTree(states: seq<Sched>, steps: seq<Step>, n: nat)
    requires IsRun(states, steps) && n < |states| && states[0] == Init()
    requires forall i :: 0 <= i < n && steps[i].ExitStep? ==> states[i].current != 1
    ensures FamilyOk(states[n].tasks) && IsTree(states[n].tasks) && CountOk(states[n].tasks, states[n].count)
  {
    InitInv();
    RunKeeps(states, steps, n);
    if n == 0 {
      InitFamily();
    } else {
      RunIsTree(states, steps, n - 1);
      RunKeeps(states, steps, n - 1);
      FamilyStep(states[n - 1], steps[n - 1]);
    }
    FamilyIsTree(states[n].tasks);
  }

  // ---------------------------------------------------------------------
  // In general
  // ---------------------------------------------------------------------

  /** Exactly the exits that leave a tree: there is nobody to reparent, or the
      children go to idle, or they go to a live task 1 that is not below them. */
  ghost predicate ExitIsSafe(s: Sched) {
    || !HasChild(s.tasks, s.current)
    || s.current == 1
    || (Live(s.tasks, 1) && !Under(s.tasks, 1, s.current))
  }

  /** How the links change when children of c move to `to`. */
  ghost predicate Moved(a: seq<Task>, b: seq<Task>, c: nat, to: nat) {
    && |a| == |b|
    && (forall i :: 0 <= i < |a| ==> (Live(a, i) <==> Live(b, i)))
    && (forall i :: 0 <= i < |a| && Live(a, i) ==> b[i].parent == if a[i].parent == c then to else a[i].parent)
  }

  lemma {:induction false} ChainAvoiding(a: seq<Task>, b: seq<Task>, c: nat, to: nat, i: nat, n: nat)
    requires Moved(a, b, c, to) && ReachesRoot(a, i, n) && !Under(a, i, c)
    ensures ReachesRoot(b, i, n)
    decreases n
  {
    if i != 0 {
      var p := a[i].parent;
      forall m: nat
        ensures !Climbs(a, p, c, m)
      {
        assert !Climbs(a, i, c, m + 1);
      }
      assert !Climbs(a, p, c, 0);
      ChainAvoiding(a, b, c, to, p, n - 1);
    }
  }

  lemma {:induction false} ChainVia(a: seq<Task>, b: seq<Task>, c: nat, to: nat, i: nat, n: nat, m: nat)
    requires Moved(a, b, c, to) && ReachesRoot(a, i, n) && ReachesRoot(b, to, m)
    ensures ReachesRoot(b, i, n + m)
    decreases n
  {
    if i != 0 {
      if a[i].parent == c {
        ReachesRootMore(b, to, m, n + m - 1);
      } else {
        ChainVia(a, b, c, to, a[i].parent, n - 1, m);
      }
    }
  }

  /** If the new parent was below c, its chain now runs in a circle. */
  lemma {:induction false} ChainLoops(a: seq<Task>, b: seq<Task>, c: nat, to: nat, i: nat, k: nat, n: nat)
    requires Moved(a, b, c, to) && c != 0 && to != c && Under(a, to, c)
    requires i != c && Climbs(a, i, c, k)
    ensures !ReachesRoot(b, i, n)
    decreases n
  {
    if ReachesRoot(b, i, n) && n > 0 {
      if a[i].parent == c {
        var m: nat :| Climbs(a, to, c, m);
        ChainLoops(a, b, c, to, to, m, n - 1);
      } else {
        ChainLoops(a, b, c, to, a[i].parent, k - 1, n - 1);
      }
    }
  }

  lemma DepartedMoved(s: Sched, code: int)
    requires Inv(s) && s.current != 0
    ensures Moved(s.tasks, Departed(s, code).tasks, s.current, if s.current == 1 then 0 else 1)
    ensures Exit(s, code).Ok? ==> Exit(s, code).value.tasks == Departed(s, code).tasks
  {
    DepartedShape(s, code);
    assert Live(s.tasks, s.current) && s.current < s.count;
    assert forall i :: 0 <= i < MAX_TASKS && Live(s.tasks, i) ==> i < s.count;
  }

  /** Exit turns a tree into a tree exactly when it is safe. */
  lemma ExitKeepsTreeIff(s: Sched, code: int)
    requires Inv(s) && s.tasks[s.current].pc.Outside? && s.current != 0
    requires IsTree(s.tasks)
    ensures Exit(s, code).Ok?
    ensures IsTree(Exit(s, code).value.tasks) <==> ExitIsSafe(s)
  {
    ExitKeeps(s, code);
    DepartedMoved(s, code);
    if ExitIsSafe(s) {
      SafeExitKeepsTree(s, code);
    } else {
      UnsafeExitBreaksTree(s, code);
    }
  }

  lemma SafeExitKeepsTree(s: Sched, code: int)
    requires Inv(s) && s.current != 0 && IsTree(s.tasks) && ExitIsSafe(s)
    ensures IsTree(Departed(s, code).tasks)
  {
    DepartedMoved(s, code);
    var a, b, c := s.tasks, Departed(s, code).tasks, s.current;
    var to := if c == 1 then 0 else 1;
    if !HasChild(a, c) {
      forall i | 0 <= i < |b| && Live(b, i)
        ensures Rooted(b, i)
      {
        assert Rooted(a, i);
        var n: nat :| ReachesRoot(a, i, n);
        assert Moved(a, b, c, 0) by {
          forall j | 0 <= j < |a| && Live(a, j)
            ensures a[j].parent != c
          {
            assert !IsChild(a, j, c, false);
          }
        }
        ChainVia(a, b, c, 0, i, n, 0);
      }
    } else {
      assert Rooted(a, to);
      var m: nat :| ReachesRoot(a, to, m);
      if c != 1 {
        ChainAvoiding(a, b, c, to, to, m);
      }
      forall i | 0 <= i < |b| && Live(b, i)
        ensures Rooted(b, i)
      {
        assert Rooted(a, i);
        var n: nat :| ReachesRoot(a, i, n);
        ChainVia(a, b, c, to, i, n, m);
      }
    }
  }

  lemma UnsafeExitBreaksTree(s: Sched, code: int)
    requires Inv(s) && s.current != 0 && IsTree(s.tasks) && !ExitIsSafe(s)
    ensures !IsTree(Departed(s, code).tasks)
  {
    DepartedMoved(s, code);
    var a, b, c := s.tasks, Departed(s, code).tasks, s.current;
    var d :| 0 <= d < |a| && IsChild(a, d, c, false);
    assert Live(b, d) && d != 0 && b[d].parent == 1;
    if !Live(a, 1) {
      assert forall n: nat :: !ReachesRoot(b, d, n);
      assert !Rooted(b, d);
    } else {
      var m: nat :| Climbs(a, 1, c, m);
      forall n: nat
        ensures !ReachesRoot(b, 1, n)
      {
        ChainLoops(a, b, c, 1, 1, m, n);
      }
      assert Live(b, 1) && !Rooted(b, 1);
    }
  }

  /** Releasing a slot keeps the tree exactly when no live task names it as parent. */
  lemma ReapKeepsTreeIff(s: Sched, t: nat)
    requires Inv(s) && IsTree(s.tasks) && 0 < t < MAX_TASKS && Live(s.tasks, t) && t != s.current
    ensures IsTree(Reap(s, t).tasks) <==> !HasChild(s.tasks, t)
  {
    var a, b := s.tasks, Reap(s, t).tasks;
    ReapShape(s, t);
    if HasChild(a, t) {
      var d :| 0 <= d < |a| && IsChild(a, d, t, false);
      assert Rooted(a, t);
      var m: nat :| ReachesRoot(a, t, m);
      assert a[t].parent == t ==> !ReachesRoot(a, t, m) by { SelfParentUnrooted(a, t, m); }
      assert Live(b, d) && b[d].parent == t && d != 0;
      assert forall n: nat :: !ReachesRoot(b, d, n);
      assert !Rooted(b, d);
    } else {
      forall i | 0 <= i < |b| && Live(b, i)
        ensures Rooted(b, i)
      {
        assert Live(a, i) && Rooted(a, i);
        var n: nat :| ReachesRoot(a, i, n);
        ChainSkips(a, b, t, i, n);
      }
    }
  }

  lemma {:induction false} SelfParentUnrooted(a: seq<Task>, t: nat, n: nat)
    requires 0 < t < |a|
    ensures a[t].parent == t ==> !ReachesRoot(a, t, n)
  {
    if n > 0 {
      SelfParentUnrooted(a, t, n - 1);
    }
  }

  lemma {:induction false} ChainSkips(a: seq<Task>, b: seq<Task>, t: nat, i: nat, n: nat)
    requires |a| == |b| && !HasChild(a, t) && i != t && ReachesRoot(a, i, n)
    requires forall j :: 0 <= j < |a| && j != t ==> b[j].state == a[j].state && b[j].parent == a[j].parent
    ensures ReachesRoot(b, i, n)
    decreases n
  {
    if i != 0 {
      assert !IsChild(a, i, t, false);
      ChainSkips(a, b, t, a[i].parent, n - 1);
    }
  }

  // ---------------------------------------------------------------------
  // Every step and every run
  // ---------------------------------------------------------------------

  /** Chains over tasks that stay live with the same parent stay. */
  lemma {:induction false} ChainKept(a: seq<Task>, b: seq<Task>, i: nat, n: nat)
    requires |a| == |b| && ReachesRoot(a, i, n)
    requires forall j :: 0 <= j < |a| && Live(a, j) ==> Live(b, j) && b[j].parent == a[j].parent
    ensures ReachesRoot(b, i, n)
    decreases n
  {
    if i != 0 {
      ChainKept(a, b, a[i].parent, n - 1);
    }
  }

  /** A tree with perhaps one leaf more is a tree. */
  lemma GrownTree(a: seq<Task>, b: seq<Task>, leaf: nat)
    requires |a| == |b| && IsTree(a) && leaf < |b|
    requires forall j :: 0 <= j < |a| && Live(a, j) ==> Live(b, j) && b[j].parent == a[j].parent
    requires forall j :: 0 <= j < |b| && j != leaf && Live(b, j) ==> Live(a, j)
    requires Live(b, leaf) ==> Live(a, b[leaf].parent)
    ensures IsTree(b)
  {
    forall i | 0 <= i < |b| && Live(b, i)
      ensures Rooted(b, i)
    {
      if i == leaf {
        var p := b[leaf].parent;
        assert Rooted(a, p);
        var n: nat :| ReachesRoot(a, p, n);
        ChainKept(a, b, p, n);
        assert ReachesRoot(b, i, n + 1);
      } else {
        assert Rooted(a, i);
        var n: nat :| ReachesRoot(a, i, n);
        ChainKept(a, b, i, n);
      }
    }
  }

  /** The step is no exit and no reap that breaks the tree. */
  ghost predicate TreeSafe(s: Sched, step: Step)
    requires Sized(s)
  {
    && (step.ExitStep? ==> ExitIsSafe(s))
    && (step.PollStep? && Harvest(s).Some? ==> !HasChild(s.tasks, Harvest(s).value))
  }

  /** A step turns a tree into a tree exactly when it is safe. */
  lemma TreeStep(s: Sched, step: Step)
    requires Inv(s) && IsTree(s.tasks) && Enabled(s, step) && Next(s, step).Ok?
    ensures IsTree(Next(s, step).value.tasks) <==> TreeSafe(s, step)
  {
    TasksAfter(s, step);
    match step
    case SpawnStep =>
      GrownTree(s.tasks, Next(s, step).value.tasks, FindFreeTaskId(s).value);
    case ExitStep(code) =>
      ExitKeepsTreeIff(s, code);
    case WaitStep(arg) =>
      GrownTree(s.tasks, WaitBegin(s, arg).tasks, 0);
    case PollStep =>
      if Harvest(s).Some? {
        HarvestIsChild(s);
        ReapKeepsTreeIff(s, Harvest(s).value);
      }
    case YieldStep =>
  }

  lemma InitIsTree()
    ensures IsTree(Init().tasks)
  {
    var a := Init().tasks;
    assert ReachesRoot(a, 0, 0) && ReachesRoot(a, 1, 1);
    assert forall i :: 2 <= i < MAX_TASKS ==> a[i] == NoTask;
  }

  lemma {:induction false} SafeRunIsTree(states: seq<Sched>, steps: seq<Step>, n: nat)
    requires IsRun(states, steps) && n < |states| && states[0] == Init()
    requires forall i :: 0 <= i < n ==> TreeSafe(states[i], steps[i])
    ensures IsTree(states[n].tasks)
  {
    InitInv();
    InitIsTree();
    if n > 0 {
      SafeRunIsTree(states, steps, n - 1);
      RunKeeps(states, steps, n - 1);
      assert Next(states[n - 1], steps[n - 1]) == Ok(states[n]);
      TreeStep(states[n - 1], steps[n - 1]);
    }
  }

  /** A run from boot keeps the tree in every state exactly when no exit hands
      children to a task 1 that is gone or below the exiting task, and nobody is
      reaped while a live task still names it as parent. */
  lemma RunIsTreeIff(states: seq<Sched>, steps: seq<Step>)
    requires IsRun(states, steps) && states[0] == Init()
    ensures (forall n :: 0 <= n < |states| ==> IsTree(states[n].tasks))
       <==> (forall i :: 0 <= i < |steps| ==> TreeSafe(states[i], steps[i]))
  {
    InitInv();
    if forall i :: 0 <= i < |steps| ==> TreeSafe(states[i], steps[i]) {
      forall n | 0 <= n < |states|
        ensures IsTree(states[n].tasks)
      {
        SafeRunIsTree(states, steps, n);
      }
    }
    if forall n :: 0 <= n < |states| ==> IsTree(states[n].tasks) {
      forall i | 0 <= i < |steps|
        ensures TreeSafe(states[i], steps[i])
      {
        RunKeeps(states, steps, i);
        assert Next(states[i], steps[i]) == Ok(states[i + 1]);
        TreeStep(states[i], steps[i]);
      }
    }
  }

  // The run in which the tree is lost: task 1 exits, an orphan is then handed
  // to the dead task 1, and idle reaps task 1.

  const IDLE := Task(Runnable, KernelMode, 0, 0, 0, Outside)
  const DEAD1 := Task(Exited, KernelMode, 0, 0, 1, Outside)
  const TWO := Task(Runnable, UserMode, 1, 0, 2, Outside)
  const DEAD2 := Task(Exited, UserMode, 0, 0, 2, Outside)
  const THREE := Task(Runnable, UserMode, 2, 0, 3, Outside)
  const DEAD3 := Task(Exited, UserMode, 1, 0, 3, Outside)

  function Table(a: Task, b: Task, c: Task, d: Task): seq<Task> {
    [a, b, c, d, NoTask, NoTask, NoTask, NoTask]
  }

  const AFTER_SPAWN := Sched(Table(IDLE, Init().tasks[1], TWO, NoTask), 3, 1, [0, 2], 3, map[], [])
  const ONE_GONE := Sched(Table(IDLE, DEAD1, TWO.(parent := 0), NoTask), 3, 2, [], 3, map[1 := 0], [])
  const GRANDCHILD := Sched(Table(IDLE, DEAD1, TWO.(parent := 0), THREE), 4, 2, [3], 4, map[1 := 0], [])
  const ORPHANED := Sched(Table(IDLE, DEAD1, DEAD2, THREE.(parent := 1)), 4, 3, [], 4, map[1 := 0, 2 := 0], [])
  const ALL_GONE := Sched(Table(IDLE, DEAD1, DEAD2, DEAD3), 4, 0, [], 4, map[1 := 0, 2 := 0, 3 := 0], [])
  const IDLE_WAITS := ALL_GONE.(tasks := Table(IDLE.(pc := WaitingFor(1, 1)), DEAD1, DEAD2, DEAD3))

  lemma FirstSpawn()
    ensures Next(Init(), SpawnStep) == Ok(AFTER_SPAWN)
  {
    var s := Init();
    assert FirstEmpty(s.tasks, 0, 2) == FirstEmpty(s.tasks, 1, 2) == 2;
    assert s.tasks[2 := TWO] == AFTER_SPAWN.tasks && s.queue + [2] == AFTER_SPAWN.queue;
  }

  lemma OneExits()
    ensures Next(AFTER_SPAWN, ExitStep(0)) == Ok(ONE_GONE)
  {
    assert Departed(AFTER_SPAWN, 0).tasks == ONE_GONE.tasks;
    assert [0, 2][1..] == [2] && [2][1..] == [];
    assert Scan(ONE_GONE.tasks, [0, 2]) == Scan(ONE_GONE.tasks, [2]) == (2, []);
  }

  lemma SecondSpawn()
    ensures Next(ONE_GONE, SpawnStep) == Ok(GRANDCHILD)
  {
    var s := ONE_GONE;
    assert FirstEmpty(s.tasks, 0, 3) == FirstEmpty(s.tasks, 1, 3) == FirstEmpty(s.tasks, 2, 3) == 3;
    assert s.tasks[3 := THREE] == GRANDCHILD.tasks && s.queue + [3] == GRANDCHILD.queue;
  }

  lemma OthersExit()
    ensures Next(GRANDCHILD, ExitStep(0)) == Ok(ORPHANED)
    ensures Next(ORPHANED, ExitStep(0)) == Ok(ALL_GONE)
  {
    assert Departed(GRANDCHILD, 0).tasks == ORPHANED.tasks;
    assert Departed(GRANDCHILD, 0).exits == ORPHANED.exits;
    assert [3][1..] == [];
    assert Scan(ORPHANED.tasks, [3]) == (3, []);
    assert Departed(ORPHANED, 0).tasks == ALL_GONE.tasks;
    assert Departed(ORPHANED, 0).exits == ALL_GONE.exits;
  }

  lemma IdleReapsOne()
    ensures Next(ALL_GONE, WaitStep(1)) == Ok(IDLE_WAITS)
    ensures Next(IDLE_WAITS, PollStep) == Ok(Reap(IDLE_WAITS, 1))
    ensures !IsTree(Reap(IDLE_WAITS, 1).tasks)
  {
    assert ALL_GONE.tasks[0 := IDLE.(pc := WaitingFor(1, 1))] == IDLE_WAITS.tasks;
    var b := Reap(IDLE_WAITS, 1).tasks;
    assert b[3] == DEAD3 && b[1] == NoTask;
    assert forall n: nat :: !ReachesRoot(b, 3, n);
    assert Live(b, 3) && !Rooted(b, 3);
  }

  /** A run of the code in which the parent links stop being a tree. */
  lemma TreeCanBreak() returns (states: seq<Sched>, steps: seq<Step>)
    ensures IsRun(states, steps) && states[0] == Init()
    ensures !IsTree(states[|steps|].tasks)
  {
    FirstSpawn();
    states, steps := ExtendRun([Init()], [], SpawnStep, AFTER_SPAWN);
    OneExits();
    states, steps := ExtendRun(states, steps, ExitStep(0), ONE_GONE);
    SecondSpawn();
    states, steps := ExtendRun(states, steps, SpawnStep, GRANDCHILD);
    OthersExit();
    states, steps := ExtendRun(states, steps, ExitStep(0), ORPHANED);
    states, steps := ExtendRun(states, steps, ExitStep(0), ALL_GONE);
    IdleReapsOne();
    states, steps := ExtendRun(states, steps, WaitStep(1), IDLE_WAITS);
    states, steps := ExtendRun(states, steps, PollStep, Reap(IDLE_WAITS, 1));
  }

  lemma ExtendRun(states: seq<Sched>, steps: seq<Step>, step: Step, s: Sched)
    returns (states': seq<Sched>, steps': seq<Step>)
    requires IsRun(states, steps) && Sized(s)
    requires Enabled(states[|steps|], step) && Next(states[|steps|], step) == Ok(s)
    ensures IsRun(states', steps') && states'[0] == states[0] && states'[|steps'|] == s
  {
    states', steps' := states + [s], steps + [step];
  }
}
