/**
 What waitpid and the ready queue promise over every interleaving: a waiter is
 handed its own child's exit code once, and a runnable task is soon chosen.
 */
module Waiting {
  import opened Base
  import opened Sched
  import opened SchedSafety
  import Parents

  // ---------------------------------------------------------------------
  // waitpid
  // ---------------------------------------------------------------------

  /** Task w, incarnation `born`, waits for incarnation g in slot t, which is its child. */
  ghost predicate WaitsFor(s: Sched, w: nat, born: nat, t: nat, g: nat) {
    && Sized(s) && w < MAX_TASKS && t < MAX_TASKS
    && s.tasks[w].born == born && s.tasks[w].pc == WaitingFor(t, g)
    && Live(s.tasks, t) && s.tasks[t].born == g && s.tasks[t].parent == w
  }

  /** The step hands incarnation g's exit code to w and empties the slot. */
  ghost predicate Delivers(s: Sched, s': Sched, w: nat, born: nat, t: nat, g: nat) {
    && Sized(s) && Sized(s') && t < MAX_TASKS && w < MAX_TASKS
    && s.current == w
    && g in s.exits && s'.exits == s.exits
    && s'.ledger == s.ledger + [Receipt(g, born, s.exits[g])]
    && !Live(s'.tasks, t) && s'.tasks[w].pc.Outside?
  }

  /** Whatever step any task takes, a waiter keeps waiting for the same child
      or is handed that child's own exit code. */
  lemma {:induction false} WaiterStep(s: Sched, step: Step, w: nat, born: nat, t: nat, g: nat)
    requires Inv(s) && Enabled(s, step) && Next(s, step).Ok?
    requires WaitsFor(s, w, born, t, g)
    ensures var s' := Next(s, step).value;
            WaitsFor(s', w, born, t, g) || (step.PollStep? && Delivers(s, s', w, born, t, g))
  {
    if step.PollStep? {
      WaiterPoll(s, w, born, t, g);
    } else {
      assert WaiterOk(s.tasks, w);
      TasksAfter(s, step);
      NextKeeps(s, step);
      if step.ExitStep? {
        DepartedShape(s, step.code);
      }
    }
  }

  lemma WaiterPoll(s: Sched, w: nat, born: nat, t: nat, g: nat)
    requires Inv(s) && Enabled(s, PollStep) && Next(s, PollStep).Ok?
    requires WaitsFor(s, w, born, t, g)
    ensures var s' := Next(s, PollStep).value;
            WaitsFor(s', w, born, t, g) || Delivers(s, s', w, born, t, g)
  {
    assert WaiterOk(s.tasks, w);
    TasksAfter(s, PollStep);
    NextKeeps(s, PollStep);
    HarvestIsChild(s);
    if Harvest(s).Some? {
      ReapShape(s, Harvest(s).value);
    }
  }

  ghost predicate WaitsThrough(states: seq<Sched>, k: nat, w: nat, born: nat, t: nat, g: nat)
    requires k < |states|
  {
    forall i :: 0 <= i <= k ==> WaitsFor(states[i], w, born, t, g)
  }

  /** The k-th step of the run is the delivery, and nothing changed before it. */
  ghost predicate DeliveredAt(states: seq<Sched>, steps: seq<Step>, k: nat, w: nat, born: nat, t: nat, g: nat)
    requires |states| == |steps| + 1
  {
    && k < |steps| && steps[k].PollStep?
    && WaitsThrough(states, k, w, born, t, g)
    && Delivers(states[k], states[k + 1], w, born, t, g)
  }

  /** Along every run: until the delivery, the slot holds the same incarnation
      with the same parent; and the only way out is the delivery. */
  lemma {:induction false} WaitpidDelivers(states: seq<Sched>, steps: seq<Step>, n: nat,
                                           w: nat, born: nat, t: nat, g: nat)
    requires IsRun(states, steps) && n < |states|
    requires Inv(states[0]) && WaitsFor(states[0], w, born, t, g)
    ensures WaitsThrough(states, n, w, born, t, g)
         || exists k :: 0 <= k < n && DeliveredAt(states, steps, k, w, born, t, g)
  {
    if n > 0 {
      WaitpidDelivers(states, steps, n - 1, w, born, t, g);
      if WaitsThrough(states, n - 1, w, born, t, g) {
        RunKeeps(states, steps, n - 1);
        assert Next(states[n - 1], steps[n - 1]) == Ok(states[n]);
        WaiterStep(states[n - 1], steps[n - 1], w, born, t, g);
        assert WaitsThrough(states, n, w, born, t, g) || DeliveredAt(states, steps, n - 1, w, born, t, g);
      }
    }
  }

  /** An exit code on record is never altered, and the exit call put it there. */
  lemma ExitsRecorded(s: Sched, step: Step)
    requires Inv(s) && Enabled(s, step) && Next(s, step).Ok?
    ensures var s' := Next(s, step).value;
            forall g :: g in s.exits ==> g in s'.exits && s'.exits[g] == s.exits[g]
    ensures step.ExitStep? ==> Next(s, step).value.exits == s.exits[s.tasks[s.current].born := step.code]
    ensures !step.ExitStep? ==> Next(s, step).value.exits == s.exits
  {
    TasksAfter(s, step);
    assert Live(s.tasks, s.current);
  }

  /** In a reachable state an exited incarnation is either a zombie or was
      delivered by exactly one receipt, and with the code on record. */
  lemma DeliveredExactlyOnce(states: seq<Sched>, steps: seq<Step>, n: nat, g: nat)
    requires IsRun(states, steps) && n < |states| && states[0] == Init()
    requires g in states[n].exits
    ensures Zombie(states[n].tasks, g) <==> !Receipted(states[n].ledger, g)
    ensures forall a, b :: 0 <= a < b < |states[n].ledger| && states[n].ledger[a].child == g ==>
                             states[n].ledger[b].child != g
    ensures forall a :: 0 <= a < |states[n].ledger| && states[n].ledger[a].child == g ==>
                          states[n].ledger[a].status == states[n].exits[g]
  {
    InitInv();
    RunKeeps(states, steps, n);
  }

  /** Every task inside wait(-1) has a child other than itself. */
  ghost predicate NobodyAlone(tasks: seq<Task>) {
    forall w :: 0 <= w < |tasks| && tasks[w].pc.WaitingAny? ==> OtherChild(tasks, w)
  }

  /** A task for which wait(-1) finds nobody but the caller. */
  ghost predicate Lonely(tasks: seq<Task>, i: nat) { OwnParent(tasks, i) && !OtherChild(tasks, i) }

  /** The step is a wait(-1) by a lonely task. */
  ghost predicate LonelyWait(s: Sched, step: Step) {
    step == WaitStep(-1) && Lonely(s.tasks, s.current)
  }

  /** No step takes the last child from a task inside wait(-1), except the one
      that hands it that child's status. */
  lemma OthersStay(s: Sched, step: Step, w: nat)
    requires Inv(s) && Enabled(s, step) && Next(s, step).Ok? && w < MAX_TASKS
    requires s.tasks[w].pc.WaitingAny? && OtherChild(s.tasks, w)
    ensures var s' := Next(s, step).value;
            s'.tasks[w].pc.WaitingAny? ==> OtherChild(s'.tasks, w)
  {
    var t :| 0 <= t < |s.tasks| && t != w && IsChild(s.tasks, t, w, false);
    var s' := Next(s, step).value;
    assert Live(s.tasks, t) && WaiterOk(s.tasks, w);
    TasksAfter(s, step);
    if step.ExitStep? {
      DepartedShape(s, step.code);
    } else if step.PollStep? {
      HarvestIsChild(s);
      if Harvest(s).Some? {
        ReapShape(s, Harvest(s).value);
      }
    }
    assert s'.tasks[w].pc.WaitingAny? ==> IsChild(s'.tasks, t, w, false);
  }

  /** A step leaves everybody accompanied exactly when it is no lonely wait(-1). */
  lemma AloneStep(s: Sched, step: Step)
    requires Inv(s) && Enabled(s, step) && Next(s, step).Ok? && NobodyAlone(s.tasks)
    ensures NobodyAlone(Next(s, step).value.tasks) <==> !LonelyWait(s, step)
  {
    var s' := Next(s, step).value;
    TasksAfter(s, step);
    HasChildIff(s.tasks, s.current);
    if step == WaitStep(-1) {
      WaitBeginRefusesIff(s, -1);
      assert forall i :: 0 <= i < MAX_TASKS ==> OtherChild(s'.tasks, i) == OtherChild(s.tasks, i) by {
        SameChildren(s.tasks, s'.tasks);
      }
      assert s' != s ==> s'.tasks[s.current].pc.WaitingAny?;
    } else {
      forall w | 0 <= w < |s'.tasks| && s'.tasks[w].pc.WaitingAny?
        ensures OtherChild(s'.tasks, w)
      {
        WasWaiting(s, step, w);
        OthersStay(s, step, w);
      }
    }
  }

  lemma SameChildren(a: seq<Task>, b: seq<Task>)
    requires |a| == |b| && forall i :: 0 <= i < |a| ==> b[i] == a[i].(pc := b[i].pc)
    ensures forall i :: 0 <= i < |a| ==> OtherChild(b, i) == OtherChild(a, i)
  {
    forall i | 0 <= i < |a|
      ensures OtherChild(b, i) == OtherChild(a, i)
    {
      assert forall t :: 0 <= t < |a| ==> IsChild(b, t, i, false) == IsChild(a, t, i, false);
    }
  }

  /** Only a wait(-1) brings a task to its first loop. */
  lemma WasWaiting(s: Sched, step: Step, w: nat)
    requires Inv(s) && Enabled(s, step) && Next(s, step).Ok? && step != WaitStep(-1) && w < MAX_TASKS
    requires |Next(s, step).value.tasks| == MAX_TASKS && Next(s, step).value.tasks[w].pc.WaitingAny?
    ensures s.tasks[w].pc.WaitingAny?
  {
    TasksAfter(s, step);
    if step.ExitStep? {
      DepartedShape(s, step.code);
    } else if step.PollStep? {
      HarvestIsChild(s);
    }
  }

  /** Along every run from boot, some task is at some moment inside wait(-1)
      with no child but itself exactly when the run contains a wait(-1) by a
      task that is its own parent and has no other child. */
  lemma WaitsAloneIff(states: seq<Sched>, steps: seq<Step>)
    requires IsRun(states, steps) && states[0] == Init()
    ensures (forall n :: 0 <= n < |states| ==> NobodyAlone(states[n].tasks))
       <==> (forall i :: 0 <= i < |steps| ==> !LonelyWait(states[i], steps[i]))
  {
    InitInv();
    if forall i :: 0 <= i < |steps| ==> !LonelyWait(states[i], steps[i]) {
      forall n | 0 <= n < |states|
        ensures NobodyAlone(states[n].tasks)
      {
        AccompaniedRun(states, steps, n);
      }
    }
    if forall n :: 0 <= n < |states| ==> NobodyAlone(states[n].tasks) {
      forall i | 0 <= i < |steps|
        ensures !LonelyWait(states[i], steps[i])
      {
        RunKeeps(states, steps, i);
        assert Next(states[i], steps[i]) == Ok(states[i + 1]);
        AloneStep(states[i], steps[i]);
      }
    }
  }

  lemma {:induction false} AccompaniedRun(states: seq<Sched>, steps: seq<Step>, n: nat)
    requires IsRun(states, steps) && n < |states| && states[0] == Init()
    requires forall i :: 0 <= i < n ==> !LonelyWait(states[i], steps[i])
    ensures NobodyAlone(states[n].tasks)
  {
    InitInv();
    if n > 0 {
      AccompaniedRun(states, steps, n - 1);
      RunKeeps(states, steps, n - 1);
      assert Next(states[n - 1], steps[n - 1]) == Ok(states[n]);
      AloneStep(states[n - 1], steps[n - 1]);
    }
  }

  /** While task 1 lives nobody is lonely: idle has task 1, and everybody else an older parent. */
  lemma FamilyNotLonely(tasks: seq<Task>, i: nat)
    requires Parents.FamilyOk(tasks) && i < MAX_TASKS
    ensures !Lonely(tasks, i)
  {
    if i == 0 {
      assert IsChild(tasks, 1, 0, false);
    }
  }

  /** In every run in which task 1 does not exit, wait(-1) never polls without a
      child other than the caller to wait for. */
  lemma WaitAnyHasChild(states: seq<Sched>, steps: seq<Step>, n: nat, w: nat)
    requires IsRun(states, steps) && n < |states| && states[0] == Init()
    requires forall i :: 0 <= i < n && steps[i].ExitStep? ==> states[i].current != 1
    requires w < MAX_TASKS && states[n].tasks[w].pc.WaitingAny?
    ensures Ready(states[n].tasks, w) && OtherChild(states[n].tasks, w)
  {
    InitInv();
    RunKeeps(states, steps, n);
    assert WaiterOk(states[n].tasks, w);
    forall i | 0 <= i < n
      ensures !LonelyWait(states[i], steps[i])
    {
      RunKeeps(states, steps, i);
      Parents.RunIsTree(states, steps, i);
      FamilyNotLonely(states[i].tasks, states[i].current);
    }
    AccompaniedRun(states, steps, n);
  }

  // The run in which idle waits for nobody: task 1 exits and idle reaps it.

  function Table(a: Task, b: Task): seq<Task> {
    [a, b, NoTask, NoTask, NoTask, NoTask, NoTask, NoTask]
  }

  const ONE_GONE := Sched(Table(Parents.IDLE, Parents.DEAD1), 2, 0, [], 2, map[1 := 0], [])
  const IDLE_WAITS := ONE_GONE.(tasks := Table(Parents.IDLE.(pc := WaitingAny), Parents.DEAD1))
  const ALONE := Sched(Table(Parents.IDLE, NoTask), 1, 0, [], 2, map[1 := 0], [Receipt(1, 0, 0)])
  const SPINNING := ALONE.(tasks := Table(Parents.IDLE.(pc := WaitingAny), NoTask))

  lemma OneExits()
    ensures Next(Init(), ExitStep(0)) == Ok(ONE_GONE)
  {
    assert Departed(Init(), 0).tasks == ONE_GONE.tasks;
    assert [0][1..] == [];
    assert Scan(ONE_GONE.tasks, [0]) == Scan(ONE_GONE.tasks, []) == (0, []);
  }

  lemma IdleReaps()
    ensures Next(ONE_GONE, WaitStep(-1)) == Ok(IDLE_WAITS)
    ensures Next(IDLE_WAITS, PollStep) == Ok(ALONE)
  {
    assert ONE_GONE.tasks[0 := Parents.IDLE.(pc := WaitingAny)] == IDLE_WAITS.tasks;
    assert IsChild(ONE_GONE.tasks, 0, 0, false);
    var s := IDLE_WAITS;
    assert FindChild(s.tasks, 0, 2, 0, true) == FindChild(s.tasks, 1, 2, 0, true) == 1;
    assert s.tasks[0 := Parents.IDLE][1 := NoTask] == ALONE.tasks;
    assert TrimCount(ALONE.tasks, 2) == TrimCount(ALONE.tasks, 1) == 1;
    assert [] + [Receipt(1, 0, 0)] == ALONE.ledger;
    assert Harvest(s) == Some(1) && Reap(s, 1) == ALONE;
  }

  lemma IdleSpins()
    ensures Next(ALONE, WaitStep(-1)) == Ok(SPINNING) && LonelyWait(ALONE, WaitStep(-1))
    ensures Next(SPINNING, PollStep) == Ok(SPINNING) && !OtherChild(SPINNING.tasks, 0)
  {
    assert ALONE.tasks[0 := Parents.IDLE.(pc := WaitingAny)] == SPINNING.tasks;
    assert IsChild(ALONE.tasks, 0, 0, false);
    assert FindChild(SPINNING.tasks, 0, 1, 0, true) == FindChild(SPINNING.tasks, 1, 1, 0, true) == 1;
    assert Scan(SPINNING.tasks, []) == (0, []);
  }

  /** A run from boot after which idle is inside wait(-1) without a child other
      than itself, and polls for ever. */
  lemma WaitCanSpin() returns (states: seq<Sched>, steps: seq<Step>)
    ensures IsRun(states, steps) && states[0] == Init()
    ensures var s := states[|steps|];
            s.current == 0 && s.tasks[0].pc.WaitingAny? && !OtherChild(s.tasks, 0) && Next(s, PollStep) == Ok(s)
  {
    OneExits();
    states, steps := Parents.ExtendRun([Init()], [], ExitStep(0), ONE_GONE);
    IdleReaps();
    states, steps := Parents.ExtendRun(states, steps, WaitStep(-1), IDLE_WAITS);
    states, steps := Parents.ExtendRun(states, steps, PollStep, ALONE);
    IdleSpins();
    states, steps := Parents.ExtendRun(states, steps, WaitStep(-1), SPINNING);
  }

  // ---------------------------------------------------------------------
  // Bounded waiting
  // ---------------------------------------------------------------------

  /** The entries other than idle that come before t. */
  function Before(queue: seq<nat>, t: nat): (r: seq<nat>) {
    if queue == [] || queue[0] == t then []
    else if queue[0] == 0 then Before(queue[1..], t)
    else [queue[0]] + Before(queue[1..], t)
  }

  /** The step chooses a task to run. */
  predicate Picks(s: Sched, step: Step)
    requires Sized(s)
  {
    step.ExitStep? || step.YieldStep? || (step.PollStep? && Harvest(s).None?)
  }

  lemma {:induction false} BeforeAppend(queue: seq<nat>, t: nat, x: nat)
    requires t in queue
    ensures Before(queue + [x], t) == Before(queue, t)
  {
    if queue[0] != t {
      assert (queue + [x])[1..] == queue[1..] + [x];
      BeforeAppend(queue[1..], t, x);
    }
  }

  /** Dropping idle entries and then one other entry takes one task from the front. */
  lemma {:induction false} BeforePicked(q: seq<nat>, k: nat, current: nat, queue: seq<nat>, t: nat)
    requires Picked(q, k, current, queue) && t in q && t != 0
    ensures if Before(q, t) == [] then current == t
            else current == Before(q, t)[0] && t in queue && Before(queue, t) == Before(q, t)[1..]
  {
    if k == 0 {
      assert q[0] != 0;
      assert q == [q[0]] + q[1..];
    } else {
      assert q[0] == 0;
      assert q == [q[0]] + q[1..];
      assert forall j :: 0 <= j < k - 1 ==> q[1..][j] == q[j + 1];
      assert k < |q| ==> q[1..][k..] == q[k + 1..];
      BeforePicked(q[1..], k - 1, current, queue, t);
    }
  }

  /** A queued task keeps its place: each pick takes exactly one task from in
      front of it, or chooses it, and no other step changes what is in front. */
  lemma QueuedStep(s: Sched, step: Step, t: nat)
    requires Inv(s) && Enabled(s, step) && Next(s, step).Ok?
    requires 0 < t < MAX_TASKS && Ready(s.tasks, t) && t != s.current
    ensures var s' := Next(s, step).value;
            && Ready(s'.tasks, t)
            && (!Picks(s, step) ==> s'.current == s.current && Before(s'.queue, t) == Before(s.queue, t))
            && (Picks(s, step) && Before(s.queue, t) == [] ==> s'.current == t)
            && (Picks(s, step) && Before(s.queue, t) != [] ==>
                  s'.current == Before(s.queue, t)[0] && Before(s'.queue, t) == Before(s.queue, t)[1..])
  {
    assert t in s.queue;
    match step
    case SpawnStep =>
      FindFreeFinds(s);
      BeforeAppend(s.queue, t, FindFreeTaskId(s).value);
    case ExitStep(code) =>
      var d := Departed(s, code);
      DepartedShape(s, code);
      DepartedWaitingOk(s, code);
      DepartedLedgerOk(s, code);
      DepartedQueueOk(s, code);
      PickTakesOne(d, t);
    case WaitStep(arg) =>
    case PollStep =>
      HarvestIsChild(s);
      if Harvest(s).Some? {
        ReapShape(s, Harvest(s).value);
      } else {
        PickTakesOne(s, t);
      }
    case YieldStep =>
      PickTakesOne(s, t);
  }

  lemma PickTakesOne(s: Sched, t: nat)
    requires BetweenPicks(s)
    requires 0 < t < MAX_TASKS && Ready(s.tasks, t) && t != s.current
    ensures PickNext(s).Ok? && PickNext(s).value.tasks == s.tasks
    ensures var s' := PickNext(s).value;
            if Before(s.queue, t) == [] then s'.current == t
            else s'.current == Before(s.queue, t)[0] && Before(s'.queue, t) == Before(s.queue, t)[1..]
  {
    var k := PickNextKeeps(s);
    assert t in s.queue;
    BeforeAppend(s.queue, t, s.current);
    BeforePicked(Refilled(s), k, PickNext(s).value.current, PickNext(s).value.queue, t);
  }

  lemma {:induction false} BeforeDistinct(queue: seq<nat>, t: nat)
    requires NoDup(queue) && t in queue
    ensures NoDup(Before(queue, t))
    ensures forall i :: 0 <= i < |Before(queue, t)| ==>
              Before(queue, t)[i] in queue && Before(queue, t)[i] != t && Before(queue, t)[i] != 0
  {
    if queue[0] != t {
      BeforeDistinct(queue[1..], t);
    }
  }

  /** Never more than six tasks are in front of another. */
  lemma AtMostSixAhead(s: Sched, t: nat)
    requires Inv(s) && 0 < t < MAX_TASKS && Ready(s.tasks, t) && t != s.current
    ensures |Before(s.queue, t)| <= 6
  {
    assert t in s.queue;
    BeforeDistinct(s.queue, t);
    var all := Before(s.queue, t) + [t, 0];
    PigeonHole(all, MAX_TASKS);
  }

  function PickCount(states: seq<Sched>, steps: seq<Step>, n: nat): (r: nat)
    requires n <= |steps| <= |states|
    requires forall i :: 0 <= i < |states| ==> Sized(states[i])
  {
    if n == 0 then 0
    else PickCount(states, steps, n - 1) + if Picks(states[n - 1], steps[n - 1]) then 1 else 0
  }

  /** In any run, a queued task with k tasks in front of it is chosen by the
      (k+1)-st pick, and k is at most six. */
  lemma {:induction false} BoundedWaiting(states: seq<Sched>, steps: seq<Step>, n: nat, t: nat)
    requires IsRun(states, steps) && n <= |steps| && Inv(states[0])
    requires 0 < t < MAX_TASKS && Ready(states[0].tasks, t)
    requires forall i :: 0 <= i <= n ==> states[i].current != t
    ensures |Before(states[0].queue, t)| <= 6
    ensures Ready(states[n].tasks, t)
    ensures PickCount(states, steps, n) + |Before(states[n].queue, t)| == |Before(states[0].queue, t)|
  {
    AtMostSixAhead(states[0], t);
    if n > 0 {
      BoundedWaiting(states, steps, n - 1, t);
      RunKeeps(states, steps, n - 1);
      QueuedStep(states[n - 1], steps[n - 1], t);
    }
  }
}
