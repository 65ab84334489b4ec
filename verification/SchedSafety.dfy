/**
 Safety of the scheduler over whole runs: what every step keeps, and exactly
 when a step panics.
 */
module SchedSafety {
  import opened Base
  import opened Sched

  /** Inv, except that the current task may just have exited. */
  ghost predicate BetweenPicks(s: Sched) {
    && Sized(s)
    && Ready(s.tasks, 0) && s.tasks[0].mode.KernelMode? && s.tasks[0].parent == 0
    && CountOk(s.tasks, s.count)
    && QueueOk(s.tasks, s.current, s.queue)
    && WaitingOk(s.tasks)
    && BirthsOk(s.tasks, s.births, s.exits)
    && LedgerOk(s.tasks, s.births, s.exits, s.ledger)
  }

  /** Where Scan stops: the first entry that is a runnable task other than idle. */
  lemma {:induction false} ScanStops(tasks: seq<Task>, queue: seq<nat>) returns (k: nat)
    requires |tasks| == MAX_TASKS
    requires forall i :: 0 <= i < |queue| ==> queue[i] < MAX_TASKS
    ensures k <= |queue|
    ensures forall j :: 0 <= j < k ==> queue[j] == 0 || !tasks[queue[j]].state.Runnable?
    ensures k < |queue| ==> queue[k] != 0 && tasks[queue[k]].state.Runnable?
    ensures Scan(tasks, queue) == if k < |queue| then (queue[k], queue[k + 1..]) else (0, [])
  {
    if queue == [] {
      k := 0;
    } else if queue[0] != 0 && tasks[queue[0]].state.Runnable? {
      k := 0;
    } else {
      var k' := ScanStops(tasks, queue[1..]);
      k := k' + 1;
      assert forall j :: 0 <= j < k ==> queue[j] == if j == 0 then queue[0] else queue[1..][j - 1];
      assert k < |queue| ==> queue[1..][k' + 1..] == queue[k + 1..];
    }
  }

  /** The queue PickNext scans. */
  function Refilled(s: Sched): (r: seq<nat>) {
    if s.current != 0 && Ready(s.tasks, s.current) then s.queue + [s.current] else s.queue
  }

  lemma RefilledOk(s: Sched)
    requires Sized(s) && QueueOk(s.tasks, s.current, s.queue)
    ensures NoDup(Refilled(s)) && |Refilled(s)| <= MAX_TASKS
    ensures forall i :: 0 <= i < |Refilled(s)| ==>
                          Refilled(s)[i] < MAX_TASKS && (Refilled(s)[i] == 0 || Ready(s.tasks, Refilled(s)[i]))
    ensures forall t :: 0 < t < MAX_TASKS && Ready(s.tasks, t) ==> t in Refilled(s)
  {
    var q := Refilled(s);
    assert forall i :: 0 <= i < |s.queue| ==> q[i] == s.queue[i];
    assert s.current != 0 && Ready(s.tasks, s.current) ==> q[|q| - 1] == s.current;
    PigeonHole(q, MAX_TASKS);
  }

  /** What a scan of q from its k-th entry leaves: the new current task and queue. */
  ghost predicate Picked(q: seq<nat>, k: nat, current: nat, queue: seq<nat>) {
    && k <= |q|
    && (forall j :: 0 <= j < k ==> q[j] == 0)
    && (k < |q| ==> q[k] != 0 && current == q[k] && queue == q[k + 1..])
    && (k == |q| ==> current == 0 && queue == [])
  }

  /** Picking never panics, chooses a runnable task, and chooses idle only when
      no other task is runnable. */
  lemma PickNextKeeps(s: Sched) returns (k: nat)
    requires BetweenPicks(s)
    ensures PickNext(s).Ok?
    ensures Inv(PickNext(s).value)
    ensures PickNext(s).value == s.(current := PickNext(s).value.current, queue := PickNext(s).value.queue)
    ensures PickNext(s).value.current == 0 <==> forall t :: 0 < t < MAX_TASKS ==> !Ready(s.tasks, t)
    ensures Picked(Refilled(s), k, PickNext(s).value.current, PickNext(s).value.queue)
  {
    RefilledOk(s);
    var q := Refilled(s);
    assert |s.queue| <= |q| <= MAX_TASKS;
    k := ScanStops(s.tasks, q);
    PickedQueueOk(s, k, PickNext(s).value.current, PickNext(s).value.queue);
  }

  lemma PickedQueueOk(s: Sched, k: nat, current: nat, queue: seq<nat>)
    requires Sized(s) && QueueOk(s.tasks, s.current, s.queue) && Ready(s.tasks, 0)
    requires Picked(Refilled(s), k, current, queue)
    ensures QueueOk(s.tasks, current, queue) && Ready(s.tasks, current)
    ensures current == 0 <==> forall t :: 0 < t < MAX_TASKS ==> !Ready(s.tasks, t)
  {
    RefilledOk(s);
    var q := Refilled(s);
    forall t | 0 < t < MAX_TASKS && Ready(s.tasks, t) && t != current
      ensures t in queue
    {
      var j :| 0 <= j < |q| && q[j] == t;
      assert j > k;
      assert queue[j - k - 1] == t;
    }
    assert forall t :: 0 < t < MAX_TASKS && Ready(s.tasks, t) ==> t in q;
  }

  // ---------------------------------------------------------------------
  // Spawn
  // ---------------------------------------------------------------------

  predicate TableIsFull(s: Sched) {
    forall i :: 0 <= i < |s.tasks| ==> Live(s.tasks, i)
  }

  /** A free slot is found unless all eight are taken, and is the lowest one. */
  lemma FindFreeFinds(s: Sched)
    requires Inv(s)
    ensures FindFreeTaskId(s).Panic? <==> TableIsFull(s)
    ensures FindFreeTaskId(s).Ok? ==>
              var id := FindFreeTaskId(s).value;
              0 < id < MAX_TASKS && !Live(s.tasks, id) && forall j :: 0 <= j < id ==> Live(s.tasks, j)
  {
    var i := FirstEmpty(s.tasks, 0, s.count);
    if i < s.count {
      assert !Live(s.tasks, i);
    } else if s.count < MAX_TASKS {
      assert !Live(s.tasks, s.count);
    }
    assert Live(s.tasks, 0);
  }

  lemma QueueHasRoom(s: Sched, id: nat)
    requires Inv(s) && 0 < id < MAX_TASKS && !Live(s.tasks, id)
    ensures NoDup(s.queue + [id]) && |s.queue| < MAX_TASKS
  {
    var q := s.queue + [id];
    assert forall i :: 0 <= i < |s.queue| ==> q[i] == s.queue[i] && q[i] != id;
    PigeonHole(q, MAX_TASKS);
  }

  lemma SpawnKeeps(s: Sched)
    requires Inv(s) && s.tasks[s.current].pc.Outside?
    ensures Spawn(s).Panic? <==> TableIsFull(s)
    ensures Spawn(s).Panic? ==> Spawn(s).fault == TableFull
    ensures Spawn(s).Ok? ==> Inv(Spawn(s).value)
  {
    FindFreeFinds(s);
    if FindFreeTaskId(s).Ok? {
      var id := FindFreeTaskId(s).value;
      QueueHasRoom(s, id);
      var s' := Spawn(s).value;
      assert forall i :: 0 <= i < MAX_TASKS && i != id ==> s'.tasks[i] == s.tasks[i];
      assert forall i :: 0 <= i < |s.queue| ==> s'.queue[i] == s.queue[i];
      assert QueueOk(s'.tasks, s'.current, s'.queue) by { SpawnedQueueOk(s, s', id); }
      assert CountOk(s'.tasks, s'.count) by {
        assert forall i :: s'.count <= i < MAX_TASKS ==> s'.tasks[i] == s.tasks[i] && !Live(s.tasks, i);
      }
      FreshSlotKeepsWaiting(s.tasks, s'.tasks, id);
      FreshSlotKeepsLedger(s, s', id);
    }
  }

  lemma SpawnedQueueOk(s: Sched, s': Sched, id: nat)
    requires Inv(s) && Sized(s') && 0 < id < MAX_TASKS && !Live(s.tasks, id)
    requires s'.queue == s.queue + [id] && s'.current == s.current
    requires forall i :: 0 <= i < MAX_TASKS && i != id ==> s'.tasks[i] == s.tasks[i]
    requires Ready(s'.tasks, id)
    ensures QueueOk(s'.tasks, s'.current, s'.queue)
  {
    QueueHasRoom(s, id);
    forall t | 0 < t < MAX_TASKS && Ready(s'.tasks, t) && t != s'.current
      ensures t in s'.queue
    {
      if t == id {
        assert s'.queue[|s.queue|] == id;
      } else {
        assert Ready(s.tasks, t) && t in s.queue;
      }
    }
  }

  /** Filling an empty slot disturbs no waiting task. */
  lemma FreshSlotKeepsWaiting(tasks: seq<Task>, tasks': seq<Task>, id: nat)
    requires WaitingOk(tasks) && |tasks'| == |tasks| && id < |tasks| && !Live(tasks, id)
    requires forall i :: 0 <= i < |tasks| && i != id ==> tasks'[i] == tasks[i]
    requires tasks'[id].pc.Outside?
    ensures WaitingOk(tasks')
  {
    forall i | 0 <= i < |tasks|
      ensures WaiterOk(tasks', i)
    {
      assert WaiterOk(tasks, i);
      if i != id && tasks[i].pc.WaitingAny? {
        var t :| 0 <= t < |tasks| && IsChild(tasks, t, i, false);
        assert IsChild(tasks', t, i, false);
      }
    }
  }

  lemma FreshSlotKeepsLedger(s: Sched, s': Sched, id: nat)
    requires Inv(s) && |s'.tasks| == MAX_TASKS && id < MAX_TASKS && !Live(s.tasks, id)
    requires forall i :: 0 <= i < MAX_TASKS && i != id ==> s'.tasks[i] == s.tasks[i]
    requires s'.tasks[id].state.Runnable? && s'.tasks[id].born == s.births && s'.births == s.births + 1
    requires s'.exits == s.exits && s'.ledger == s.ledger
    ensures BirthsOk(s'.tasks, s'.births, s'.exits)
    ensures LedgerOk(s'.tasks, s'.births, s'.exits, s'.ledger)
  {
    assert s.births !in s.exits;
    forall g
      ensures Zombie(s'.tasks, g) <==> Zombie(s.tasks, g)
    {
      if i :| 0 <= i < MAX_TASKS && s.tasks[i].state.Exited? && s.tasks[i].born == g {
        assert s'.tasks[i].state.Exited? && s'.tasks[i].born == g;
      }
      if i :| 0 <= i < MAX_TASKS && s'.tasks[i].state.Exited? && s'.tasks[i].born == g {
        assert s.tasks[i].state.Exited? && s.tasks[i].born == g;
      }
    }
  }

  // ---------------------------------------------------------------------
  // Exit
  // ---------------------------------------------------------------------

  /** The scheduler state in which an exiting task asks for a successor. */
  function Departed(s: Sched, code: int): (r: Sched)
    requires Sized(s)
  {
    var tasks := Reparent(s.tasks, s.count, s.current, ReparentTarget(s));
    var gone := tasks[s.current].(state := Exited, exitCode := code);
    s.(tasks := tasks[s.current := gone], exits := s.exits[gone.born := code])
  }

  lemma DepartedShape(s: Sched, code: int)
    requires Sized(s)
    ensures var d := Departed(s, code).tasks;
            && |d| == |s.tasks|
            && d[s.current].state.Exited? && d[s.current].exitCode == code
            && (forall i :: 0 <= i < |d| ==>
                  d[i].born == s.tasks[i].born && d[i].pc == s.tasks[i].pc && d[i].mode == s.tasks[i].mode)
            && (forall i :: 0 <= i < |d| && i != s.current ==>
                  d[i].state == s.tasks[i].state && d[i].exitCode == s.tasks[i].exitCode)
            && (forall i :: 0 <= i < |d| && s.tasks[i].parent != s.current ==> d[i].parent == s.tasks[i].parent)
  {
  }

  lemma DepartedWaitingOk(s: Sched, code: int)
    requires Inv(s) && s.current != 0 && s.tasks[s.current].pc.Outside?
    ensures WaitingOk(Departed(s, code).tasks)
  {
    DepartedShape(s, code);
    var d := Departed(s, code).tasks;
    forall i | 0 <= i < |d|
      ensures WaiterOk(d, i)
    {
      assert WaiterOk(s.tasks, i);
      if s.tasks[i].pc.WaitingAny? {
        var t :| 0 <= t < |d| && IsChild(s.tasks, t, i, false);
        assert IsChild(d, t, i, false);
      }
    }
  }

  lemma DepartedLedgerOk(s: Sched, code: int)
    requires Inv(s) && s.current != 0
    ensures var d := Departed(s, code);
            BirthsOk(d.tasks, d.births, d.exits) && LedgerOk(d.tasks, d.births, d.exits, d.ledger)
  {
    DepartedShape(s, code);
    var d := Departed(s, code);
    var g0 := s.tasks[s.current].born;
    assert Live(s.tasks, s.current) && g0 !in s.exits;
    forall g
      ensures Zombie(d.tasks, g) <==> g == g0 || Zombie(s.tasks, g)
    {
      if g == g0 {
        assert d.tasks[s.current].state.Exited? && d.tasks[s.current].born == g;
      } else if i :| 0 <= i < MAX_TASKS && s.tasks[i].state.Exited? && s.tasks[i].born == g {
        assert d.tasks[i].state.Exited? && d.tasks[i].born == g;
      }
    }
    assert forall i :: 0 <= i < |d.tasks| ==> (Live(d.tasks, i) <==> Live(s.tasks, i));
  }

  lemma DepartedQueueOk(s: Sched, code: int)
    requires Inv(s) && s.current != 0
    ensures var d := Departed(s, code);
            CountOk(d.tasks, d.count) && QueueOk(d.tasks, d.current, d.queue)
  {
    DepartedShape(s, code);
    var d := Departed(s, code);
    assert forall i :: 0 <= i < |d.tasks| ==> (Live(d.tasks, i) <==> Live(s.tasks, i));
    assert forall i :: 0 <= i < |d.tasks| && i != s.current ==> (Ready(d.tasks, i) <==> Ready(s.tasks, i));
  }

  lemma ExitKeeps(s: Sched, code: int)
    requires Inv(s) && s.tasks[s.current].pc.Outside?
    ensures Exit(s, code).Panic? <==> s.current == 0
    ensures Exit(s, code).Panic? ==> Exit(s, code).fault == IdleExit
    ensures Exit(s, code).Ok? ==> Inv(Exit(s, code).value) && Exit(s, code).value.current != s.current
  {
    if s.current != 0 {
      DepartedShape(s, code);
      DepartedWaitingOk(s, code);
      DepartedLedgerOk(s, code);
      DepartedQueueOk(s, code);
      var _ := PickNextKeeps(Departed(s, code));
    }
  }

  // ---------------------------------------------------------------------
  // Waitpid
  // ---------------------------------------------------------------------

  lemma SameButPc(s: Sched, pc: Pc)
    requires Inv(s)
    ensures var tasks := s.tasks[s.current := s.tasks[s.current].(pc := pc)];
            && (forall i :: 0 <= i < |tasks| && i != s.current ==> WaiterOk(tasks, i))
            && QueueOk(tasks, s.current, s.queue) && CountOk(tasks, s.count)
            && BirthsOk(tasks, s.births, s.exits) && LedgerOk(tasks, s.births, s.exits, s.ledger)
  {
    var tasks := s.tasks[s.current := s.tasks[s.current].(pc := pc)];
    forall i | 0 <= i < |tasks| && i != s.current
      ensures WaiterOk(tasks, i)
    {
      assert WaiterOk(s.tasks, i);
      if s.tasks[i].pc.WaitingAny? {
        var t :| 0 <= t < |tasks| && IsChild(s.tasks, t, i, false);
        assert IsChild(tasks, t, i, false);
      }
    }
    forall g
      ensures Zombie(tasks, g) <==> Zombie(s.tasks, g)
    {
      assert forall i :: 0 <= i < |tasks| ==> tasks[i].state == s.tasks[i].state && tasks[i].born == s.tasks[i].born;
    }
    assert forall i :: 0 <= i < |tasks| ==>
        (Live(tasks, i) <==> Live(s.tasks, i)) && (Ready(tasks, i) <==> Ready(s.tasks, i));
  }

  lemma WaitBeginKeeps(s: Sched, arg: int)
    requires Inv(s) && s.tasks[s.current].pc.Outside?
    ensures Inv(WaitBegin(s, arg))
  {
    var s' := WaitBegin(s, arg);
    if s' != s {
      var pc := s'.tasks[s.current].pc;
      SameButPc(s, pc);
      assert s'.tasks == s.tasks[s.current := s.tasks[s.current].(pc := pc)];
      if arg == -1 {
        var t := FindChild(s.tasks, 0, s.count, s.current, false);
        assert IsChild(s'.tasks, t, s.current, false);
      }
      assert WaiterOk(s'.tasks, s.current);
    }
  }

  lemma HasChildIff(tasks: seq<Task>, i: nat)
    requires i < |tasks|
    ensures HasChild(tasks, i) <==> OtherChild(tasks, i) || OwnParent(tasks, i)
  {
    if OwnParent(tasks, i) {
      assert IsChild(tasks, i, i, false);
    }
  }

  /** waitpid goes on exactly for a live child other than the caller, or, for -1,
      if there is such a child or the caller is its own parent. */
  lemma WaitBeginRefusesIff(s: Sched, arg: int)
    requires Inv(s) && s.tasks[s.current].pc.Outside?
    ensures WaitBegin(s, arg) != s <==>
              || (arg == -1 && (OtherChild(s.tasks, s.current) || OwnParent(s.tasks, s.current)))
              || (arg >= 0 && arg != s.current && Live(s.tasks, arg) && s.tasks[arg].parent == s.current)
  {
    var s' := WaitBegin(s, arg);
    HasChildIff(s.tasks, s.current);
    assert s' == s ==> s'.tasks[s.current].pc.Outside?;
    if arg == -1 && HasChild(s.tasks, s.current) {
      var t :| 0 <= t < |s.tasks| && IsChild(s.tasks, t, s.current, false);
      assert Live(s.tasks, t);
      assert t < s.count;
    }
    if arg >= s.count {
      assert !Live(s.tasks, arg);
    }
  }

  /** What waitpid reaps is an exited child of the caller. */
  lemma HarvestIsChild(s: Sched)
    requires Inv(s)
    ensures Harvest(s).Some? ==>
              var t := Harvest(s).value;
              && t < MAX_TASKS && t != s.current && t != 0
              && s.tasks[t].state.Exited? && s.tasks[t].parent == s.current
              && (s.tasks[s.current].pc.WaitingFor? ==>
                    t == s.tasks[s.current].pc.target && s.tasks[t].born == s.tasks[s.current].pc.born)
  {
    assert WaiterOk(s.tasks, s.current);
  }

  lemma ReapKeepsWaiting(s: Sched, t: nat)
    requires Inv(s) && t < MAX_TASKS && s.tasks[t].state.Exited? && s.tasks[t].parent == s.current
    ensures WaitingOk(Reap(s, t).tasks)
  {
    var d := Reap(s, t).tasks;
    forall i | 0 <= i < |d|
      ensures WaiterOk(d, i)
    {
      assert WaiterOk(s.tasks, i);
      if i != s.current && i != t && s.tasks[i].pc.WaitingAny? {
        var u :| 0 <= u < |d| && IsChild(s.tasks, u, i, false);
        assert IsChild(d, u, i, false);
      }
    }
  }

  lemma ReapShape(s: Sched, t: nat)
    requires Sized(s) && t < MAX_TASKS
    ensures var d := Reap(s, t).tasks;
            && |d| == MAX_TASKS && !Live(d, t)
            && (forall i :: 0 <= i < MAX_TASKS && i != t ==>
                  d[i].state == s.tasks[i].state && d[i].born == s.tasks[i].born
                  && d[i].exitCode == s.tasks[i].exitCode && d[i].mode == s.tasks[i].mode
                  && d[i].parent == s.tasks[i].parent)
  {
  }

  lemma ReapKeepsBirths(s: Sched, t: nat)
    requires Inv(s) && t < MAX_TASKS
    ensures BirthsOk(Reap(s, t).tasks, s.births, s.exits)
  {
    ReapShape(s, t);
    var d := Reap(s, t).tasks;
    assert forall i :: 0 <= i < MAX_TASKS && Live(d, i) ==> i != t && Live(s.tasks, i);
  }

  lemma ReapZombies(s: Sched, t: nat, g: nat)
    requires Inv(s) && t < MAX_TASKS && s.tasks[t].state.Exited?
    ensures Zombie(Reap(s, t).tasks, g) <==> g != s.tasks[t].born && Zombie(s.tasks, g)
  {
    ReapShape(s, t);
    var d := Reap(s, t).tasks;
    assert forall i :: 0 <= i < MAX_TASKS && s.tasks[i].state.Exited? ==> Live(s.tasks, i);
    if i :| 0 <= i < MAX_TASKS && s.tasks[i].state.Exited? && s.tasks[i].born == g && i != t {
      assert d[i].state.Exited? && d[i].born == g;
      assert Live(s.tasks, t) && Live(s.tasks, i);
    }
  }

  lemma ReapKeepsLedger(s: Sched, t: nat)
    requires Inv(s) && t < MAX_TASKS && s.tasks[t].state.Exited?
    ensures LedgerOk(Reap(s, t).tasks, s.births, s.exits, Reap(s, t).ledger)
  {
    var tasks, ledger := Reap(s, t).tasks, Reap(s, t).ledger;
    var g0 := s.tasks[t].born;
    assert Live(s.tasks, t) && Zombie(s.tasks, g0);
    assert ledger == s.ledger + [Receipt(g0, s.tasks[s.current].born, s.tasks[t].exitCode)];
    forall g
      ensures Zombie(tasks, g) <==> g != g0 && Zombie(s.tasks, g)
    {
      ReapZombies(s, t, g);
    }
    forall g | g in s.exits
      ensures Zombie(tasks, g) || Receipted(ledger, g)
    {
      if g == g0 {
        assert ledger[|s.ledger|].child == g;
      } else if a :| 0 <= a < |s.ledger| && s.ledger[a].child == g {
        assert ledger[a].child == g;
      }
    }
  }

  lemma ReapKeeps(s: Sched, t: nat)
    requires Inv(s) && t < MAX_TASKS && t != s.current && t != 0
    requires s.tasks[t].state.Exited? && s.tasks[t].parent == s.current
    ensures Inv(Reap(s, t))
  {
    var d := Reap(s, t);
    ReapShape(s, t);
    ReapKeepsWaiting(s, t);
    ReapKeepsBirths(s, t);
    ReapKeepsLedger(s, t);
    SameReadyQueue(s.tasks, d.tasks, s.current, s.queue);
    TrimmedCountOk(s.tasks, d.tasks, s.count);
  }

  lemma SameReadyQueue(a: seq<Task>, b: seq<Task>, current: nat, queue: seq<nat>)
    requires QueueOk(a, current, queue) && |a| == |b|
    requires forall i :: 0 <= i < |a| ==> (a[i].state.Runnable? <==> b[i].state.Runnable?)
    ensures QueueOk(b, current, queue)
  {
    assert forall i :: 0 <= i < |a| ==> (Ready(a, i) <==> Ready(b, i));
  }

  lemma TrimmedCountOk(a: seq<Task>, b: seq<Task>, count: nat)
    requires CountOk(a, count) && |a| == |b|
    requires forall i :: 0 <= i < |a| && a[i].state.Empty? ==> b[i].state.Empty?
    ensures CountOk(b, TrimCount(b, count))
  {
    forall i | TrimCount(b, count) <= i < |b|
      ensures !Live(b, i)
    {
      assert i >= count ==> !Live(a, i);
    }
  }

  lemma WaitPollKeeps(s: Sched)
    requires Inv(s)
    ensures WaitPoll(s).Ok? && Inv(WaitPoll(s).value)
  {
    HarvestIsChild(s);
    if Harvest(s).Some? {
      ReapKeeps(s, Harvest(s).value);
    } else {
      var _ := PickNextKeeps(s);
    }
  }

  // ---------------------------------------------------------------------
  // Every step, every run
  // ---------------------------------------------------------------------

  lemma InitInv()
    ensures Inv(Init())
  {
    var s := Init();
    assert s.tasks[0].state.Runnable? && s.tasks[1].state.Runnable?;
    assert forall i :: 2 <= i < |s.tasks| ==> s.tasks[i] == NoTask;
  }

  /** A step panics exactly when a spawn finds eight live tasks or idle exits;
      "ready queue full" is not among the ways. */
  ghost predicate StepPanics(s: Sched, step: Step) {
    || (step.SpawnStep? && TableIsFull(s))
    || (step.ExitStep? && s.current == 0)
  }

  lemma NextKeeps(s: Sched, step: Step)
    requires Inv(s) && Enabled(s, step)
    ensures Next(s, step).Panic? <==> StepPanics(s, step)
    ensures Next(s, step).Panic? ==> Next(s, step).fault != QueueFull
    ensures Next(s, step).Ok? ==> Inv(Next(s, step).value)
  {
    if step.SpawnStep? {
      SpawnKeeps(s);
    } else if step.ExitStep? {
      ExitKeeps(s, step.code);
    } else if step.WaitStep? {
      WaitBeginKeeps(s, step.arg);
    } else if step.PollStep? {
      WaitPollKeeps(s);
    } else {
      var _ := PickNextKeeps(s);
    }
  }

  /** What each kind of step leaves in the task table. */
  lemma TasksAfter(s: Sched, step: Step)
    requires Inv(s) && Enabled(s, step) && Next(s, step).Ok?
    ensures var s' := Next(s, step).value;
            match step
            case SpawnStep =>
              var id := FindFreeTaskId(s);
              && id.Ok? && 0 < id.value < MAX_TASKS && !Live(s.tasks, id.value)
              && s'.tasks == s.tasks[id.value := Task(Runnable, UserMode, s.current, 0, s.births, Outside)]
            case ExitStep(code) => s'.tasks == Departed(s, code).tasks && s'.exits == Departed(s, code).exits
            case WaitStep(arg) => s' == WaitBegin(s, arg)
            case PollStep => (if Harvest(s).Some? then s' == Reap(s, Harvest(s).value) else s'.tasks == s.tasks)
                             && s'.exits == s.exits
            case YieldStep => s'.tasks == s.tasks && s'.exits == s.exits
  {
    match step
    case SpawnStep => FindFreeFinds(s);
    case ExitStep(code) =>
      DepartedShape(s, code);
      DepartedWaitingOk(s, code);
      DepartedLedgerOk(s, code);
      DepartedQueueOk(s, code);
      var _ := PickNextKeeps(Departed(s, code));
    case WaitStep(arg) =>
    case _ =>
      if Harvest(s).None? { var _ := PickNextKeeps(s); }
  }

  /** `states` is the run of `steps` from states[0], with no panic. */
  ghost predicate IsRun(states: seq<Sched>, steps: seq<Step>) {
    && |states| == |steps| + 1
    && (forall i :: 0 <= i < |states| ==> Sized(states[i]))
    && (forall i :: 0 <= i < |steps| ==>
          Enabled(states[i], steps[i]) && Next(states[i], steps[i]) == Ok(states[i + 1]))
  }

  lemma {:induction false} RunKeeps(states: seq<Sched>, steps: seq<Step>, n: nat)
    requires IsRun(states, steps) && n < |states|
    requires Inv(states[0])
    ensures Inv(states[n])
  {
    if n > 0 {
      RunKeeps(states, steps, n - 1);
      NextKeeps(states[n - 1], steps[n - 1]);
    }
  }
}
