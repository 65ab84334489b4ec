/**
 The scheduler's theorems on runs of the whole machine: what the other layers do
 between two scheduler steps does not touch the tasks.
 */
module KernelTasks {
  import opened Base
  import opened Kernel
  import opened KernelRuns
  import Frames
  import S = Sched
  import Safety = SchedSafety
  import W = Waiting
  import P = Parents
  import V = Vfs

  // ---------------------------------------------------------------------
  // Projection
  // ---------------------------------------------------------------------

  /** The scheduler steps among the first n steps. */
  function SchedSteps(steps: seq<Step>, n: nat): (r: seq<S.Step>)
    requires n <= |steps|
  {
    if n == 0 then []
    else match SchedStep(steps[n - 1])
      case None => SchedSteps(steps, n - 1)
      case Some(step) => SchedSteps(steps, n - 1) + [step]
  }

  /** The scheduler's state at the start and after each of them. */
  function SchedStates(states: seq<Kernel>, steps: seq<Step>, n: nat): (r: seq<S.Sched>)
    requires n <= |steps| < |states|
  {
    if n == 0 then [states[0].s]
    else if SchedStep(steps[n - 1]).None? then SchedStates(states, steps, n - 1)
    else SchedStates(states, steps, n - 1) + [states[n].s]
  }

  lemma Extended(states: seq<S.Sched>, steps: seq<S.Step>, step: S.Step, s: S.Sched)
    requires Safety.IsRun(states, steps) && S.Sized(s) && S.Enabled(states[|steps|], step)
    requires S.Next(states[|steps|], step) == Ok(s)
    ensures Safety.IsRun(states + [s], steps + [step])
  {
  }

  /** A run of the machine, seen by the scheduler, is a run of the scheduler with the same ends. */
  lemma {:induction false} SchedRun(states: seq<Kernel>, steps: seq<Step>, n: nat)
    requires IsRun(states, steps) && n <= |steps|
    ensures var ss, st := SchedStates(states, steps, n), SchedSteps(steps, n);
            Safety.IsRun(ss, st) && ss[0] == states[0].s && ss[|st|] == states[n].s
  {
    assert Sized(states[n]);
    if n > 0 {
      SchedRun(states, steps, n - 1);
      RunProjects(states, steps, n - 1);
      if SchedStep(steps[n - 1]).Some? {
        var ss, st := SchedStates(states, steps, n - 1), SchedSteps(steps, n - 1);
        Extended(ss, st, SchedStep(steps[n - 1]).value, states[n].s);
      }
    }
  }

  /** A run whose first n + 1 states meet the scheduler's invariant. */
  ghost predicate TasksRun(states: seq<Kernel>, steps: seq<Step>, n: nat) {
    IsRun(states, steps) && n < |states| && forall i :: 0 <= i <= n ==> S.Inv(states[i].s)
  }

  lemma BootTasks(pool: Frames.Pool, vfs: V.Vfs, states: seq<Kernel>, steps: seq<Step>, n: nat)
    requires BootRun(pool, vfs, states, steps, n)
    ensures TasksRun(states, steps, n) && states[0].s == S.Init()
  {
    BootedSched(pool, vfs);
    forall i | 0 <= i <= n
      ensures S.Inv(states[i].s)
    {
      SchedInvInRun(pool, vfs, states, steps, i);
    }
  }

  // ---------------------------------------------------------------------
  // waitpid
  // ---------------------------------------------------------------------

  /** The k-th step hands the status over. */
  ghost predicate DeliveredAt(states: seq<Kernel>, steps: seq<Step>, k: nat, w: nat, born: nat, t: nat, g: nat)
    requires |states| == |steps| + 1
  {
    k < |steps| && steps[k].Poll? && W.Delivers(states[k].s, states[k + 1].s, w, born, t, g)
  }

  lemma WaiterKernelStep(states: seq<Kernel>, steps: seq<Step>, n: nat, w: nat, born: nat, t: nat, g: nat)
    requires IsRun(states, steps) && n < |steps| && S.Inv(states[n].s) && W.WaitsFor(states[n].s, w, born, t, g)
    ensures W.WaitsFor(states[n + 1].s, w, born, t, g) || DeliveredAt(states, steps, n, w, born, t, g)
  {
    RunProjects(states, steps, n);
    if SchedStep(steps[n]).Some? {
      W.WaiterStep(states[n].s, SchedStep(steps[n]).value, w, born, t, g);
    }
  }

  /** The n-th step keeps the wait, or ends it by the delivery. */
  ghost predicate WaitsAt(states: seq<Kernel>, steps: seq<Step>, n: nat, w: nat, born: nat, t: nat, g: nat)
    requires n < |steps| && |states| == |steps| + 1
  {
    W.WaitsFor(states[n].s, w, born, t, g) ==>
      W.WaitsFor(states[n + 1].s, w, born, t, g) || DeliveredAt(states, steps, n, w, born, t, g)
  }

  lemma {:induction false} WaiterKeeps(states: seq<Kernel>, steps: seq<Step>, m: nat, n: nat,
                                       w: nat, born: nat, t: nat, g: nat)
    requires m <= n <= |steps| && |states| == |steps| + 1 && W.WaitsFor(states[m].s, w, born, t, g)
    requires forall i :: m <= i < n ==> WaitsAt(states, steps, i, w, born, t, g)
    ensures || (forall i :: m <= i <= n ==> W.WaitsFor(states[i].s, w, born, t, g))
            || exists k :: m <= k < n && DeliveredAt(states, steps, k, w, born, t, g)
  {
    if m < n {
      WaiterKeeps(states, steps, m, n - 1, w, born, t, g);
      assert WaitsAt(states, steps, n - 1, w, born, t, g);
    }
  }

  /** In every run from boot, whatever spawns, execs, exits, waits and file calls
      are interleaved: a task that waits for a child waits for the same
      incarnation, still its child, until it is handed that child's own status. */
  lemma WaitpidInRun(pool: Frames.Pool, vfs: V.Vfs, states: seq<Kernel>, steps: seq<Step>, m: nat, n: nat,
                     w: nat, born: nat, t: nat, g: nat)
    requires BootRun(pool, vfs, states, steps, n) && m <= n && W.WaitsFor(states[m].s, w, born, t, g)
    ensures || (forall i :: m <= i <= n ==> W.WaitsFor(states[i].s, w, born, t, g))
            || exists k :: m <= k < n && DeliveredAt(states, steps, k, w, born, t, g)
  {
    BootTasks(pool, vfs, states, steps, n);
    forall i | m <= i < n
      ensures WaitsAt(states, steps, i, w, born, t, g)
    {
      if W.WaitsFor(states[i].s, w, born, t, g) {
        WaiterKernelStep(states, steps, i, w, born, t, g);
      }
    }
    WaiterKeeps(states, steps, m, n, w, born, t, g);
  }

  /** In every run from boot an exited task is a zombie or its status was handed
      out, never both, once, and with its own code. */
  lemma DeliveredInRun(pool: Frames.Pool, vfs: V.Vfs, states: seq<Kernel>, steps: seq<Step>, n: nat, g: nat)
    requires BootRun(pool, vfs, states, steps, n) && g in states[n].s.exits
    ensures var s := states[n].s;
            && (S.Zombie(s.tasks, g) <==> !S.Receipted(s.ledger, g))
            && (forall a, b :: 0 <= a < b < |s.ledger| && s.ledger[a].child == g ==> s.ledger[b].child != g)
            && (forall a :: 0 <= a < |s.ledger| && s.ledger[a].child == g ==> s.ledger[a].status == s.exits[g])
  {
    BootedSched(pool, vfs);
    SchedRun(states, steps, n);
    W.DeliveredExactlyOnce(SchedStates(states, steps, n), SchedSteps(steps, n), |SchedSteps(steps, n)|, g);
  }

  // ---------------------------------------------------------------------
  // Bounded waiting
  // ---------------------------------------------------------------------

  /** The step picks the next task to run. */
  predicate Picks(k: Kernel, step: Step)
    requires Sized(k)
  {
    SchedStep(step).Some? && W.Picks(k.s, SchedStep(step).value)
  }

  function PickCount(states: seq<Kernel>, steps: seq<Step>, n: nat): (r: nat)
    requires n <= |steps| <= |states| && forall i :: 0 <= i < |states| ==> Sized(states[i])
  {
    if n == 0 then 0 else PickCount(states, steps, n - 1) + if Picks(states[n - 1], steps[n - 1]) then 1 else 0
  }

  lemma QueuedKernelStep(states: seq<Kernel>, steps: seq<Step>, n: nat, t: nat)
    requires IsRun(states, steps) && n < |steps| && S.Inv(states[n].s)
    requires 0 < t < S.MAX_TASKS && S.Ready(states[n].s.tasks, t)
    requires states[n].s.current != t && states[n + 1].s.current != t
    ensures S.Ready(states[n + 1].s.tasks, t)
    ensures |W.Before(states[n].s.queue, t)|
         == |W.Before(states[n + 1].s.queue, t)| + if Picks(states[n], steps[n]) then 1 else 0
  {
    RunProjects(states, steps, n);
    if SchedStep(steps[n]).Some? {
      W.QueuedStep(states[n].s, SchedStep(steps[n]).value, t);
    }
  }

  /** The n-th step keeps t in the queue, and takes one entry from in front of it if it picks. */
  ghost predicate QueuedAt(states: seq<Kernel>, steps: seq<Step>, n: nat, t: nat)
    requires n < |steps| < |states| && forall i :: 0 <= i < |states| ==> Sized(states[i])
  {
    S.Ready(states[n].s.tasks, t) ==>
      && S.Ready(states[n + 1].s.tasks, t)
      && |W.Before(states[n].s.queue, t)|
      == |W.Before(states[n + 1].s.queue, t)| + if Picks(states[n], steps[n]) then 1 else 0
  }

  lemma {:induction false} QueuedKeeps(states: seq<Kernel>, steps: seq<Step>, m: nat, n: nat, t: nat)
    requires m <= n <= |steps| < |states| && t < S.MAX_TASKS && forall i :: 0 <= i < |states| ==> Sized(states[i])
    requires S.Ready(states[m].s.tasks, t) && forall i :: m <= i < n ==> QueuedAt(states, steps, i, t)
    ensures S.Ready(states[n].s.tasks, t)
    ensures PickCount(states, steps, n) - PickCount(states, steps, m) + |W.Before(states[n].s.queue, t)|
         == |W.Before(states[m].s.queue, t)|
  {
    if m < n {
      QueuedKeeps(states, steps, m, n - 1, t);
      assert QueuedAt(states, steps, n - 1, t);
    }
  }

  /** In every run from boot a runnable task with k tasks in front of it is chosen
      by the (k + 1)-st pick, and k is at most six. */
  lemma BoundedInRun(pool: Frames.Pool, vfs: V.Vfs, states: seq<Kernel>, steps: seq<Step>, m: nat, n: nat, t: nat)
    requires BootRun(pool, vfs, states, steps, n) && m <= n && 0 < t < S.MAX_TASKS
    requires S.Ready(states[m].s.tasks, t) && forall i :: m <= i <= n ==> states[i].s.current != t
    ensures |W.Before(states[m].s.queue, t)| <= 6 && S.Ready(states[n].s.tasks, t)
    ensures PickCount(states, steps, n) - PickCount(states, steps, m) + |W.Before(states[n].s.queue, t)|
         == |W.Before(states[m].s.queue, t)|
  {
    BootTasks(pool, vfs, states, steps, n);
    W.AtMostSixAhead(states[m].s, t);
    forall i | m <= i < n
      ensures QueuedAt(states, steps, i, t)
    {
      if S.Ready(states[i].s.tasks, t) {
        QueuedKernelStep(states, steps, i, t);
      }
    }
    QueuedKeeps(states, steps, m, n, t);
  }

  // ---------------------------------------------------------------------
  // Parents
  // ---------------------------------------------------------------------

  ghost predicate TreeSafe(k: Kernel, step: Step)
    requires Sized(k)
  {
    SchedStep(step).Some? ==> P.TreeSafe(k.s, SchedStep(step).value)
  }

  lemma TreeKernelStep(states: seq<Kernel>, steps: seq<Step>, n: nat)
    requires IsRun(states, steps) && n < |steps| && S.Inv(states[n].s) && P.IsTree(states[n].s.tasks)
    ensures P.IsTree(states[n + 1].s.tasks) <==> TreeSafe(states[n], steps[n])
  {
    RunProjects(states, steps, n);
    if SchedStep(steps[n]).Some? {
      P.TreeStep(states[n].s, SchedStep(steps[n]).value);
    }
  }

  /** From a tree, the n-th step leads to a tree exactly when it is safe. */
  ghost predicate TreeAt(states: seq<Kernel>, steps: seq<Step>, n: nat)
    requires n < |steps| < |states| && forall i :: 0 <= i < |states| ==> Sized(states[i])
  {
    P.IsTree(states[n].s.tasks) ==> (P.IsTree(states[n + 1].s.tasks) <==> TreeSafe(states[n], steps[n]))
  }

  lemma {:induction false} TreeKeptIff(states: seq<Kernel>, steps: seq<Step>, n: nat)
    requires n <= |steps| < |states| && forall i :: 0 <= i < |states| ==> Sized(states[i])
    requires P.IsTree(states[0].s.tasks) && forall i :: 0 <= i < n ==> TreeAt(states, steps, i)
    ensures (forall i :: 0 <= i <= n ==> P.IsTree(states[i].s.tasks))
       <==> (forall i :: 0 <= i < n ==> TreeSafe(states[i], steps[i]))
  {
    if n > 0 {
      TreeKeptIff(states, steps, n - 1);
      assert TreeAt(states, steps, n - 1);
    }
  }

  /** A run from boot keeps the parent links a tree in all of its first n + 1
      states exactly when its first n steps are safe. */
  lemma TreeInRunIff(pool: Frames.Pool, vfs: V.Vfs, states: seq<Kernel>, steps: seq<Step>, n: nat)
    requires BootRun(pool, vfs, states, steps, n)
    ensures (forall i :: 0 <= i <= n ==> P.IsTree(states[i].s.tasks))
       <==> (forall i :: 0 <= i < n ==> TreeSafe(states[i], steps[i]))
  {
    BootTasks(pool, vfs, states, steps, n);
    P.InitIsTree();
    forall i | 0 <= i < n
      ensures TreeAt(states, steps, i)
    {
      if P.IsTree(states[i].s.tasks) {
        TreeKernelStep(states, steps, i);
      }
    }
    TreeKeptIff(states, steps, n);
  }
}
