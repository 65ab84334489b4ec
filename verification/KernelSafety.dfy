/**
 What every kernel step keeps: one owner per frame, the frame count, address
 spaces in order, distinct descriptors; and exactly when a step panics.
 */
module KernelSafety {
  import opened Base
  import opened Frames
  import opened PageTables
  import opened Refinement
  import opened Spaces
  import opened Processes
  import opened Kernel
  import S = Sched
  import Safety = SchedSafety
  import D = Descriptors
  import V = Vfs
  import O = OpenFiles
  import VfsRuns
  import Initramfs

  // ---------------------------------------------------------------------
  // Counting
  // ---------------------------------------------------------------------

  lemma {:induction false} SizesUpdate(procs: seq<Process>, i: nat, p: Process)
    requires i < |procs|
    ensures Sizes(procs[i := p]) + procs[i].Size() == Sizes(procs) + p.Size()
  {
    var n := |procs| - 1;
    if i == n {
      assert procs[i := p][..n] == procs[..n];
    } else {
      SizesUpdate(procs[..n], i, p);
      assert procs[i := p][..n] == procs[..n][i := p];
    }
  }

  lemma {:induction false} UsersUpdate(procs: seq<Process>, i: nat, p: Process)
    requires i < |procs|
    ensures Users(procs[i := p]) + (if procs[i].Process? then 1 else 0) == Users(procs) + (if p.Process? then 1 else 0)
  {
    var n := |procs| - 1;
    if i == n {
      assert procs[i := p][..n] == procs[..n];
    } else {
      UsersUpdate(procs[..n], i, p);
      assert procs[i := p][..n] == procs[..n][i := p];
    }
  }

  lemma {:induction false} SizesBound(procs: seq<Process>)
    requires forall i :: 0 <= i < |procs| ==> procs[i].Process? ==> |procs[i].pages| <= WINDOW
    ensures Sizes(procs) <= 76 * Users(procs)
  {
    if procs != [] {
      SizesBound(procs[..|procs| - 1]);
    }
  }

  lemma {:induction false} SizesAtLeast(procs: seq<Process>, i: nat)
    requires i < |procs|
    ensures procs[i].Size() <= Sizes(procs)
  {
    if i < |procs| - 1 {
      SizesAtLeast(procs[..|procs| - 1], i);
    }
  }

  lemma {:induction false} UsersBound(procs: seq<Process>, n: nat)
    requires n <= |procs| && forall i :: 0 <= i < n ==> procs[i].Nobody?
    ensures Users(procs) <= |procs| - n
  {
    if |procs| > n {
      UsersBound(procs[..|procs| - 1], n);
    } else if procs != [] {
      UsersBound(procs[..|procs| - 1], n - 1);
    }
  }

  // ---------------------------------------------------------------------
  // Changing one process
  // ---------------------------------------------------------------------

  /** An owner's frames are not in the pool and not another owner's. */
  lemma Separate(pool: Pool, kt: Tree, procs: seq<Process>, all: seq<Addr>, id: nat, other: int, x: Addr)
    requires OneOwner(pool, kt, procs, all) && id < |procs| && -1 <= other < |procs| && other != id
    requires Claims(pool, kt, procs, other, x)
    ensures !InPool(pool, x) && !Holds(procs[id], x)
  {
    assert Claims(pool, kt, procs, -2, x) <==> InPool(pool, x);
    assert Claims(pool, kt, procs, id, x) <==> Holds(procs[id], x);
  }

  lemma SwapOwners(m: Machine, kt: Tree, procs: seq<Process>, all: seq<Addr>, id: nat, m': Machine, p': Process)
    requires OneOwner(m.pool, kt, procs, all) && id < |procs| && Swapped(m, procs[id], m', p')
    ensures OneOwner(m'.pool, kt, procs[id := p'], all)
  {
    var procs' := procs[id := p'];
    forall o, x: Addr | -1 <= o < |procs| && o != id
      ensures Claims(m'.pool, kt, procs', o, x) == Claims(m.pool, kt, procs, o, x)
    {
    }
    forall x: Addr
      ensures x in all <==> Claimed(m'.pool, kt, procs', x)
    {
      SwapClaimed(m, kt, procs, id, m', p', x);
    }
    forall o, q, x: Addr | -2 <= o < q < |procs'|
      ensures !(Claims(m'.pool, kt, procs', o, x) && Claims(m'.pool, kt, procs', q, x))
    {
      SwapApart(m, kt, procs, all, id, m', p', o, q, x);
    }
  }

  lemma SwapClaimed(m: Machine, kt: Tree, procs: seq<Process>, id: nat, m': Machine, p': Process, x: Addr)
    requires id < |procs| && Swapped(m, procs[id], m', p')
    ensures Claimed(m.pool, kt, procs, x) <==> Claimed(m'.pool, kt, procs[id := p'], x)
  {
    var procs' := procs[id := p'];
    if o :| -2 <= o < |procs| && Claims(m.pool, kt, procs, o, x) {
      if o == -2 || o == id {
        assert Claims(m'.pool, kt, procs', -2, x) || Claims(m'.pool, kt, procs', id, x);
      } else {
        assert Claims(m'.pool, kt, procs', o, x);
      }
    }
    if o :| -2 <= o < |procs| && Claims(m'.pool, kt, procs', o, x) {
      if o == -2 || o == id {
        assert Claims(m.pool, kt, procs, -2, x) || Claims(m.pool, kt, procs, id, x);
      } else {
        assert Claims(m.pool, kt, procs, o, x);
      }
    }
  }

  lemma SwapApart(m: Machine, kt: Tree, procs: seq<Process>, all: seq<Addr>, id: nat, m': Machine, p': Process,
                  o: int, q: int, x: Addr)
    requires OneOwner(m.pool, kt, procs, all) && id < |procs| && Swapped(m, procs[id], m', p')
    requires -2 <= o < q < |procs|
    ensures !(Claims(m'.pool, kt, procs[id := p'], o, x) && Claims(m'.pool, kt, procs[id := p'], q, x))
  {
    var procs' := procs[id := p'];
    if Claims(m'.pool, kt, procs', o, x) && Claims(m'.pool, kt, procs', q, x) {
      assert !Claims(m.pool, kt, procs, o, x) || !Claims(m.pool, kt, procs, q, x);
      if q != id {
        Separate(m.pool, kt, procs, all, id, q, x);
      } else {
        if o != -2 {
          Separate(m.pool, kt, procs, all, id, o, x);
        }
      }
    }
  }

  /** Changing one process leaves the kernel's and every other process's space in order. */
  lemma SwapMemory(m: Machine, kt: Tree, procs: seq<Process>, all: seq<Addr>, id: nat, m': Machine, p': Process)
    requires MemoryOk(m, kt, procs, all) && id < |procs| && Swapped(m, procs[id], m', p')
    ensures MemoryOk(m', kt, procs[id := p'], all)
  {
    SwapOwners(m, kt, procs, all, id, m', p');
    KernelSpaceKept(m, kt, procs, all, id, m', p');
    var procs' := procs[id := p'];
    forall i | 0 <= i < |procs'|
      ensures ProcessOk(m'.mem, procs'[i])
    {
      if i != id {
        OtherProcessKept(m, kt, procs, all, id, m', p', i);
      }
    }
  }

  lemma KernelSpaceKept(m: Machine, kt: Tree, procs: seq<Process>, all: seq<Addr>, id: nat, m': Machine, p': Process)
    requires MemoryOk(m, kt, procs, all) && id < |procs| && Swapped(m, procs[id], m', p')
    ensures KernelSpaceOk(m'.mem, kt)
  {
    forall x: Addr | Owns(kt, x) && x in m.mem
      ensures x in m'.mem && m'.mem[x] == m.mem[x]
    {
      Separate(m.pool, kt, procs, all, id, -1, x);
    }
    assert SameTables(m.mem, m'.mem, kt);
    SameShape(m.mem, m'.mem, kt);
    ClosedKept(m.mem, m'.mem, kt);
    forall v: nat | v < SPAN
      ensures Walk(m'.mem, kt.p4, v) == Some(Leaf(v * PAGE, RW))
    {
      SameWalk(m.mem, m'.mem, kt, v);
    }
  }

  lemma OtherProcessKept(m: Machine, kt: Tree, procs: seq<Process>, all: seq<Addr>, id: nat, m': Machine,
                         p': Process, i: nat)
    requires MemoryOk(m, kt, procs, all) && id < |procs| && Swapped(m, procs[id], m', p')
    requires i < |procs| && i != id
    ensures ProcessOk(m'.mem, procs[i])
  {
    var p := procs[i];
    if p.Process? {
      forall x: Addr | Owns(p.tree, x) && x in m.mem
        ensures x in m'.mem && m'.mem[x] == m.mem[x]
      {
        Separate(m.pool, kt, procs, all, id, i, x);
      }
      assert SameTables(m.mem, m'.mem, p.tree);
      SpaceKept(m.mem, m'.mem, p.tree, p.pages, p.flags);
    }
  }

  // ---------------------------------------------------------------------
  // The steps
  // ---------------------------------------------------------------------

  /** A slot's process, and its frames, are fit to be rebuilt or destroyed. */
  lemma SlotReady(m: Machine, kt: Tree, procs: seq<Process>, all: seq<Addr>, users: nat, id: nat)
    requires FramesOk(m, kt, procs, all, users) && id < |procs|
    ensures Ready(m, procs[id])
  {
    var p := procs[id];
    assert ProcessOk(m.mem, p);
    forall x: Addr | InPool(m.pool, x) || Holds(p, x)
      ensures GoodFrame(x) && !(InPool(m.pool, x) && Holds(p, x))
    {
      PoolAndSlot(m.pool, kt, procs, all, id, x);
    }
    SizesAtLeast(procs, id);
  }

  lemma PoolAndSlot(pool: Pool, kt: Tree, procs: seq<Process>, all: seq<Addr>, id: nat, x: Addr)
    requires OneOwner(pool, kt, procs, all) && id < |procs|
    ensures InPool(pool, x) || Holds(procs[id], x) ==> x in all
    ensures !(InPool(pool, x) && Holds(procs[id], x))
  {
    assert Claims(pool, kt, procs, -2, x) <==> InPool(pool, x);
    assert Claims(pool, kt, procs, id, x) <==> Holds(procs[id], x);
    assert (InPool(pool, x) || Holds(procs[id], x)) ==> Claimed(pool, kt, procs, x);
  }

  lemma PagesBounded(m: Machine, procs: seq<Process>)
    requires forall i :: 0 <= i < |procs| ==> ProcessOk(m.mem, procs[i])
    ensures Sizes(procs) <= 76 * Users(procs)
  {
    forall i | 0 <= i < |procs|
      ensures procs[i].Process? ==> |procs[i].pages| <= WINDOW
    {
      assert ProcessOk(m.mem, procs[i]);
    }
    SizesBound(procs);
  }

  /** Process `id` became p' by an operation that took n frames at its height. */
  lemma SwapFrames(m: Machine, kt: Tree, procs: seq<Process>, all: seq<Addr>, users: nat,
                   id: nat, m': Machine, p': Process, n: nat)
    requires FramesOk(m, kt, procs, all, users) && id < |procs|
    requires Swapped(m, procs[id], m', p') && Thrifty(m.pool, m'.pool, n)
    requires KERNEL_FRAMES + Sizes(procs) + n <= Peak(users)
    requires Users(procs[id := p']) <= users
    ensures FramesOk(m', kt, procs[id := p'], all, users)
  {
    SwapMemory(m, kt, procs, all, id, m', p');
    SizesUpdate(procs, id, p');
  }

  lemma SpawnFrames(m: Machine, kt: Tree, procs: seq<Process>, all: seq<Addr>, users: nat, id: nat, img: Image)
    requires FramesOk(m, kt, procs, all, users) && id < |procs| && procs[id].Nobody? && ImageOk(img)
    ensures Build(m, img).Ok? <==> m.pool.Free() >= 7 + img.Pages()
    ensures Build(m, img).Ok? ==>
              var (m', p) := Build(m, img).value;
              p.Process? && (Users(procs[id := p]) <= users ==> FramesOk(m', kt, procs[id := p], all, users))
  {
    SlotReady(m, kt, procs, all, users, id);
    BuildOk(m, img);
    if Build(m, img).Ok? {
      var (m', p) := Build(m, img).value;
      PagesBounded(m, procs);
      UsersUpdate(procs, id, p);
      if Users(procs[id := p]) <= users {
        SwapFrames(m, kt, procs, all, users, id, m', p, 7 + img.Pages());
      }
    }
  }

  lemma ExecFrames(m: Machine, kt: Tree, procs: seq<Process>, all: seq<Addr>, users: nat, id: nat, img: Image)
    requires FramesOk(m, kt, procs, all, users) && id < |procs| && procs[id].Process? && ImageOk(img)
    ensures Rebuild(m, procs[id], img).Ok? <==> m.pool.Free() >= img.Pages()
    ensures Rebuild(m, procs[id], img).Ok? ==>
              var (m', p) := Rebuild(m, procs[id], img).value;
              p.Process? && FramesOk(m', kt, procs[id := p], all, users)
  {
    SlotReady(m, kt, procs, all, users, id);
    RebuildOk(m, procs[id], img);
    if Rebuild(m, procs[id], img).Ok? {
      var (m', p) := Rebuild(m, procs[id], img).value;
      PagesBounded(m, procs);
      UsersUpdate(procs, id, p);
      SwapFrames(m, kt, procs, all, users, id, m', p, img.Pages());
    }
  }

  lemma ReapFrames(m: Machine, kt: Tree, procs: seq<Process>, all: seq<Addr>, users: nat, id: nat)
    requires FramesOk(m, kt, procs, all, users) && id < |procs|
    ensures Destroy(m, procs[id]).Ok?
    ensures FramesOk(Destroy(m, procs[id]).value, kt, procs[id := Nobody], all, users)
  {
    SlotReady(m, kt, procs, all, users, id);
    DestroyOk(m, procs[id]);
    PagesBounded(m, procs);
    UsersUpdate(procs, id, Nobody);
    SwapFrames(m, kt, procs, all, users, id, Destroy(m, procs[id]).value, Nobody, 0);
  }

  /** Slots after the table changed at `id` only, to an owner that fits. */
  lemma SlotsChanged(s: S.Sched, procs: seq<Process>, fds: D.Fds, s': S.Sched, fds': D.Fds, id: nat, p: Process)
    requires SlotsOk(s, procs, fds) && |s'.tasks| == |s.tasks| && D.Sized(fds') && id < |procs|
    requires forall i :: 0 <= i < |procs| && i != id ==>
               s'.tasks[i].state.Empty? == s.tasks[i].state.Empty? && s'.tasks[i].mode == s.tasks[i].mode
               && fds'.rows[i] == fds.rows[i]
    requires p.Process? <==> S.Live(s'.tasks, id) && s'.tasks[id].mode.UserMode?
    requires !S.Live(s'.tasks, id) ==> fds'.rows[id] == D.EMPTY_ROW
    ensures SlotsOk(s', procs[id := p], fds')
  {
    assert forall i :: 0 <= i < |procs| && i != id ==> (S.Live(s'.tasks, i) <==> S.Live(s.tasks, i));
  }

  /** Spawn panics exactly when the task table is full or 7 + n frames are not left. */
  lemma SpawnKeeps(k: Kernel, all: seq<Addr>, users: nat, img: Image)
    requires Inv(k, all, users) && k.s.tasks[k.s.current].pc.Outside? && ImageOk(img)
    ensures DoSpawn(k, img).Panic? <==> Safety.TableIsFull(k.s) || k.m.pool.Free() < 7 + img.Pages()
    ensures DoSpawn(k, img).Ok? && Users(DoSpawn(k, img).value.procs) <= users ==>
              Inv(DoSpawn(k, img).value, all, users)
  {
    Safety.FindFreeFinds(k.s);
    Safety.SpawnKeeps(k.s);
    if Safety.TableIsFull(k.s) {
      return;
    }
    var id := S.FindFreeTaskId(k.s).value;
    assert k.procs[id].Nobody? && k.fds.rows[id] == D.EMPTY_ROW;
    SpawnFrames(k.m, k.kt, k.procs, all, users, id, img);
    if Build(k.m, img).Ok? {
      var (m, p) := Build(k.m, img).value;
      D.InitTaskNeverFails(k.fds, id);
      var k' := Kernel(S.Spawn(k.s).value, m, k.kt, k.procs[id := p], D.InitTask(k.fds, id).value, O.Consoles(k.vfs));
      O.ConsolesMatch(k.fds, k.vfs, id);
      SpawnResult(k, img, id, m, p, k');
      SpawnSlots(k.s, k.procs, k.fds, k'.fds, id, p);
    }
  }

  lemma SpawnSlots(s: S.Sched, procs: seq<Process>, fds: D.Fds, fds': D.Fds, id: nat, p: Process)
    requires S.Sized(s) && SlotsOk(s, procs, fds) && D.Sized(fds')
    requires S.FindFreeTaskId(s) == Ok(id) && id < S.MAX_TASKS && S.Spawn(s).Ok? && p.Process?
    requires forall i :: 0 <= i < D.TASKS && i != id ==> fds'.rows[i] == fds.rows[i]
    ensures SlotsOk(S.Spawn(s).value, procs[id := p], fds')
  {
    SlotsChanged(s, procs, fds, S.Spawn(s).value, fds', id, p);
  }

  lemma SpawnResult(k: Kernel, img: Image, id: nat, m: Machine, p: Process, k': Kernel)
    requires Sized(k) && |img.contents| == img.Pages() && img.Pages() >= HEAP_PAGES + 1
    requires S.FindFreeTaskId(k.s) == Ok(id) && id < S.MAX_TASKS && Build(k.m, img) == Ok((m, p))
    requires S.Spawn(k.s) == Ok(k'.s) && D.InitTask(k.fds, id) == Ok(k'.fds)
    requires k' == Kernel(k'.s, m, k.kt, k.procs[id := p], k'.fds, O.Consoles(k.vfs))
    ensures DoSpawn(k, img) == Ok(k')
  {
  }

  /** Exec panics exactly when the new image's frames are not left. */
  lemma ExecKeeps(k: Kernel, all: seq<Addr>, users: nat, img: Image)
    requires Inv(k, all, users) && ImageOk(img)
    ensures DoExec(k, img).Panic? <==> k.procs[k.s.current].Process? && k.m.pool.Free() < img.Pages()
    ensures DoExec(k, img).Ok? ==> Inv(DoExec(k, img).value, all, users)
    ensures DoExec(k, img).Ok? ==>
              var k' := DoExec(k, img).value;
              && k'.s == k.s && k'.kt == k.kt && k'.fds == k.fds && k'.vfs == k.vfs && |k'.procs| == |k.procs|
              && forall i :: 0 <= i < |k.procs| && i != k.s.current ==> k'.procs[i] == k.procs[i]
  {
    var id := k.s.current;
    if k.procs[id].Process? {
      ExecFrames(k.m, k.kt, k.procs, all, users, id, img);
      if Rebuild(k.m, k.procs[id], img).Ok? {
        SlotsChanged(k.s, k.procs, k.fds, k.s, k.fds, id, Rebuild(k.m, k.procs[id], img).value.1);
      }
    }
  }

  lemma PollSlots(s: S.Sched, procs: seq<Process>, fds: D.Fds, id: nat)
    requires S.Inv(s) && D.Inv(fds) && SlotsOk(s, procs, fds) && S.Harvest(s) == Some(id)
    ensures id < S.MAX_TASKS && S.WaitPoll(s).Ok? && S.Inv(S.WaitPoll(s).value)
    ensures D.Inv(D.ReleaseTask(fds, id, 0))
             && SlotsOk(S.WaitPoll(s).value, procs[id := Nobody], D.ReleaseTask(fds, id, 0))
  {
    Safety.WaitPollKeeps(s);
    Safety.HarvestIsChild(s);
    D.ReleaseTaskKeeps(fds, id, 0);
    Safety.ReapShape(s, id);
    SlotsChanged(s, procs, fds, S.Reap(s, id), D.ReleaseTask(fds, id, 0), id, Nobody);
  }

  lemma PollReaps(k: Kernel, all: seq<Addr>, users: nat, id: nat)
    requires Inv(k, all, users) && S.Harvest(k.s) == Some(id)
    ensures DoPoll(k).Ok? && Inv(DoPoll(k).value, all, users)
  {
    PollSlots(k.s, k.procs, k.fds, id);
    O.ReleaseMatches(k.fds, k.vfs, id, 0, k.fds.rows[id]);
    ReapFrames(k.m, k.kt, k.procs, all, users, id);
  }

  /** Reaping never panics and returns all the child's frames and descriptors. */
  lemma PollKeeps(k: Kernel, all: seq<Addr>, users: nat)
    requires Inv(k, all, users)
    ensures DoPoll(k).Ok? && Inv(DoPoll(k).value, all, users)
  {
    if S.Harvest(k.s).Some? {
      PollReaps(k, all, users, S.Harvest(k.s).value);
    } else {
      Safety.WaitPollKeeps(k.s);
      var _ := Safety.PickNextKeeps(k.s);
    }
  }

  lemma SlotsSame(s: S.Sched, procs: seq<Process>, fds: D.Fds, s': S.Sched)
    requires SlotsOk(s, procs, fds) && |s'.tasks| == |s.tasks|
    requires forall i :: 0 <= i < |s.tasks| ==>
               s'.tasks[i].state.Empty? == s.tasks[i].state.Empty? && s'.tasks[i].mode == s.tasks[i].mode
    ensures SlotsOk(s', procs, fds)
  {
    assert forall i :: 0 <= i < |procs| ==> (S.Live(s'.tasks, i) <==> S.Live(s.tasks, i));
  }

  lemma SlotsUntouched(s: S.Sched, ss: S.Step)
    requires S.Inv(s) && S.Enabled(s, ss) && (ss.ExitStep? || ss.WaitStep? || ss.YieldStep?)
    ensures S.Next(s, ss).Panic? <==> ss.ExitStep? && s.current == 0
    ensures S.Next(s, ss).Ok? ==>
              var s' := S.Next(s, ss).value;
              && S.Inv(s') && |s'.tasks| == |s.tasks|
              && (forall i :: 0 <= i < |s.tasks| ==>
                    s'.tasks[i].state.Empty? == s.tasks[i].state.Empty? && s'.tasks[i].mode == s.tasks[i].mode)
  {
    Safety.NextKeeps(s, ss);
    if S.Next(s, ss).Ok? {
      Safety.TasksAfter(s, ss);
      if ss.ExitStep? {
        Safety.DepartedShape(s, ss.code);
      }
    }
  }

  /** Exit, wait and yield touch the scheduler alone. */
  lemma SchedOnlyKeeps(k: Kernel, all: seq<Addr>, users: nat, step: Step)
    requires Inv(k, all, users) && Enabled(k, step) && (step.Exit? || step.Wait? || step.Yield?)
    ensures var r := SchedNext(k, step);
            (r.Panic? <==> step.Exit? && k.s.current == 0) && (r.Ok? ==> Inv(r.value, all, users))
  {
    var ss := SchedStep(step).value;
    SlotsUntouched(k.s, ss);
    if S.Next(k.s, ss).Ok? {
      SlotsSame(k.s, k.procs, k.fds, S.Next(k.s, ss).value);
    }
  }

  /** The break stays in the heap. */
  lemma BrkKeeps(k: Kernel, all: seq<Addr>, users: nat, addr: int)
    requires Inv(k, all, users)
    ensures Inv(DoBrk(k, addr), all, users)
  {
    var id := k.s.current;
    var p := k.procs[id];
    var k' := DoBrk(k, addr);
    if k' != k {
      var p' := p.(brk := addr);
      assert ProcessOk(k.m.mem, p) && ProcessOk(k.m.mem, p');
      SameHolder(k.m, k.kt, k.procs, all, users, id, k.m, p');
      SlotsChanged(k.s, k.procs, k.fds, k.s, k.fds, id, p');
    }
  }

  /** A process that keeps its frames, in a memory where only its pages may have changed. */
  lemma SameHolder(m: Machine, kt: Tree, procs: seq<Process>, all: seq<Addr>, users: nat, id: nat, m': Machine,
                   p': Process)
    requires FramesOk(m, kt, procs, all, users) && id < |procs| && procs[id].Process? && p'.Process?
    requires p'.tree == procs[id].tree && p'.pages == procs[id].pages && m'.pool == m.pool
    requires ProcessOk(m'.mem, p')
    requires forall x: Addr :: x in m.mem && x !in p'.pages ==> x in m'.mem && m'.mem[x] == m.mem[x]
    ensures FramesOk(m', kt, procs[id := p'], all, users)
  {
    var p := procs[id];
    assert forall x: Addr :: Holds(p', x) == Holds(p, x);
    forall x: Addr
      ensures !(InPool(m.pool, x) && Holds(p, x))
    {
      PoolAndSlot(m.pool, kt, procs, all, id, x);
    }
    assert Swapped(m, p, m', p');
    PagesBounded(m, procs);
    UsersUpdate(procs, id, p');
    SwapFrames(m, kt, procs, all, users, id, m', p', 0);
  }

  /** Ring 3 reaches exactly a process's own pages, each at its own frame. */
  lemma UserReach(mem: Mem, p: Process, v: nat)
    requires p.Process? && ProcessOk(mem, p) && v < SPAN
    ensures UserWalk(mem, p.tree.p4, v) <==> USER_BASE <= v < USER_BASE + |p.pages|
    ensures USER_BASE <= v < USER_BASE + |p.pages| ==>
              Walk(mem, p.tree.p4, v) == Some(Leaf(p.pages[v - USER_BASE], p.flags[v - USER_BASE]))
    ensures !(USER_BASE <= v < USER_BASE + WINDOW) ==> Walk(mem, p.tree.p4, v) == Some(Leaf(v * PAGE, RW))
  {
    UserWalkIsLeaf(mem, p.tree, v);
    assert PageOk(Walk(mem, p.tree.p4, v), v, 0, p.pages, p.flags);
  }

  /** Whatever a process stores changes its own pages only: no table, no other
      process, no translation. */
  lemma StoreKeeps(k: Kernel, all: seq<Addr>, users: nat, page: nat, words: seq<Word>)
    requires Inv(k, all, users)
    ensures Inv(DoStore(k, page, words), all, users)
    ensures forall x: Addr :: x in k.m.mem && !(k.procs[k.s.current].Process? && x in k.procs[k.s.current].pages) ==>
              x in DoStore(k, page, words).m.mem && DoStore(k, page, words).m.mem[x] == k.m.mem[x]
  {
    var id := k.s.current;
    var p := k.procs[id];
    var k' := DoStore(k, page, words);
    if k' != k {
      assert ProcessOk(k.m.mem, p);
      UserReach(k.m.mem, p, page);
      var phys := p.pages[page - USER_BASE];
      assert phys in p.pages && k'.m == k.m.(mem := k.m.mem[phys := words]);
      StoredProcess(k.m.mem, k'.m.mem, p, phys);
      SameHolder(k.m, k.kt, k.procs, all, users, id, k'.m, p);
      assert k.procs[id := p] == k.procs;
    }
  }

  lemma StoredProcess(a: Mem, b: Mem, p: Process, phys: Addr)
    requires p.Process? && ProcessOk(a, p) && phys in p.pages
    requires forall x: Addr :: x in a && x != phys ==> x in b && b[x] == a[x]
    ensures ProcessOk(b, p)
  {
    assert SameTables(a, b, p.tree);
    SpaceKept(a, b, p.tree, p.pages, p.flags);
  }

  /** Slots after the row of one live task changed. */
  lemma SlotsAfterFds(s: S.Sched, procs: seq<Process>, fds: D.Fds, fds': D.Fds, id: nat)
    requires SlotsOk(s, procs, fds) && D.Sized(fds') && S.Live(s.tasks, id)
    requires forall i :: 0 <= i < D.TASKS && i != id ==> fds'.rows[i] == fds.rows[i]
    ensures SlotsOk(s, procs, fds')
  {
  }

  /** Opening panics exactly for a thirty-third node. */
  lemma OpenStepKeeps(k: Kernel, all: seq<Addr>, users: nat, path: seq<byte>, flags: int)
    requires Inv(k, all, users)
    ensures DoOpen(k, path, flags).Panic? <==> NodesExhausted(k.vfs, path, flags)
    ensures DoOpen(k, path, flags).Ok? ==> Inv(DoOpen(k, path, flags).value, all, users)
  {
    var id := k.s.current;
    assert S.Live(k.s.tasks, id);
    VfsRuns.PanicsIff(k.vfs, V.OpenStep(path, flags));
    O.OpenFileKeeps(k.fds, k.vfs, id, path, flags);
    D.OpenKeeps(k.fds, id);
    if O.OpenFile(k.fds, k.vfs, id, path, flags).Ok? {
      SlotsAfterFds(k.s, k.procs, k.fds, O.OpenFile(k.fds, k.vfs, id, path, flags).value.0, id);
    }
  }

  /** Closing never panics. */
  lemma CloseStepKeeps(k: Kernel, all: seq<Addr>, users: nat, fd: nat)
    requires Inv(k, all, users)
    ensures Inv(DoClose(k, fd), all, users)
  {
    var id := k.s.current;
    assert S.Live(k.s.tasks, id);
    O.CloseFileKeeps(k.fds, k.vfs, id, fd);
    D.CloseKeeps(k.fds, id, fd);
    SlotsAfterFds(k.s, k.procs, k.fds, O.CloseFile(k.fds, k.vfs, id, fd).0, id);
  }

  /** Reads, writes and listings change the files and offsets alone. */
  lemma TransferKeeps(k: Kernel, all: seq<Addr>, users: nat, step: V.Step)
    requires Inv(k, all, users) && (step.WriteStep? || step.ReadStep? || step.ReadDirStep?)
    ensures Transfer(k, step).Ok? && Inv(Transfer(k, step).value, all, users)
  {
    O.TransferMatches(k.vfs, step);
    O.StepFiles(k.vfs, step);
  }

  /** The open would create a file, and the node table is full. */
  predicate NodesExhausted(vfs: V.Vfs, path: seq<byte>, flags: int) {
    V.OpenTarget(V.Metas(vfs.nodes), path, flags).NewFile? && |vfs.nodes| >= Initramfs.MAX_NODES
  }

  /** The slot a spawn or an exec puts its program in. */
  function ProgramSlot(k: Kernel, step: Step): (id: nat)
    requires Sized(k)
  {
    if step.Spawn? && S.FindFreeTaskId(k.s).Ok? then S.FindFreeTaskId(k.s).value else k.s.current
  }

  lemma SpawnedParts(k: Kernel, img: Image)
    requires Sized(k) && ImageOk(img) && DoSpawn(k, img).Ok?
    ensures S.FindFreeTaskId(k.s).Ok? && S.FindFreeTaskId(k.s).value < |k.procs| && Build(k.m, img).Ok?
    ensures var k', id := DoSpawn(k, img).value, S.FindFreeTaskId(k.s).value;
            |k'.procs| == |k.procs| && (k'.m, k'.procs[id]) == Build(k.m, img).value
  {
  }

  lemma SpawnLoads(k: Kernel, all: seq<Addr>, users: nat, img: Image)
    requires Inv(k, all, users) && ImageOk(img) && DoSpawn(k, img).Ok?
    ensures var k', id := DoSpawn(k, img).value, ProgramSlot(k, Spawn(img));
            id < |k'.procs| && Loaded(k'.m.mem, k'.procs[id], img)
  {
    SpawnedParts(k, img);
    BuiltLoaded(k.m, k.kt, k.procs, all, users, img);
  }

  lemma BuiltLoaded(m: Machine, kt: Tree, procs: seq<Process>, all: seq<Addr>, users: nat, img: Image)
    requires FramesOk(m, kt, procs, all, users) && procs != [] && ImageOk(img) && Build(m, img).Ok?
    ensures Loaded(Build(m, img).value.0.mem, Build(m, img).value.1, img)
  {
    SlotReady(m, kt, procs, all, users, 0);
    BuildOk(m, img);
  }

  lemma ExecLoads(k: Kernel, all: seq<Addr>, users: nat, img: Image)
    requires Inv(k, all, users) && ImageOk(img) && DoExec(k, img).Ok? && k.procs[k.s.current].Process?
    ensures var k' := DoExec(k, img).value;
            k.s.current < |k'.procs| && Loaded(k'.m.mem, k'.procs[k.s.current], img)
  {
    SlotReady(k.m, k.kt, k.procs, all, users, k.s.current);
    RebuildOk(k.m, k.procs[k.s.current], img);
  }

  /** After a spawn or an exec the process has the image's flags and contents. */
  lemma StepLoads(k: Kernel, all: seq<Addr>, users: nat, step: Step)
    requires Inv(k, all, users) && StepOk(step) && (step.Spawn? || (step.Exec? && k.procs[k.s.current].Process?))
    requires MemoryNext(k, step).Ok?
    ensures var k', id := MemoryNext(k, step).value, ProgramSlot(k, step);
            id < |k'.procs| && Loaded(k'.m.mem, k'.procs[id], step.img)
  {
    if step.Spawn? {
      SpawnLoads(k, all, users, step.img);
    } else {
      ExecLoads(k, all, users, step.img);
    }
  }

  /** No step takes a node away, renames it, or changes one that is not writable. */
  lemma FilesExtend(k: Kernel, all: seq<Addr>, users: nat, step: Step)
    requires Inv(k, all, users) && StepOk(step) && Next(k, step).Ok?
    ensures VfsRuns.Extends(k.vfs, Next(k, step).value.vfs)
  {
    if FileStep(step) {
      FileStepExtends(k, step);
    } else if MemoryStep(step) {
      MemoryStepExtends(k, all, users, step);
    }
  }

  lemma MemoryStepExtends(k: Kernel, all: seq<Addr>, users: nat, step: Step)
    requires Inv(k, all, users) && StepOk(step) && MemoryStep(step) && MemoryNext(k, step).Ok?
    ensures VfsRuns.Extends(k.vfs, MemoryNext(k, step).value.vfs)
  {
    if step.Spawn? {
      SpawnFiles(k, all, users, step.img);
    } else if step.Poll? {
      PollFiles(k, all, users);
    }
  }

  lemma FileStepExtends(k: Kernel, step: Step)
    requires Sized(k) && O.FilesOk(k.fds, k.vfs) && FileStep(step) && FileNext(k, step).Ok?
    ensures VfsRuns.Extends(k.vfs, FileNext(k, step).value.vfs)
  {
    if step.Open? {
      O.OpenFileKeeps(k.fds, k.vfs, k.s.current, step.path, step.flags);
    } else if step.Close? {
      O.CloseFileKeeps(k.fds, k.vfs, k.s.current, step.fd);
    } else {
      TransferExtends(k, TransferOf(k, step));
    }
  }

  lemma TransferExtends(k: Kernel, step: V.Step)
    requires Sized(k) && O.FilesOk(k.fds, k.vfs) && Transfer(k, step).Ok?
    ensures VfsRuns.Extends(k.vfs, Transfer(k, step).value.vfs)
  {
    O.StepFiles(k.vfs, step);
  }

  lemma SpawnFiles(k: Kernel, all: seq<Addr>, users: nat, img: Image)
    requires Inv(k, all, users) && ImageOk(img) && DoSpawn(k, img).Ok?
    ensures VfsRuns.Extends(k.vfs, DoSpawn(k, img).value.vfs)
  {
    O.ConsolesMatch(k.fds, k.vfs, S.FindFreeTaskId(k.s).value);
  }

  lemma PollFiles(k: Kernel, all: seq<Addr>, users: nat)
    requires Inv(k, all, users) && DoPoll(k).Ok?
    ensures VfsRuns.Extends(k.vfs, DoPoll(k).value.vfs)
  {
    if S.Harvest(k.s).Some? {
      var id := S.Harvest(k.s).value;
      O.ReleaseMatches(k.fds, k.vfs, id, 0, k.fds.rows[id]);
    }
  }

  // ---------------------------------------------------------------------
  // Every step, every run
  // ---------------------------------------------------------------------

  /** The ways a step of this machine panics: a spawn with no slot or too few
      frames, an exec with too few frames, an exit of idle, an open that would
      create a thirty-third node. */
  ghost predicate StepPanics(k: Kernel, step: Step)
    requires Sized(k)
  {
    || (step.Spawn? && (Safety.TableIsFull(k.s) || k.m.pool.Free() < 7 + step.img.Pages()))
    || (step.Exec? && k.procs[k.s.current].Process? && k.m.pool.Free() < step.img.Pages())
    || (step.Exit? && k.s.current == 0)
    || (step.Open? && NodesExhausted(k.vfs, step.path, step.flags))
  }

  /** The outcome is a panic exactly in the named case, and otherwise keeps the
      invariant as long as there are at most `users` processes. */
  ghost predicate Keeps(all: seq<Addr>, users: nat, r: Outcome<Kernel>, panics: bool) {
    && (r.Panic? <==> panics)
    && (r.Ok? && Users(r.value.procs) <= users ==> Inv(r.value, all, users))
  }

  lemma NextKeeps(k: Kernel, all: seq<Addr>, users: nat, step: Step)
    requires Inv(k, all, users) && Enabled(k, step) && StepOk(step)
    ensures Keeps(all, users, Next(k, step), StepPanics(k, step))
  {
    if FileStep(step) {
      FileStepKeeps(k, all, users, step);
    } else if MemoryStep(step) {
      MemoryStepKeeps(k, all, users, step);
    } else {
      SchedOnlyKeeps(k, all, users, step);
    }
  }

  lemma MemoryStepKeeps(k: Kernel, all: seq<Addr>, users: nat, step: Step)
    requires Sized(k) && Inv(k, all, users) && Enabled(k, step) && StepOk(step) && MemoryStep(step)
    ensures Keeps(all, users, MemoryNext(k, step), StepPanics(k, step))
  {
    if step.Spawn? || step.Exec? {
      ProgramStepKeeps(k, all, users, step);
    } else {
      PlainStepKeeps(k, all, users, step);
    }
  }

  lemma ProgramStepKeeps(k: Kernel, all: seq<Addr>, users: nat, step: Step)
    requires Sized(k) && Inv(k, all, users) && Enabled(k, step) && StepOk(step) && (step.Spawn? || step.Exec?)
    ensures Keeps(all, users, MemoryNext(k, step), StepPanics(k, step))
  {
    if step.Spawn? {
      SpawnKeeps(k, all, users, step.img);
    } else {
      ExecKeeps(k, all, users, step.img);
    }
  }

  lemma PlainStepKeeps(k: Kernel, all: seq<Addr>, users: nat, step: Step)
    requires Sized(k) && Inv(k, all, users) && (step.Poll? || step.Brk? || step.Store?) && StepOk(step)
    ensures Keeps(all, users, MemoryNext(k, step), false)
  {
    match step
    case Poll => PollKeeps(k, all, users);
    case Brk(addr) => BrkKeeps(k, all, users, addr);
    case Store(page, words) => StoreKeeps(k, all, users, page, words);
  }

  lemma FileStepKeeps(k: Kernel, all: seq<Addr>, users: nat, step: Step)
    requires Sized(k) && Inv(k, all, users) && FileStep(step)
    ensures Keeps(all, users, FileNext(k, step), StepPanics(k, step))
  {
    if step.Open? || step.Close? {
      DescriptorStepKeeps(k, all, users, step);
    } else {
      TransferStepKeeps(k, all, users, step);
    }
  }

  lemma DescriptorStepKeeps(k: Kernel, all: seq<Addr>, users: nat, step: Step)
    requires Sized(k) && Inv(k, all, users) && (step.Open? || step.Close?)
    ensures Keeps(all, users, FileNext(k, step), StepPanics(k, step))
  {
    if step.Open? {
      OpenStepKeeps(k, all, users, step.path, step.flags);
    } else {
      CloseStepKeeps(k, all, users, step.fd);
    }
  }

  lemma TransferStepKeeps(k: Kernel, all: seq<Addr>, users: nat, step: Step)
    requires Sized(k) && Inv(k, all, users) && (step.Write? || step.Read? || step.List?)
    ensures Keeps(all, users, FileNext(k, step), false)
  {
    TransferKeeps(k, all, users, TransferOf(k, step));
  }
}
