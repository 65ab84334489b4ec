/**
 Boot, and the theorems over every run of the kernel's resource machine.
 */
module KernelRuns {
  import opened Base
  import opened Frames
  import opened PageTables
  import opened Refinement
  import opened Spaces
  import opened Processes
  import opened Kernel
  import opened KernelSafety
  import S = Sched
  import Safety = SchedSafety
  import D = Descriptors
  import V = Vfs
  import O = OpenFiles
  import Initramfs
  import VfsRuns
  import Parents

  // ---------------------------------------------------------------------
  // Boot
  // ---------------------------------------------------------------------

  /** The page vmm_self_test plays with: 0x18000000. */
  const TEST_PAGE: nat := 98304
  const RO := Flags(true, false, false, false, 0)

  /** vmm_self_test: a scratch frame is mapped over the page and taken away
      again; the page table the first edit made stays. */
  function SelfTest(m: Machine, root: Addr): (r: Outcome<Machine>) {
    if m.pool.Free() == 0 then Panic(OutOfFrames) else
    var scratch := Top(m.pool);
    var virt := TEST_PAGE * PAGE;
    var m1 :- Unmap(m.(pool := Rest(m.pool)), root, virt);
    var m2 :- Map(m1, root, virt, scratch, RW, false);
    var m3 :- Protect(m2, root, virt, RO);
    var m4 :- Protect(m3, root, virt, RW);
    var m5 :- Unmap(m4, root, virt);
    var m6 :- Map(m5, root, virt, virt, RW, false);
    var pool :- Release(m6.pool, scratch);
    Ok(m6.(pool := pool))
  }

  /** init_vmm, vmm_self_test and init_scheduler over the frames of `pool`. */
  function Boot(pool: Pool, vfs: V.Vfs): (r: Outcome<Kernel>) {
    var (m1, t) :- Create(Machine(map[], pool));
    var m2 :- SelfTest(m1, t.p4);
    var scratched := m1.(pool := if m1.pool.Free() > 0 then Rest(m1.pool) else m1.pool);
    Ok(Kernel(S.Init(), m2, Opened(scratched, t, TEST_PAGE), seq(S.MAX_TASKS, _ => Nobody), D.Boot(), vfs))
  }

  /** The files after boot: the descriptors that are open are those the self-test
      and the first two tasks hold. */
  ghost predicate Mounted(vfs: V.Vfs) { O.FilesOk(D.Boot(), vfs) }

  ghost predicate Bootable(pool: Pool, vfs: V.Vfs) {
    && Mounted(vfs) && PoolOk(pool) && pool.Free() >= 8 && |pool.recycled| <= 3
    && (forall x: Addr :: InPool(pool, x) ==> GoodFrame(x))
  }

  /** Such a state over any nodes, the self-test's descriptor being on node `spare`. */
  function Mount(nodes: seq<Initramfs.Node>, spare: nat): (vfs: V.Vfs) {
    V.Vfs(nodes,
          [V.ConsoleIn, V.ConsoleOut, V.ConsoleOut, V.OnFile(spare, 0), V.ConsoleIn, V.ConsoleOut, V.ConsoleOut]
            + seq(25, _ => V.Closed),
          seq(|nodes|, _ => 0))
  }

  lemma MountedOk(nodes: seq<Initramfs.Node>, spare: nat)
    requires spare < |nodes| && forall i :: 0 <= i < |nodes| ==> nodes[i].length <= |nodes[i].buffer|
    ensures Mounted(Mount(nodes, spare))
  {
    var vfs := Mount(nodes, spare);
    assert D.Boot().open == V.Opens(vfs.descs);
  }

  /** Editing the page with its table in place: one write, one page. */
  lemma EditStep(m: Machine, t: Tree, v: nat, e: Word)
    requires TreeOk(m, t) && v < SPAN && (P3(v), P2(v)) in t.pt && (e == ZERO || Present(e)) && !UserBit(e)
    ensures var m' := Written(m, t, v, false, e);
            && TreeOk(m', t) && Moves(m, m', t, t) && m'.pool == m.pool
            && SameElsewhere(m.mem, m'.mem, t.p4, v) && Walk(m'.mem, t.p4, v) == SmallLeaf(e)
            && Split(m, t.p4, v) == Ok((m, t.pt[(P3(v), P2(v))]))
            && (Slot(m.mem, t.pt[(P3(v), P2(v))], P1(v)) == ZERO <==> Walk(m.mem, t.p4, v).None?)
  {
    SplitStep(m, t, v);
    EntryByView(m.mem, t, v);
    WriteStep(m, t, v, false, e);
    UpdatedElsewhere(m.mem, Written(m, t, v, false, e).mem, t.p4, v, SmallLeaf(e));
  }

  /** The self-test puts the address space back as it was, at the price of one frame. */
  lemma SelfTestOk(m: Machine, t: Tree)
    requires TreeOk(m, t) && m.pool.Free() >= 2 && |m.pool.recycled| < RECYCLE_CAPACITY
    requires forall x: Addr :: InPool(m.pool, x) ==> GoodFrame(x)
    requires forall v: nat :: v < SPAN ==> Walk(m.mem, t.p4, v) == Some(Leaf(v * PAGE, RW))
    requires (P3(TEST_PAGE), P2(TEST_PAGE)) !in t.pt
    ensures SelfTest(m, t.p4).Ok?
    ensures var m', t' := SelfTest(m, t.p4).value, Opened(m.(pool := Rest(m.pool)), t, TEST_PAGE);
            && TreeOk(m', t') && KernelSpaceOk(m'.mem, t')
            && (forall x: Addr :: InPool(m.pool, x) || Owns(t, x) <==> InPool(m'.pool, x) || Owns(t', x))
            && m'.pool.Free() == m.pool.Free() - 1 && |m'.pool.unused| >= |m.pool.unused| - 2
  {
    var v, scratch := TEST_PAGE, Top(m.pool);
    var m0 := m.(pool := Rest(m.pool));
    AllocMoves(m.pool);
    AllocMoves(m0.pool);
    assert TreeOk(m0, t);
    PageArith(v);
    UnmapStep(m0, t, v);
    var t' := Opened(m0, t, v);
    var m1 := Unmap(m0, t.p4, v * PAGE).value;
    UpdatedElsewhere(m.mem, m1.mem, t.p4, v, None);
    SelfTestEdits(m.mem, m1, t', scratch);
    var m6 := SelfTestResult(m1, t', scratch);
    ScratchBack(m, m0, m1, m6, t, t', scratch);
    SelfTestChain(m, t.p4, m1, m6);
  }

  lemma SelfTestChain(m: Machine, root: Addr, m1: Machine, m6: Machine)
    requires m.pool.Free() > 0 && Unmap(m.(pool := Rest(m.pool)), root, TEST_PAGE * PAGE) == Ok(m1)
    requires var scratch, virt := Top(m.pool), TEST_PAGE * PAGE;
             && var r2 := Map(m1, root, virt, scratch, RW, false);
             && r2.Ok? && var r3 := Protect(r2.value, root, virt, RO);
             && r3.Ok? && var r4 := Protect(r3.value, root, virt, RW);
             && r4.Ok? && var r5 := Unmap(r4.value, root, virt);
             && r5.Ok? && Map(r5.value, root, virt, virt, RW, false) == Ok(m6)
    requires Release(m6.pool, Top(m.pool)).Ok?
    ensures SelfTest(m, root) == Ok(m6.(pool := Release(m6.pool, Top(m.pool)).value))
  {
  }

  /** The machine after the edits that follow the first unmap. */
  function SelfTestResult(m1: Machine, t: Tree, scratch: Addr): (r: Machine)
    requires (P3(TEST_PAGE), P2(TEST_PAGE)) in t.pt
  {
    var m2 := Written(m1, t, TEST_PAGE, false, LeafWord(scratch, RW));
    var m3 := Written(m2, t, TEST_PAGE, false, LeafWord(scratch, RO));
    var m4 := Written(m3, t, TEST_PAGE, false, LeafWord(scratch, RW));
    var m5 := Written(m4, t, TEST_PAGE, false, ZERO);
    Written(m5, t, TEST_PAGE, false, LeafWord(TEST_PAGE * PAGE, RW))
  }

  lemma SelfTestEdits(mem: Mem, m1: Machine, t: Tree, scratch: Addr)
    requires TreeOk(m1, t) && (P3(TEST_PAGE), P2(TEST_PAGE)) in t.pt && GoodFrame(scratch)
    requires SameElsewhere(mem, m1.mem, t.p4, TEST_PAGE) && Walk(m1.mem, t.p4, TEST_PAGE).None?
    ensures var m6, virt := SelfTestResult(m1, t, scratch), TEST_PAGE * PAGE;
            && TreeOk(m6, t) && m6.pool == m1.pool
            && SameElsewhere(mem, m6.mem, t.p4, TEST_PAGE) && Walk(m6.mem, t.p4, TEST_PAGE) == Some(Leaf(virt, RW))
            && var r2 := Map(m1, t.p4, virt, scratch, RW, false);
            && r2.Ok? && var r3 := Protect(r2.value, t.p4, virt, RO);
            && r3.Ok? && var r4 := Protect(r3.value, t.p4, virt, RW);
            && r4.Ok? && var r5 := Unmap(r4.value, t.p4, virt);
            && r5.Ok? && Map(r5.value, t.p4, virt, virt, RW, false) == Ok(m6)
  {
    var v := TEST_PAGE;
    PageArith(v);
    EditStep(m1, t, v, LeafWord(scratch, RW));
    var m2 := Written(m1, t, v, false, LeafWord(scratch, RW));
    EditStep(m2, t, v, LeafWord(scratch, RO));
    EditWord(m2, t, v, Leaf(scratch, RW));
    var m3 := Written(m2, t, v, false, LeafWord(scratch, RO));
    EditStep(m3, t, v, LeafWord(scratch, RW));
    EditWord(m3, t, v, Leaf(scratch, RO));
    var m4 := Written(m3, t, v, false, LeafWord(scratch, RW));
    EditStep(m4, t, v, ZERO);
    var m5 := Written(m4, t, v, false, ZERO);
    EditStep(m5, t, v, LeafWord(v * PAGE, RW));
  }

  lemma EditWord(m: Machine, t: Tree, v: nat, leaf: Leaf)
    requires TreeOk(m, t) && v < SPAN && (P3(v), P2(v)) in t.pt && Walk(m.mem, t.p4, v) == Some(leaf)
    ensures Slot(m.mem, t.pt[(P3(v), P2(v))], P1(v)) == Word(leaf.phys, leaf.flags)
  {
    EntryByView(m.mem, t, v);
    assert v in View(m.mem, t.p4);
  }

  lemma ScratchBack(m: Machine, m0: Machine, m1: Machine, m6: Machine, t: Tree, t': Tree, scratch: Addr)
    requires m.pool.Free() >= 2 && PoolOk(m.pool) && m0 == m.(pool := Rest(m.pool)) && scratch == Top(m.pool)
    requires |m.pool.recycled| < RECYCLE_CAPACITY && GoodFrame(scratch) && !Owns(t, scratch)
    requires Moves(m0, m1, t, t') && m1.pool == Rest(m0.pool) && m6.pool == m1.pool && TreeOk(m6, t')
    requires forall v: nat :: v < SPAN ==> Walk(m.mem, t.p4, v) == Some(Leaf(v * PAGE, RW))
    requires SameElsewhere(m.mem, m6.mem, t.p4, TEST_PAGE)
             && Walk(m6.mem, t.p4, TEST_PAGE) == Some(Leaf(TEST_PAGE * PAGE, RW))
    ensures Release(m6.pool, scratch).Ok?
    ensures var m' := m6.(pool := Release(m6.pool, scratch).value);
            && TreeOk(m', t') && KernelSpaceOk(m'.mem, t')
            && (forall x: Addr :: InPool(m.pool, x) || Owns(t, x) <==> InPool(m'.pool, x) || Owns(t', x))
            && m'.pool.Free() == m.pool.Free() - 1 && |m'.pool.unused| >= |m.pool.unused| - 2
  {
    AllocMoves(m.pool);
    AllocMoves(m0.pool);
    GivenPoolOk(m6.pool, [scratch]);
    var m' := m6.(pool := Release(m6.pool, scratch).value);
    assert forall x: Addr :: InPool(m'.pool, x) <==> InPool(m6.pool, x) || x == scratch;
  }

  /** Boot succeeds with eight frames, and leaves the kernel seven. */
  lemma BootInv(pool: Pool, vfs: V.Vfs, users: nat)
    requires Bootable(pool, vfs) && users <= 7
    ensures Boot(pool, vfs).Ok?
    ensures Inv(Boot(pool, vfs).value, pool.unused + pool.recycled, users)
  {
    var m := Machine(map[], pool);
    CreateOk(m);
    TakeMoves(pool, 6);
    TakeIsThrifty(pool, 6);
    var (m1, t) := Create(m).value;
    forall v: nat | v < SPAN
      ensures Walk(m1.mem, t.p4, v) == Some(Leaf(v * PAGE, RW))
    {
      NewIsIdentity(m.mem, Taken(pool, 6), v);
    }
    SelfTestOk(m1, t);
    var k := Boot(pool, vfs).value;
    BootFramesOk(pool, m1, t, k.m, k.kt, users);
    BootSlots();
    Safety.InitInv();
    D.BootInv();
  }

  lemma BootFramesOk(pool: Pool, m1: Machine, t: Tree, m: Machine, kt: Tree, users: nat)
    requires forall x: Addr :: InPool(pool, x) ==> GoodFrame(x)
    requires forall x: Addr :: InPool(pool, x) <==> Owns(t, x) || InPool(m1.pool, x)
    requires forall x: Addr :: InPool(m1.pool, x) || Owns(t, x) <==> InPool(m.pool, x) || Owns(kt, x)
    requires TreeOk(m, kt) && KernelSpaceOk(m.mem, kt) && users <= 7
    requires pool.Free() == m.pool.Free() + 7 && |m.pool.unused| + 8 >= |pool.unused| && |pool.recycled| <= 3
    ensures FramesOk(m, kt, seq(S.MAX_TASKS, _ => Nobody), pool.unused + pool.recycled, users)
  {
    BootFrames(pool, m1, t, m, kt);
    BootCounts(S.MAX_TASKS);
    forall x: Addr | x in pool.unused + pool.recycled
      ensures GoodFrame(x)
    {
      assert InPool(pool, x);
    }
  }

  lemma BootFrames(pool: Pool, m1: Machine, t: Tree, m: Machine, kt: Tree)
    requires forall x: Addr :: InPool(pool, x) <==> Owns(t, x) || InPool(m1.pool, x)
    requires forall x: Addr :: InPool(m1.pool, x) || Owns(t, x) <==> InPool(m.pool, x) || Owns(kt, x)
    requires Unowned(m.pool, kt)
    ensures OneOwner(m.pool, kt, seq(S.MAX_TASKS, _ => Nobody), pool.unused + pool.recycled)
  {
    var procs := seq(S.MAX_TASKS, _ => Nobody);
    forall x: Addr
      ensures x in pool.unused + pool.recycled <==> Claimed(m.pool, kt, procs, x)
    {
      assert Claims(m.pool, kt, procs, -2, x) <==> InPool(m.pool, x);
      assert Claims(m.pool, kt, procs, -1, x) <==> Owns(kt, x);
    }
  }

  lemma {:induction false} BootCounts(n: nat)
    ensures Sizes(seq(n, _ => Nobody)) == 0 && Users(seq(n, _ => Nobody)) == 0
  {
    if n > 0 {
      BootCounts(n - 1);
      assert seq(n, _ => Nobody)[..n - 1] == seq(n - 1, _ => Nobody);
    }
  }

  lemma BootSlots()
    ensures SlotsOk(S.Init(), seq(S.MAX_TASKS, _ => Nobody), D.Boot())
  {
    var s := S.Init();
    assert s.tasks[0].mode.KernelMode? && s.tasks[1].mode.KernelMode?;
    assert forall i :: 2 <= i < S.MAX_TASKS ==> s.tasks[i] == S.NoTask;
    assert forall i :: 2 <= i < D.TASKS ==> D.Boot().rows[i] == D.EMPTY_ROW;
  }

  // ---------------------------------------------------------------------
  // Every run
  // ---------------------------------------------------------------------

  /** `states` is the run of `steps` from states[0], with no panic. */
  ghost predicate IsRun(states: seq<Kernel>, steps: seq<Step>) {
    && |states| == |steps| + 1
    && (forall i :: 0 <= i < |states| ==> Sized(states[i]))
    && (forall i :: 0 <= i < |steps| ==>
          StepOk(steps[i]) && Enabled(states[i], steps[i]) && Next(states[i], steps[i]) == Ok(states[i + 1]))
  }

  /** A step never gives slot 0 to a process. */
  lemma IdleStays(k: Kernel, step: Step)
    requires Sized(k) && StepOk(step) && Next(k, step).Ok? && k.procs[0].Nobody?
    requires S.FindFreeTaskId(k.s).Ok? ==> S.FindFreeTaskId(k.s).value > 0
    ensures |Next(k, step).value.procs| == S.MAX_TASKS && Next(k, step).value.procs[0].Nobody?
  {
    match step
    case Spawn(img) => SpawnElsewhere(k, img);
    case Exec(img) => ExecOwn(k, img);
    case _ =>
  }

  lemma SpawnElsewhere(k: Kernel, img: Image)
    requires Sized(k) && ImageOk(img) && DoSpawn(k, img).Ok? && k.procs[0].Nobody?
    requires S.FindFreeTaskId(k.s).Ok? ==> S.FindFreeTaskId(k.s).value > 0
    ensures |DoSpawn(k, img).value.procs| == S.MAX_TASKS && DoSpawn(k, img).value.procs[0].Nobody?
  {
  }

  lemma ExecOwn(k: Kernel, img: Image)
    requires Sized(k) && ImageOk(img) && DoExec(k, img).Ok? && k.procs[0].Nobody?
    ensures |DoExec(k, img).value.procs| == S.MAX_TASKS && DoExec(k, img).value.procs[0].Nobody?
  {
  }

  lemma UsersFit(procs: seq<Process>, users: nat)
    requires |procs| == S.MAX_TASKS && procs[0].Nobody? && (users == 7 || (users == 6 && procs[1].Nobody?))
    ensures Users(procs) <= users
  {
    UsersBound(procs, if users == 6 then 2 else 1);
  }

  lemma SlotZero(k: Kernel, all: seq<Addr>, users: nat)
    requires Inv(k, all, users)
    ensures k.procs[0].Nobody? && (S.FindFreeTaskId(k.s).Ok? ==> S.FindFreeTaskId(k.s).value > 0)
  {
    Safety.FindFreeFinds(k.s);
  }

  /** One step of a run, with the bound on the number of processes. */
  lemma StepKeeps(k: Kernel, all: seq<Addr>, users: nat, step: Step, k': Kernel)
    requires Inv(k, all, users) && Enabled(k, step) && StepOk(step) && Next(k, step) == Ok(k')
    requires users == 7 || (users == 6 && |k'.procs| == S.MAX_TASKS && k'.procs[1].Nobody?)
    ensures Inv(k', all, users)
  {
    SlotZero(k, all, users);
    IdleStays(k, step);
    UsersFit(k'.procs, users);
    NextKeeps(k, all, users, step);
  }

  lemma RunStepKeeps(states: seq<Kernel>, steps: seq<Step>, n: nat, all: seq<Addr>, users: nat)
    requires IsRun(states, steps) && n < |steps| && Inv(states[n], all, users)
    requires users == 7 || (users == 6 && states[n + 1].procs[1].Nobody?)
    ensures Inv(states[n + 1], all, users)
  {
    RunStep(states, steps, n);
    StepKeeps(states[n], all, users, steps[n], states[n + 1]);
  }

  /** The invariant holds along every run, with at most seven processes, or six
      as long as slot 1 is not given to a process. */
  lemma {:induction false} RunKeeps(states: seq<Kernel>, steps: seq<Step>, n: nat, all: seq<Addr>, users: nat)
    requires IsRun(states, steps) && n < |states| && Inv(states[0], all, users)
    requires users == 7 || (users == 6 && forall i :: 0 <= i <= n ==> states[i].procs[1].Nobody?)
    ensures Inv(states[n], all, users)
  {
    if n > 0 {
      RunKeeps(states, steps, n - 1, all, users);
      RunStepKeeps(states, steps, n - 1, all, users);
    }
  }

  lemma RunStep(states: seq<Kernel>, steps: seq<Step>, n: nat)
    requires IsRun(states, steps) && n < |steps|
    ensures StepOk(steps[n]) && Enabled(states[n], steps[n]) && Next(states[n], steps[n]) == Ok(states[n + 1])
    ensures |states[n + 1].procs| == S.MAX_TASKS
  {
    assert Sized(states[n + 1]);
  }

  /** `states` is a run from boot over these frames and files, and n one of its states. */
  ghost predicate BootRun(pool: Pool, vfs: V.Vfs, states: seq<Kernel>, steps: seq<Step>, n: nat) {
    Bootable(pool, vfs) && IsRun(states, steps) && n < |states| && Boot(pool, vfs) == Ok(states[0])
  }

  /** The invariant in every state of every run from boot. */
  lemma InvInRun(pool: Pool, vfs: V.Vfs, states: seq<Kernel>, steps: seq<Step>, n: nat)
    requires BootRun(pool, vfs, states, steps, n)
    ensures Inv(states[n], pool.unused + pool.recycled, 7)
  {
    BootInv(pool, vfs, 7);
    RunKeeps(states, steps, n, pool.unused + pool.recycled, 7);
  }

  lemma CountsInRun(pool: Pool, k: Kernel, users: nat)
    requires Inv(k, pool.unused + pool.recycled, users)
    ensures k.m.pool.Free() == pool.Free() - 7 - Sizes(k.procs)
    ensures |k.m.pool.recycled| + 7 + Sizes(k.procs) <= Peak(users)
  {
  }

  /** In every state of every run from boot, each frame has exactly one owner;
      the free count is the total less the kernel's seven frames and 7 + n for
      each unreaped process of n pages; and the recycle stack holds at most
      608 of its 2048 frames, so handing a frame back never panics. */
  lemma FramesAccounted(pool: Pool, vfs: V.Vfs, states: seq<Kernel>, steps: seq<Step>, n: nat)
    requires BootRun(pool, vfs, states, steps, n)
    ensures var k := states[n];
            && OneOwner(k.m.pool, k.kt, k.procs, pool.unused + pool.recycled)
            && k.m.pool.Free() == pool.Free() - 7 - Sizes(k.procs)
            && |k.m.pool.recycled| + 7 + Sizes(k.procs) <= 608 < RECYCLE_CAPACITY
  {
    InvInRun(pool, vfs, states, steps, n);
    CountsInRun(pool, states[n], 7);
  }

  /** pmm_self_test: three frames are taken and handed back, last first. */
  function AllocatorTest(pool: Pool): (r: Outcome<Pool>) {
    var (frames, left) :- Take(pool, 3);
    Give(left, [frames[2], frames[1], frames[0]])
  }

  lemma TestedPoolOk(pool: Pool)
    requires PoolOk(pool) && pool.Free() >= 3 && pool.recycled == []
    requires forall x: Addr :: InPool(pool, x) ==> GoodFrame(x)
    ensures AllocatorTest(pool).Ok?
    ensures var p := AllocatorTest(pool).value;
            && PoolOk(p) && p.Free() == pool.Free() && |p.recycled| <= 3
            && (forall x: Addr :: InPool(p, x) <==> InPool(pool, x))
  {
    TakeMoves(pool, 3);
    TakeIsThrifty(pool, 3);
    var taken, left := Taken(pool, 3), Left(pool, 3);
    var back := [taken[2], taken[1], taken[0]];
    assert forall x: Addr :: x in back <==> x in taken;
    assert GoodFrame(taken[0]) && GoodFrame(taken[1]) && GoodFrame(taken[2]) by {
      assert taken[0] in taken && taken[1] in taken && taken[2] in taken;
    }
    GiveMoves(left, back);
    GivenPoolOk(left, back);
  }

  /** The same from the boot memory map: with entries that do not overlap and at
      least eight usable pages, every run accounts for exactly those pages. */
  lemma MemoryMapAccounted(entries: seq<MapEntry>, kernelStart: Addr, kernelEnd: Addr, vfs: V.Vfs,
                           states: seq<Kernel>, steps: seq<Step>, n: nat, a: Addr)
    requires kernelStart % PAGE == 0 && kernelEnd % PAGE == 0 && kernelStart <= kernelEnd && EntriesDisjoint(entries)
    requires |FreshIn(MapRegions(entries, kernelStart, kernelEnd))| >= 8 && Mounted(vfs)
    ensures var pool := AllocatorTest(Pool(FreshIn(MapRegions(entries, kernelStart, kernelEnd)), []));
            && pool.Ok?
            && (IsRun(states, steps) && n < |states| && Boot(pool.value, vfs) == Ok(states[0]) ==>
                  var k := states[n];
                  && (Claimed(k.m.pool, k.kt, k.procs, a) <==>
                        exists i :: 0 <= i < |entries| && UsableIn(entries[i], kernelStart, kernelEnd, a))
                  && k.m.pool.Free() + 7 + Sizes(k.procs) == |FreshIn(MapRegions(entries, kernelStart, kernelEnd))|)
  {
    var first := Pool(FreshIn(MapRegions(entries, kernelStart, kernelEnd)), []);
    StartingPool(entries, kernelStart, kernelEnd, first);
    MapRegionsExact(entries, kernelStart, kernelEnd, a);
    TestedPoolOk(first);
    var pool := AllocatorTest(first).value;
    if IsRun(states, steps) && n < |states| && Boot(pool, vfs) == Ok(states[0]) {
      FramesAccounted(pool, vfs, states, steps, n);
      assert a in pool.unused + pool.recycled <==> InPool(pool, a);
      assert InPool(first, a) <==> a in first.unused;
    }
  }

  lemma StartingPool(entries: seq<MapEntry>, kernelStart: Addr, kernelEnd: Addr, pool: Pool)
    requires kernelStart % PAGE == 0 && kernelEnd % PAGE == 0 && kernelStart <= kernelEnd && EntriesDisjoint(entries)
    requires pool == Pool(FreshIn(MapRegions(entries, kernelStart, kernelEnd)), [])
    ensures PoolOk(pool) && forall x: Addr :: InPool(pool, x) ==> GoodFrame(x)
  {
    MapRegionsDistinct(entries, kernelStart, kernelEnd);
    forall x: Addr | InPool(pool, x)
      ensures GoodFrame(x)
    {
      MapRegionsExact(entries, kernelStart, kernelEnd, x);
    }
  }

  lemma BootedSched(pool: Pool, vfs: V.Vfs)
    requires Boot(pool, vfs).Ok?
    ensures Boot(pool, vfs).value.s == S.Init()
  {
  }

  lemma SchedInvInRun(pool: Pool, vfs: V.Vfs, states: seq<Kernel>, steps: seq<Step>, n: nat)
    requires BootRun(pool, vfs, states, steps, n)
    ensures S.Inv(states[n].s)
  {
    InvInRun(pool, vfs, states, steps, n);
  }

  /** A step of the machine is a step of the scheduler, or leaves the scheduler alone. */
  lemma RunProjects(states: seq<Kernel>, steps: seq<Step>, n: nat)
    requires IsRun(states, steps) && n < |steps|
    ensures Sized(states[n]) && Sized(states[n + 1])
    ensures match SchedStep(steps[n])
            case None => states[n + 1].s == states[n].s
            case Some(ss) => S.Enabled(states[n].s, ss) && S.Next(states[n].s, ss) == Ok(states[n + 1].s)
  {
    RunStep(states, steps, n);
    Projects(states[n], steps[n]);
  }

  lemma Projects(k: Kernel, step: Step)
    requires Sized(k) && StepOk(step) && Enabled(k, step) && Next(k, step).Ok?
    ensures match SchedStep(step)
            case None => Next(k, step).value.s == k.s
            case Some(ss) => S.Enabled(k.s, ss) && S.Next(k.s, ss) == Ok(Next(k, step).value.s)
  {
    if FileStep(step) {
      assert FileNext(k, step).value.s == k.s;
    } else if MemoryStep(step) {
      MemoryProjects(k, step);
    }
  }

  lemma MemoryProjects(k: Kernel, step: Step)
    requires Sized(k) && StepOk(step) && MemoryStep(step) && MemoryNext(k, step).Ok?
    ensures match SchedStep(step)
            case None => MemoryNext(k, step).value.s == k.s
            case Some(ss) => S.Next(k.s, ss) == Ok(MemoryNext(k, step).value.s)
  {
  }

  /** Task 1 does not exit in the first n steps. */
  ghost predicate TaskOneStays(states: seq<Kernel>, steps: seq<Step>, n: nat)
    requires n <= |steps| < |states|
  {
    forall i :: 0 <= i < n && steps[i].Exit? ==> states[i].s.current != 1
  }

  lemma FamilyKernelStep(states: seq<Kernel>, steps: seq<Step>, n: nat)
    requires IsRun(states, steps) && n < |steps| && S.Inv(states[n].s) && Parents.FamilyOk(states[n].s.tasks)
    requires steps[n].Exit? ==> states[n].s.current != 1
    ensures Parents.FamilyOk(states[n + 1].s.tasks)
  {
    RunProjects(states, steps, n);
    if SchedStep(steps[n]).Some? {
      Parents.FamilyStep(states[n].s, SchedStep(steps[n]).value);
    }
  }

  /** While task 1 stays, every parent is a running task older than its child, and
      the parent links are a tree. */
  lemma {:induction false} FamilyInRun(pool: Pool, vfs: V.Vfs, states: seq<Kernel>, steps: seq<Step>, n: nat)
    requires BootRun(pool, vfs, states, steps, n) && TaskOneStays(states, steps, n)
    ensures Parents.FamilyOk(states[n].s.tasks) && Parents.IsTree(states[n].s.tasks)
  {
    if n == 0 {
      BootedSched(pool, vfs);
      Parents.InitFamily();
    } else {
      FamilyInRun(pool, vfs, states, steps, n - 1);
      SchedInvInRun(pool, vfs, states, steps, n - 1);
      FamilyKernelStep(states, steps, n - 1);
    }
    Parents.FamilyIsTree(states[n].s.tasks);
  }

  /** Task 1 is the kernel's as long as it stays. */
  lemma SlotOneFree(pool: Pool, vfs: V.Vfs, states: seq<Kernel>, steps: seq<Step>, n: nat)
    requires BootRun(pool, vfs, states, steps, n) && TaskOneStays(states, steps, n)
    ensures |states[n].procs| == S.MAX_TASKS && states[n].procs[1].Nobody?
  {
    FamilyInRun(pool, vfs, states, steps, n);
    InvInRun(pool, vfs, states, steps, n);
  }

  /** While task 1 does not exit, the peak is 7 + 6 * 76 + 69 frames. */
  lemma PeakWithTaskOne(pool: Pool, vfs: V.Vfs, states: seq<Kernel>, steps: seq<Step>, n: nat)
    requires BootRun(pool, vfs, states, steps, n) && TaskOneStays(states, steps, n)
    ensures |states[n].m.pool.recycled| + 7 + Sizes(states[n].procs) <= 532
  {
    BootInv(pool, vfs, 6);
    forall i | 0 <= i <= n
      ensures states[i].procs[1].Nobody?
    {
      SlotOneFree(pool, vfs, states, steps, i);
    }
    RunKeeps(states, steps, n, pool.unused + pool.recycled, 6);
    CountsInRun(pool, states[n], 6);
  }

  lemma {:induction false} RunExtends(states: seq<Kernel>, steps: seq<Step>, n: nat, all: seq<Addr>)
    requires IsRun(states, steps) && n < |states| && Inv(states[0], all, 7)
    ensures VfsRuns.Extends(states[0].vfs, states[n].vfs)
  {
    if n > 0 {
      RunExtends(states, steps, n - 1, all);
      RunKeeps(states, steps, n - 1, all, 7);
      RunStepExtends(states, steps, n - 1, all);
      VfsRuns.ExtendsTrans(states[0].vfs, states[n - 1].vfs, states[n].vfs);
    }
  }

  lemma RunStepExtends(states: seq<Kernel>, steps: seq<Step>, n: nat, all: seq<Addr>)
    requires IsRun(states, steps) && n < |steps| && Inv(states[n], all, 7)
    ensures VfsRuns.Extends(states[n].vfs, states[n + 1].vfs)
  {
    RunStep(states, steps, n);
    FilesExtend(states[n], all, 7, steps[n]);
  }

  lemma BootedFiles(pool: Pool, vfs: V.Vfs)
    requires Boot(pool, vfs).Ok?
    ensures Boot(pool, vfs).value.vfs == vfs
  {
  }

  /** In every run from boot nodes are only added, names and kinds stay, files
      that are not writable never change, and a file's buffers have cost at most
      twice its present capacity; and the two descriptor tables agree. */
  lemma FilesInRun(pool: Pool, vfs: V.Vfs, states: seq<Kernel>, steps: seq<Step>, n: nat)
    requires BootRun(pool, vfs, states, steps, n)
    ensures VfsRuns.Extends(vfs, states[n].vfs) && VfsRuns.SpentOk(states[n].vfs)
    ensures O.Matched(states[n].fds, states[n].vfs)
  {
    InvInRun(pool, vfs, states, steps, 0);
    InvInRun(pool, vfs, states, steps, n);
    FilesOkOf(states[n], pool.unused + pool.recycled);
    BootedFiles(pool, vfs);
    RunExtends(states, steps, n, pool.unused + pool.recycled);
  }

  lemma FilesOkOf(k: Kernel, all: seq<Addr>)
    requires Inv(k, all, 7)
    ensures O.FilesOk(k.fds, k.vfs)
  {
  }

  /** The kernel reaches every frame at its own address, under any address space. */
  ghost predicate BelowLimit(x: Addr) {
    x < SPAN * PAGE && !(PageVirt(0) <= x < PageVirt(WINDOW))
  }

  /** After any run of spawns, execs, exits, waits and stores, ring 3 reaches
      exactly each process's own pages, page i at the i-th frame; everything
      outside the 69-page window maps to itself for the supervisor; and so every
      frame outside the window is reached at its own address under every root. */
  lemma SpacesInOrder(pool: Pool, vfs: V.Vfs, states: seq<Kernel>, steps: seq<Step>, n: nat, id: nat, v: nat)
    requires BootRun(pool, vfs, states, steps, n)
    requires id < S.MAX_TASKS && v < SPAN
    ensures var k := states[n];
            && Walk(k.m.mem, k.kt.p4, v) == Some(Leaf(v * PAGE, RW)) && !UserWalk(k.m.mem, k.kt.p4, v)
            && (k.procs[id].Process? ==>
                  var p := k.procs[id];
                  && (UserWalk(k.m.mem, p.tree.p4, v) <==> USER_BASE <= v < USER_BASE + |p.pages|)
                  && |p.flags| == |p.pages|
                  && (USER_BASE <= v < USER_BASE + |p.pages| ==>
                        Walk(k.m.mem, p.tree.p4, v) == Some(Leaf(p.pages[v - USER_BASE], p.flags[v - USER_BASE])))
                  && (!(USER_BASE <= v < USER_BASE + WINDOW) ==>
                            Walk(k.m.mem, p.tree.p4, v) == Some(Leaf(v * PAGE, RW))))
  {
    InvInRun(pool, vfs, states, steps, n);
    var k := states[n];
    UserWalkIsLeaf(k.m.mem, k.kt, v);
    if k.procs[id].Process? {
      assert ProcessOk(k.m.mem, k.procs[id]);
      UserReach(k.m.mem, k.procs[id], v);
    }
  }

  lemma FramesReachable(pool: Pool, vfs: V.Vfs, states: seq<Kernel>, steps: seq<Step>, n: nat, id: nat, x: Addr)
    requires BootRun(pool, vfs, states, steps, n)
    requires id < S.MAX_TASKS && InPool(pool, x) && BelowLimit(x)
    ensures Translate(states[n].m.mem, states[n].kt.p4, x) == x
    ensures states[n].procs[id].Process? ==> Translate(states[n].m.mem, states[n].procs[id].tree.p4, x) == x
  {
    var v := x / PAGE;
    assert GoodFrame(x) && x == v * PAGE;
    SpacesInOrder(pool, vfs, states, steps, n, id, v);
  }
}
