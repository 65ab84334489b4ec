/**
 The kernel's resources as one state machine: the scheduler, the frames, the
 address spaces, the descriptors and the files, with every system call that
 moves them.
 */
module Kernel {
  import opened Base
  import opened Frames
  import opened PageTables
  import opened Refinement
  import opened Spaces
  import opened Processes
  import S = Sched
  import D = Descriptors
  import V = Vfs
  import O = OpenFiles

  /** `procs[i]` is what slot i owns besides its scheduler entry; `kt` is the
      kernel's own tree. */
  datatype Kernel = Kernel(s: S.Sched, m: Machine, kt: Tree, procs: seq<Process>, fds: D.Fds, vfs: V.Vfs)

  datatype Step =
    | Spawn(img: Image)
    | Exec(img: Image)
    | Exit(code: int)
    | Wait(arg: int)
    | Poll
    | Yield
    | Brk(addr: int)
    | Open(path: seq<byte>, flags: int)
    | Close(fd: nat)
    | Write(fd: nat, data: seq<byte>, junk: nat -> byte)
    | Read(fd: nat, length: int, typed: seq<byte>)
    | List(fd: nat, length: int)
    | Store(page: nat, words: seq<Word>)

  predicate Sized(k: Kernel) {
    S.Sized(k.s) && |k.procs| == S.MAX_TASKS && D.Sized(k.fds) && V.NodesOk(k.vfs)
  }

  /** Which scheduler step a kernel step takes, if any. */
  function SchedStep(step: Step): (r: Option<S.Step>) {
    match step
    case Spawn(_) => Some(S.SpawnStep)
    case Exit(code) => Some(S.ExitStep(code))
    case Wait(arg) => Some(S.WaitStep(arg))
    case Poll => Some(S.PollStep)
    case Yield => Some(S.YieldStep)
    case _ => None
  }

  predicate Enabled(k: Kernel, step: Step)
    requires Sized(k)
  {
    step.Poll? <==> !k.s.tasks[k.s.current].pc.Outside?
  }

  ghost predicate StepOk(step: Step) {
    (step.Spawn? || step.Exec? ==> ImageOk(step.img)) && (step.Store? ==> |step.words| == SLOTS)
  }

  function DoSpawn(k: Kernel, img: Image): (r: Outcome<Kernel>)
    requires Sized(k) && |img.contents| == img.Pages() && img.Pages() >= HEAP_PAGES + 1
  {
    var id :- S.FindFreeTaskId(k.s);
    if id >= S.MAX_TASKS then Panic(TableFull)
    else Settle(k, id, Build(k.m, img), S.Spawn(k.s), D.InitTask(k.fds, id))
  }

  /** The new process moves into slot id, if all its parts could be made. */
  function Settle(k: Kernel, id: nat, built: Outcome<(Machine, Process)>, scheduled: Outcome<S.Sched>,
                  fdsMade: Outcome<D.Fds>)
      : (r: Outcome<Kernel>)
    requires id < |k.procs|
    ensures r.Ok? ==>
              && |r.value.procs| == |k.procs|
              && forall i :: 0 <= i < |k.procs| && i != id ==> r.value.procs[i] == k.procs[i]
  {
    var (m, p) :- built;
    var s :- scheduled;
    var fds :- fdsMade;
    Ok(Kernel(s, m, k.kt, k.procs[id := p], fds, O.Consoles(k.vfs)))
  }

  function DoExec(k: Kernel, img: Image): (r: Outcome<Kernel>)
    requires Sized(k) && |img.contents| == img.Pages() && img.Pages() >= HEAP_PAGES + 1
  {
    var p := k.procs[k.s.current];
    if p.Nobody? then Ok(k)
    else
      var (m, p') :- Rebuild(k.m, p, img);
      Ok(k.(m := m, procs := k.procs[k.s.current := p']))
  }

  function DoPoll(k: Kernel): (r: Outcome<Kernel>)
    requires Sized(k)
  {
    var s :- S.WaitPoll(k.s);
    match S.Harvest(k.s)
    case None => Ok(k.(s := s))
    case Some(id) =>
      var m :- Destroy(k.m, k.procs[id]);
      Ok(k.(s := s, m := m, procs := k.procs[id := Nobody],
            fds := D.ReleaseTask(k.fds, id, 0), vfs := O.ReleaseFiles(k.vfs, k.fds.rows[id], 0)))
  }

  /** scheduler_brk: a request outside the heap changes nothing. */
  function DoBrk(k: Kernel, addr: int): (r: Kernel)
    requires Sized(k)
  {
    var p := k.procs[k.s.current];
    if p.Nobody? || |p.pages| < HEAP_PAGES + 1 || addr == 0
       || addr < HeapBase(|p.pages|) || addr > HeapLimit(|p.pages|) then k
    else k.(procs := k.procs[k.s.current := p.(brk := addr)])
  }

  /** What scheduler_brk returns. */
  function BrkResult(k: Kernel, addr: int): (r: int)
    requires Sized(k)
  {
    var p := k.procs[k.s.current];
    if p.Nobody? || |p.pages| < HEAP_PAGES + 1 then -1
    else if addr == 0 then p.brk
    else if addr < HeapBase(|p.pages|) || addr > HeapLimit(|p.pages|) then -1
    else addr
  }

  /** A store by the running process: it happens only where the walk lets ring 3 write. */
  function DoStore(k: Kernel, page: nat, words: seq<Word>): (r: Kernel)
    requires Sized(k)
  {
    var p := k.procs[k.s.current];
    if p.Nobody? || page >= SPAN || !UserWalk(k.m.mem, p.tree.p4, page) then k
    else match Walk(k.m.mem, p.tree.p4, page)
      case None => k
      case Some(leaf) =>
        if !leaf.flags.writable then k else k.(m := k.m.(mem := k.m.mem[leaf.phys := words]))
  }

  /** The file system's step for a read, write or listing by the running task. */
  function TransferOf(k: Kernel, step: Step): (r: V.Step)
    requires Sized(k) && (step.Write? || step.Read? || step.List?)
    ensures r.WriteStep? || r.ReadStep? || r.ReadDirStep?
  {
    var d := O.InSlot(k.fds, k.s.current, step.fd);
    match step
    case Write(_, data, junk) => V.WriteStep(d, data, junk)
    case Read(_, length, typed) => V.ReadStep(d, length, typed)
    case List(_, length) => V.ReadDirStep(d, length)
  }

  /** A read, write or listing through a descriptor of the running task. */
  function Transfer(k: Kernel, step: V.Step): (r: Outcome<Kernel>)
    requires Sized(k)
  {
    var vfs :- V.Next(k.vfs, step);
    Ok(k.(vfs := vfs))
  }

  /** System calls on files. */
  predicate FileStep(step: Step) { step.Open? || step.Close? || step.Write? || step.Read? || step.List? }

  /** Calls and events that move memory. */
  predicate MemoryStep(step: Step) { step.Spawn? || step.Exec? || step.Poll? || step.Brk? || step.Store? }

  function DoOpen(k: Kernel, path: seq<byte>, flags: int): (r: Outcome<Kernel>)
    requires Sized(k)
  {
    var (fds, vfs) :- O.OpenFile(k.fds, k.vfs, k.s.current, path, flags);
    Ok(k.(fds := fds, vfs := vfs))
  }

  function DoClose(k: Kernel, fd: nat): (r: Kernel)
    requires Sized(k)
  {
    var (fds, vfs) := O.CloseFile(k.fds, k.vfs, k.s.current, fd);
    k.(fds := fds, vfs := vfs)
  }

  function FileNext(k: Kernel, step: Step): (r: Outcome<Kernel>)
    requires Sized(k) && FileStep(step)
  {
    match step
    case Open(path, flags) => DoOpen(k, path, flags)
    case Close(fd) => Ok(DoClose(k, fd))
    case _ => Transfer(k, TransferOf(k, step))
  }

  function MemoryNext(k: Kernel, step: Step): (r: Outcome<Kernel>)
    requires Sized(k) && MemoryStep(step)
    requires step.Spawn? || step.Exec? ==>
               |step.img.contents| == step.img.Pages() && step.img.Pages() >= HEAP_PAGES + 1
  {
    match step
    case Spawn(img) => DoSpawn(k, img)
    case Exec(img) => DoExec(k, img)
    case Poll => DoPoll(k)
    case Brk(addr) => Ok(DoBrk(k, addr))
    case Store(page, words) => Ok(DoStore(k, page, words))
  }

  function SchedNext(k: Kernel, step: Step): (r: Outcome<Kernel>)
    requires Sized(k) && (step.Exit? || step.Wait? || step.Yield?)
  {
    match step
    case Exit(code) => (var s :- S.Exit(k.s, code); Ok(k.(s := s)))
    case Wait(arg) => Ok(k.(s := S.WaitBegin(k.s, arg)))
    case Yield => (var s :- S.PickNext(k.s); Ok(k.(s := s)))
  }

  function Next(k: Kernel, step: Step): (r: Outcome<Kernel>)
    requires Sized(k)
    requires step.Spawn? || step.Exec? ==>
               |step.img.contents| == step.img.Pages() && step.img.Pages() >= HEAP_PAGES + 1
  {
    if FileStep(step) then FileNext(k, step)
    else if MemoryStep(step) then MemoryNext(k, step)
    else SchedNext(k, step)
  }

  // ---------------------------------------------------------------------
  // The invariant
  // ---------------------------------------------------------------------

  /** The owners are the pool (-2), the kernel (-1) and the eight slots. */
  ghost predicate Claims(pool: Pool, kt: Tree, procs: seq<Process>, owner: int, x: Addr) {
    if owner == -2 then InPool(pool, x)
    else if owner == -1 then Owns(kt, x)
    else 0 <= owner < |procs| && Holds(procs[owner], x)
  }

  ghost predicate Claimed(pool: Pool, kt: Tree, procs: seq<Process>, x: Addr) {
    exists o :: -2 <= o < |procs| && Claims(pool, kt, procs, o, x)
  }

  /** Every frame has exactly one owner, and nothing else is owned. */
  ghost predicate OneOwner(pool: Pool, kt: Tree, procs: seq<Process>, all: seq<Addr>) {
    && (forall x: Addr :: x in all <==> Claimed(pool, kt, procs, x))
    && (forall o, q, x: Addr :: -2 <= o < q < |procs| ==>
          !(Claims(pool, kt, procs, o, x) && Claims(pool, kt, procs, q, x)))
  }

  function Sizes(procs: seq<Process>): (n: nat) {
    if procs == [] then 0 else Sizes(procs[..|procs| - 1]) + procs[|procs| - 1].Size()
  }

  function Users(procs: seq<Process>): (n: nat) {
    if procs == [] then 0 else Users(procs[..|procs| - 1]) + if procs[|procs| - 1].Process? then 1 else 0
  }

  /** The kernel's address space maps every page to itself, for the supervisor. */
  ghost predicate KernelSpaceOk(mem: Mem, kt: Tree) {
    && Shape(mem, kt) && UserClosed(mem, kt)
    && (forall v: nat :: v < SPAN ==> Walk(mem, kt.p4, v) == Some(Leaf(v * PAGE, RW)))
  }

  ghost predicate MemoryOk(m: Machine, kt: Tree, procs: seq<Process>, all: seq<Addr>) {
    && PoolOk(m.pool) && KernelSpaceOk(m.mem, kt)
    && (forall i :: 0 <= i < |procs| ==> ProcessOk(m.mem, procs[i]))
    && OneOwner(m.pool, kt, procs, all)
  }

  const KERNEL_FRAMES: nat := 7

  /** The most frames that can be out at once with `users` processes: the
      kernel's, 7 + 69 for each process, and 69 more while one of them execs. */
  function Peak(users: nat): (n: nat) { KERNEL_FRAMES + 76 * users + 69 }

  ghost predicate CountsOk(pool: Pool, procs: seq<Process>, total: nat, users: nat) {
    && pool.Free() + KERNEL_FRAMES + Sizes(procs) == total
    && total <= |pool.unused| + Peak(users)
    && Users(procs) <= users <= 7
  }

  ghost predicate SlotsOk(s: S.Sched, procs: seq<Process>, fds: D.Fds) {
    && |procs| == |s.tasks| == S.MAX_TASKS && D.Sized(fds)
    && (forall i :: 0 <= i < |procs| ==>
          (procs[i].Process? <==> S.Live(s.tasks, i) && s.tasks[i].mode.UserMode?))
    && (forall i :: 0 <= i < |procs| ==> !S.Live(s.tasks, i) ==> fds.rows[i] == D.EMPTY_ROW)
  }

  /** The memory side of the invariant. */
  ghost predicate FramesOk(m: Machine, kt: Tree, procs: seq<Process>, all: seq<Addr>, users: nat) {
    && (forall x: Addr :: x in all ==> GoodFrame(x))
    && MemoryOk(m, kt, procs, all)
    && CountsOk(m.pool, procs, |all|, users)
  }

  ghost predicate Inv(k: Kernel, all: seq<Addr>, users: nat) {
    && S.Inv(k.s) && D.Inv(k.fds) && SlotsOk(k.s, k.procs, k.fds)
    && FramesOk(k.m, k.kt, k.procs, all, users)
    && O.FilesOk(k.fds, k.vfs)
  }
}
