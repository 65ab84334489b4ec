/**
 Tasks keep out of each other's way: until it runs again or is reaped, nothing of
 a task changes, whatever the others do.
 */
module Isolation {
  import opened Base
  import opened Frames
  import opened PageTables
  import opened Spaces
  import opened Processes
  import opened Kernel
  import opened KernelSafety
  import opened Calls
  import S = Sched
  import D = Descriptors
  import V = Vfs
  import F = FileCalls
  import Safety = SchedSafety
  import KernelRuns

  /** The frames of slot `id`, page tables included, hold what they held. */
  ghost predicate FramesKept(k: Kernel, k': Kernel, id: nat)
    requires id < |k.procs|
  {
    forall x: Addr :: x in k.m.mem && Holds(k.procs[id], x) ==> x in k'.m.mem && k'.m.mem[x] == k.m.mem[x]
  }

  /** The descriptors in the row of slot `id` are what and where they were. */
  ghost predicate DescsKept(k: Kernel, k': Kernel, id: nat)
    requires Sized(k) && id < 8
  {
    forall fd :: 0 <= fd < 4 ==> DescKept(k, k', k.fds.rows[id][fd])
  }

  ghost predicate DescKept(k: Kernel, k': Kernel, d: nat) {
    1 <= d <= |k.vfs.descs| ==> d <= |k'.vfs.descs| && k'.vfs.descs[d - 1] == k.vfs.descs[d - 1]
  }

  /** The task's process, memory, slots and descriptors are as they were. */
  ghost predicate Untouched(k: Kernel, k': Kernel, id: nat)
    requires Sized(k) && id < 8
  {
    && id < |k'.procs| && k'.procs[id] == k.procs[id] && FramesKept(k, k', id)
    && id < |k'.fds.rows| && k'.fds.rows[id] == k.fds.rows[id] && DescsKept(k, k', id)
  }

  // ---------------------------------------------------------------------
  // Nothing is shared
  // ---------------------------------------------------------------------

  lemma FramesApart(k: Kernel, all: seq<Addr>, users: nat, id: nat, other: nat, k': Kernel)
    requires FramesOk(k.m, k.kt, k.procs, all, users) && id < |k.procs| && other < |k.procs| && id != other
    requires OtherFrames(k, k', other)
    ensures FramesKept(k, k', id)
  {
    forall x: Addr | x in k.m.mem && Holds(k.procs[id], x)
      ensures x in k'.m.mem && k'.m.mem[x] == k.m.mem[x]
    {
      assert Claims(k.m.pool, k.kt, k.procs, id, x);
      Separate(k.m.pool, k.kt, k.procs, all, other, id, x);
    }
  }

  /** A descriptor in one task's row is open and in no other's. */
  lemma DescApart(k: Kernel, id: nat, fd: nat, other: nat)
    requires TablesOk(k) && id < 8 && fd < 4 && other < 8 && id != other && k.fds.rows[id][fd] != 0
    ensures F.Open1(k.vfs, k.fds.rows[id][fd]) && k.fds.rows[id][fd] !in k.fds.rows[other]
  {
    var d := k.fds.rows[id][fd];
    assert D.EntryOk(k.fds, id, fd);
    assert k.fds.open[d - 1] == V.Opens(k.vfs.descs)[d - 1];
    forall fe | 0 <= fe < 4
      ensures k.fds.rows[other][fe] != d
    {
      assert D.Unique(k.fds, id, fd, other, fe);
    }
  }

  /** Descriptors that were closed, or are another task's, are not this one's. */
  lemma DescsApart(k: Kernel, id: nat, other: nat, k': Kernel)
    requires TablesOk(k) && id < 8 && other < 8 && id != other && |k'.vfs.descs| == |k.vfs.descs|
    requires forall i :: 0 <= i < |k.vfs.descs| && !k.vfs.descs[i].Closed? && i + 1 !in k.fds.rows[other] ==>
               k'.vfs.descs[i] == k.vfs.descs[i]
    ensures DescsKept(k, k', id)
  {
    forall fd | 0 <= fd < 4
      ensures DescKept(k, k', k.fds.rows[id][fd])
    {
      if k.fds.rows[id][fd] != 0 {
        DescApart(k, id, fd, other);
      }
    }
  }

  lemma SameDescs(k: Kernel, id: nat, k': Kernel)
    requires Sized(k) && id < 8 && k'.vfs.descs == k.vfs.descs
    ensures DescsKept(k, k', id)
  {
  }

  // ---------------------------------------------------------------------
  // One step
  // ---------------------------------------------------------------------

  lemma SchedOnlyIsolates(k: Kernel, k': Kernel, id: nat)
    requires Sized(k) && id < 8 && k' == k.(s := k'.s)
    ensures Untouched(k, k', id)
  {
  }

  lemma ConsolesIsolate(k: Kernel, k': Kernel, id: nat, child: nat, a: nat, b: nat, c: nat)
    requires TablesOk(k) && id < 8 && child < 8 && id != child
    requires ConsolesIn(k.vfs.descs, k.fds.rows, child, k'.vfs.descs, k'.fds.rows, a, b, c)
    ensures k'.fds.rows[id] == k.fds.rows[id] && DescsKept(k, k', id)
  {
    DescsApart(k, id, child, k');
  }

  lemma SpawnMemoryIsolates(k: Kernel, all: seq<Addr>, users: nat, img: Image, id: nat, child: nat, k': Kernel)
    requires FramesOk(k.m, k.kt, k.procs, all, users) && id < |k.procs| && child < |k.procs| && id != child
    requires SpawnedMemory(k, img, child, k')
    ensures id < |k'.procs| && k'.procs[id] == k.procs[id] && FramesKept(k, k', id)
  {
    FramesApart(k, all, users, id, child, k');
  }

  lemma SpawnIsolates(k: Kernel, all: seq<Addr>, users: nat, img: Image, id: nat)
    requires Inv(k, all, users) && ImageOk(img) && Next(k, Spawn(img)).Ok?
    requires id < 8 && S.Live(k.s.tasks, id)
    ensures Untouched(k, Next(k, Spawn(img)).value, id)
  {
    var k' := Next(k, Spawn(img)).value;
    InvParts(k, all, users);
    var child, a, b, c := SpawnDoes(k, all, users, img);
    SpawnMemoryIsolates(k, all, users, img, id, child, k');
    ConsolesIsolate(k, k', id, child, a, b, c);
  }

  lemma ExecIsolates(k: Kernel, all: seq<Addr>, users: nat, img: Image, id: nat)
    requires Inv(k, all, users) && ImageOk(img) && Next(k, Exec(img)).Ok? && id < 8 && id != k.s.current
    ensures Untouched(k, Next(k, Exec(img)).value, id)
  {
    var k' := Next(k, Exec(img)).value;
    InvParts(k, all, users);
    ExecDoes(k, all, users, img);
    FramesApart(k, all, users, id, k.s.current, k');
  }

  lemma ReapIsolates(k: Kernel, all: seq<Addr>, users: nat, id: nat, gone: nat, k': Kernel)
    requires TablesOk(k) && FramesOk(k.m, k.kt, k.procs, all, users) && id < 8 && gone < 8 && id != gone
    requires ReapedMemory(k, gone, k') && ReapedTables(k, gone, k')
    ensures Untouched(k, k', id)
  {
    FramesApart(k, all, users, id, gone, k');
    DescsApart(k, id, gone, k');
  }

  lemma PollReapIsolates(k: Kernel, all: seq<Addr>, users: nat, id: nat, gone: nat)
    requires TablesOk(k) && FramesOk(k.m, k.kt, k.procs, all, users) && S.Harvest(k.s) == Some(gone)
    requires Next(k, Poll).Ok? && id < 8 && id != gone
    ensures Untouched(k, Next(k, Poll).value, id)
  {
    ReapMemoryDoes(k, all, users, gone);
    ReapTablesDoes(k, gone);
    ReapIsolates(k, all, users, id, gone, Next(k, Poll).value);
  }

  lemma PollIsolates(k: Kernel, all: seq<Addr>, users: nat, id: nat)
    requires Inv(k, all, users) && Enabled(k, Poll) && Next(k, Poll).Ok? && id < 8 && S.Live(k.s.tasks, id)
    requires !ToReap(k.s, id)
    ensures Untouched(k, Next(k, Poll).value, id)
  {
    InvParts(k, all, users);
    match S.Harvest(k.s) {
      case Some(gone) =>
        HarvestIff(k.s, gone);
        PollReapIsolates(k, all, users, id, gone);
      case None =>
        NobodyToReap(k.s);
        PollYields(k);
        SchedOnlyIsolates(k, Next(k, Poll).value, id);
    }
  }

  lemma NobodyToReap(s: S.Sched)
    requires S.Inv(s) && !s.tasks[s.current].pc.Outside? && S.Harvest(s).None?
    ensures forall i: nat :: !ToReap(s, i)
  {
    forall i: nat
      ensures !ToReap(s, i)
    {
      HarvestIff(s, i);
    }
  }

  lemma StoreIsolates(k: Kernel, all: seq<Addr>, users: nat, v: nat, words: seq<Word>, id: nat)
    requires Sized(k) && FramesOk(k.m, k.kt, k.procs, all, users) && id < 8 && id != k.s.current
    ensures Next(k, Store(v, words)).Ok?
    ensures Untouched(k, Next(k, Store(v, words)).value, id)
  {
    assert ProcessOk(k.m.mem, k.procs[k.s.current]);
    StoreDoes(k, v, words);
    FramesApart(k, all, users, id, k.s.current, Next(k, Store(v, words)).value);
  }

  lemma BrkIsolates(k: Kernel, addr: int, id: nat)
    requires Sized(k) && ProcessOk(k.m.mem, k.procs[k.s.current]) && id < 8 && id != k.s.current
    ensures Next(k, Brk(addr)).Ok?
    ensures Untouched(k, Next(k, Brk(addr)).value, id)
  {
    BrkDoes(k, addr);
  }

  /** A change to one descriptor of the running task, or to none. */
  lemma OneDescIsolates(k: Kernel, id: nat, d: nat, k': Kernel)
    requires TablesOk(k) && id < 8 && id != k.s.current && F.OtherDescs(k.vfs, k'.vfs, d)
    requires d in k.fds.rows[k.s.current] || (1 <= d <= |k.vfs.descs| && k.vfs.descs[d - 1].Closed?)
    ensures DescsKept(k, k', id)
  {
    DescsApart(k, id, k.s.current, k');
  }

  /** What a read, write or listing through d leaves alone. */
  lemma TransferIsolatesBy(k: Kernel, fd: nat, k': Kernel, id: nat)
    requires TablesOk(k) && id < 8 && id != k.s.current && k' == k.(vfs := k'.vfs)
    requires NoSuchFd(k, fd) ==> k' == k
    requires forall d: nat :: Holding(k, fd, d) ==> F.OtherDescs(k.vfs, k'.vfs, d)
    ensures Untouched(k, k', id)
  {
    if NoSuchFd(k, fd) {
      SameDescs(k, id, k');
    } else {
      var d := k.fds.rows[k.s.current][fd];
      assert Holding(k, fd, d);
      OneDescIsolates(k, id, d, k');
    }
  }

  lemma WriteIsolates(k: Kernel, fd: nat, data: seq<byte>, junk: nat -> byte, id: nat)
    requires TablesOk(k) && id < 8 && id != k.s.current
    ensures Next(k, Write(fd, data, junk)).Ok?
    ensures Untouched(k, Next(k, Write(fd, data, junk)).value, id)
  {
    WriteDoes(k, fd, data, junk);
    TransferIsolatesBy(k, fd, Next(k, Write(fd, data, junk)).value, id);
  }

  lemma ReadIsolates(k: Kernel, fd: nat, length: int, typed: seq<byte>, id: nat)
    requires TablesOk(k) && id < 8 && id != k.s.current
    ensures Next(k, Read(fd, length, typed)).Ok?
    ensures Untouched(k, Next(k, Read(fd, length, typed)).value, id)
  {
    ReadDoes(k, fd, length, typed);
    TransferIsolatesBy(k, fd, Next(k, Read(fd, length, typed)).value, id);
  }

  lemma ListIsolates(k: Kernel, fd: nat, length: int, id: nat)
    requires TablesOk(k) && id < 8 && id != k.s.current
    ensures Next(k, List(fd, length)).Ok?
    ensures Untouched(k, Next(k, List(fd, length)).value, id)
  {
    ListDoes(k, fd, length);
    TransferIsolatesBy(k, fd, Next(k, List(fd, length)).value, id);
  }

  lemma OpenIsolatesBy(k: Kernel, t: V.Target, k': Kernel, r: int, id: nat)
    requires TablesOk(k) && id < 8 && id != k.s.current && OpenDone(k, t, k', r)
    ensures Untouched(k, k', id)
  {
    if k'.vfs.descs == k.vfs.descs {
      SameDescs(k, id, k');
    } else {
      var d: nat :| F.LowestClosed(k.vfs.descs, d) && k'.vfs.descs == k.vfs.descs[d - 1 := F.DescFor(t, |k.vfs.nodes|)];
      OneDescIsolates(k, id, d, k');
    }
  }

  lemma OpenIsolates(k: Kernel, path: seq<byte>, flags: int, id: nat)
    requires TablesOk(k) && id < 8 && id != k.s.current && Next(k, Open(path, flags)).Ok?
    ensures Untouched(k, Next(k, Open(path, flags)).value, id)
  {
    OpenDoes(k, path, flags);
    var t := V.OpenTarget(V.Metas(k.vfs.nodes), path, flags);
    OpenIsolatesBy(k, t, Next(k, Open(path, flags)).value, OpenResult(k, path, flags).value, id);
  }

  lemma CloseIsolates(k: Kernel, fd: nat, id: nat)
    requires TablesOk(k) && id < 8 && id != k.s.current
    ensures Next(k, Close(fd)).Ok?
    ensures Untouched(k, Next(k, Close(fd)).value, id)
  {
    CloseDoes(k, fd);
    var k' := Next(k, Close(fd)).value;
    if NoSuchFd(k, fd) {
      SameDescs(k, id, k');
    } else {
      var d := k.fds.rows[k.s.current][fd];
      assert Holding(k, fd, d);
      OneDescIsolates(k, id, d, k');
    }
  }

  lemma FileIsolates(k: Kernel, step: Step, id: nat)
    requires TablesOk(k) && FileStep(step) && Next(k, step).Ok? && id < 8 && id != k.s.current
    ensures Untouched(k, Next(k, step).value, id)
  {
    match step
    case Open(path, flags) => OpenIsolates(k, path, flags, id);
    case Close(fd) => CloseIsolates(k, fd, id);
    case Write(fd, data, junk) => WriteIsolates(k, fd, data, junk, id);
    case Read(fd, length, typed) => ReadIsolates(k, fd, length, typed, id);
    case List(fd, length) => ListIsolates(k, fd, length, id);
  }

  lemma MemoryIsolates(k: Kernel, all: seq<Addr>, users: nat, step: Step, id: nat)
    requires Inv(k, all, users) && MemoryStep(step) && StepOk(step) && Enabled(k, step) && Next(k, step).Ok?
    requires id < 8 && id != k.s.current && S.Live(k.s.tasks, id) && !(step.Poll? && ToReap(k.s, id))
    ensures Untouched(k, Next(k, step).value, id)
  {
    InvParts(k, all, users);
    match step
    case Spawn(img) => SpawnIsolates(k, all, users, img, id);
    case Exec(img) => ExecIsolates(k, all, users, img, id);
    case Poll => PollIsolates(k, all, users, id);
    case Brk(addr) => BrkIsolates(k, addr, id);
    case Store(v, words) => StoreIsolates(k, all, users, v, words, id);
  }

  lemma PlainIsolates(k: Kernel, step: Step, id: nat)
    requires Sized(k) && !FileStep(step) && !MemoryStep(step) && Next(k, step).Ok? && id < 8
    ensures Untouched(k, Next(k, step).value, id)
  {
    SchedOnlyIsolates(k, Next(k, step).value, id);
  }

  /** Whatever step the running task takes, another live task's process, memory,
      page tables, slots and descriptors stay as they are, unless the step reaps it. */
  lemma StepIsolates(k: Kernel, all: seq<Addr>, users: nat, step: Step, id: nat)
    requires Inv(k, all, users) && StepOk(step) && Enabled(k, step) && Next(k, step).Ok?
    requires id < 8 && id != k.s.current && S.Live(k.s.tasks, id) && !(step.Poll? && ToReap(k.s, id))
    ensures Untouched(k, Next(k, step).value, id)
  {
    InvParts(k, all, users);
    if FileStep(step) {
      FileIsolates(k, step, id);
    } else if MemoryStep(step) {
      MemoryIsolates(k, all, users, step, id);
    } else {
      PlainIsolates(k, step, id);
    }
  }

  // ---------------------------------------------------------------------
  // Every run
  // ---------------------------------------------------------------------

  /** A live task stays live unless it is reaped. */
  lemma StaysLive(s: S.Sched, step: S.Step, id: nat)
    requires S.Inv(s) && S.Enabled(s, step) && S.Next(s, step).Ok? && S.Live(s.tasks, id)
    requires !(step.PollStep? && ToReap(s, id))
    ensures S.Live(S.Next(s, step).value.tasks, id)
  {
    Safety.TasksAfter(s, step);
    if step.PollStep? && S.Harvest(s).Some? {
      HarvestIff(s, S.Harvest(s).value);
    }
    if step.ExitStep? {
      Safety.DepartedShape(s, step.code);
    }
  }

  lemma UntouchedTrans(a: Kernel, b: Kernel, c: Kernel, id: nat)
    requires Sized(a) && Sized(b) && id < 8 && Untouched(a, b, id) && Untouched(b, c, id)
    ensures Untouched(a, c, id)
  {
    forall fd | 0 <= fd < 4
      ensures DescKept(a, c, a.fds.rows[id][fd])
    {
      assert DescKept(a, b, a.fds.rows[id][fd]) && DescKept(b, c, b.fds.rows[id][fd]);
    }
  }

  /** The i-th step is another task's, and does not reap this one. */
  ghost predicate Aside(states: seq<Kernel>, steps: seq<Step>, i: nat, id: nat)
    requires i < |steps| && i < |states| && Sized(states[i])
  {
    states[i].s.current != id && !(steps[i].Poll? && ToReap(states[i].s, id))
  }

  ghost predicate KeptAt(states: seq<Kernel>, i: nat, id: nat)
    requires i + 1 < |states| && id < 8 && forall j :: 0 <= j < |states| ==> Sized(states[j])
  {
    S.Live(states[i].s.tasks, id) ==>
      S.Live(states[i + 1].s.tasks, id) && Untouched(states[i], states[i + 1], id)
  }

  lemma KeptStep(states: seq<Kernel>, steps: seq<Step>, i: nat, all: seq<Addr>, id: nat)
    requires KernelRuns.IsRun(states, steps) && i < |steps| && Inv(states[i], all, 7) && id < 8
    requires Aside(states, steps, i, id)
    ensures KeptAt(states, i, id)
  {
    if S.Live(states[i].s.tasks, id) {
      KernelRuns.RunStep(states, steps, i);
      StepIsolates(states[i], all, 7, steps[i], id);
      KernelRuns.RunProjects(states, steps, i);
      InvParts(states[i], all, 7);
      if SchedStep(steps[i]).Some? {
        StaysLive(states[i].s, SchedStep(steps[i]).value, id);
      }
    }
  }

  lemma {:induction false} KeptAlong(states: seq<Kernel>, m: nat, n: nat, id: nat)
    requires m <= n < |states| && id < 8 && forall j :: 0 <= j < |states| ==> Sized(states[j])
    requires S.Live(states[m].s.tasks, id) && forall i :: m <= i < n ==> KeptAt(states, i, id)
    ensures S.Live(states[n].s.tasks, id) && Untouched(states[m], states[n], id)
  {
    if m < n {
      KeptAlong(states, m, n - 1, id);
      assert KeptAt(states, n - 1, id);
      UntouchedTrans(states[m], states[n - 1], states[n], id);
    }
  }

  /** In every run from boot: while a live task does not run and is not reaped, it
      stays, and its process, the contents of its pages and page tables, its
      descriptor slots and what its descriptors point at stay as they are,
      whatever the other tasks spawn, exec, write, close, wait for or reap. */
  lemma RunIsolates(pool: Pool, vfs: V.Vfs, states: seq<Kernel>, steps: seq<Step>, m: nat, n: nat, id: nat)
    requires KernelRuns.BootRun(pool, vfs, states, steps, n) && m <= n && id < 8
    requires S.Live(states[m].s.tasks, id) && forall i :: m <= i < n ==> Aside(states, steps, i, id)
    ensures S.Live(states[n].s.tasks, id) && Untouched(states[m], states[n], id)
  {
    forall i | m <= i < n
      ensures KeptAt(states, i, id)
    {
      KernelRuns.InvInRun(pool, vfs, states, steps, i);
      KeptStep(states, steps, i, pool.unused + pool.recycled, id);
    }
    KeptAlong(states, m, n, id);
  }
}
