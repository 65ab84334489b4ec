/**
 What each call does to the whole machine, said of slots, tables and bytes, and
 what it leaves alone.
 */
module Calls {
  import opened Base
  import opened Frames
  import opened PageTables
  import opened Refinement
  import opened Spaces
  import opened Processes
  import opened Kernel
  import opened KernelSafety
  import S = Sched
  import Safety = SchedSafety
  import D = Descriptors
  import V = Vfs
  import O = OpenFiles
  import F = FileCalls
  import Names

  // ---------------------------------------------------------------------
  // Results
  // ---------------------------------------------------------------------

  /** What the write system call returns. */
  function WriteResult(k: Kernel, fd: nat, data: seq<byte>, junk: nat -> byte): (r: int)
    requires Sized(k)
  {
    V.Write(k.vfs, TransferOf(k, Write(fd, data, junk)).d, data, junk).1
  }

  /** The bytes a read returns, None for -1. */
  function ReadResult(k: Kernel, fd: nat, length: int, typed: seq<byte>): (r: Option<seq<byte>>)
    requires Sized(k)
  {
    V.Read(k.vfs, TransferOf(k, Read(fd, length, typed)).d, length, typed).1
  }

  function ListResult(k: Kernel, fd: nat, length: int): (r: Option<seq<byte>>)
    requires Sized(k)
  {
    V.ReadDir(k.vfs, TransferOf(k, List(fd, length)).d, length).1
  }

  /** What open returns: a slot, or -1. */
  function OpenResult(k: Kernel, path: seq<byte>, flags: int): (r: Outcome<int>)
    requires Sized(k)
  {
    O.OpenedFd(k.fds, k.vfs, k.s.current, path, flags)
  }

  function CloseResult(k: Kernel, fd: nat): (r: int)
    requires Sized(k)
  {
    if D.Close(k.fds, k.s.current, fd).Some? then 0 else -1
  }

  // ---------------------------------------------------------------------
  // Reads, writes and listings
  // ---------------------------------------------------------------------

  /** The running task's slot fd holds descriptor d. */
  predicate Holding(k: Kernel, fd: nat, d: nat)
    requires Sized(k)
  {
    fd < 4 && k.fds.rows[k.s.current][fd] == d && d != 0
  }

  /** A slot out of range or empty. */
  predicate NoSuchFd(k: Kernel, fd: nat)
    requires Sized(k)
  {
    fd >= 4 || k.fds.rows[k.s.current][fd] == 0
  }

  /** The part of the invariant that is about descriptors and files. */
  ghost predicate TablesOk(k: Kernel) { Sized(k) && D.Inv(k.fds) && O.FilesOk(k.fds, k.vfs) }

  /** The invariant gives what the lemmas of this module ask for. */
  lemma InvParts(k: Kernel, all: seq<Addr>, users: nat)
    requires Inv(k, all, users)
    ensures TablesOk(k) && S.Inv(k.s) && FramesOk(k.m, k.kt, k.procs, all, users)
    ensures forall i :: 0 <= i < |k.procs| ==> ProcessOk(k.m.mem, k.procs[i])
  {
  }

  /** A descriptor in a slot is open. */
  lemma HeldIsOpen(k: Kernel, fd: nat, d: nat)
    requires TablesOk(k) && Holding(k, fd, d)
    ensures F.Open1(k.vfs, d)
  {
    assert D.EntryOk(k.fds, k.s.current, fd);
    assert k.fds.open[d - 1] == V.Opens(k.vfs.descs)[d - 1];
  }

  /** The steps on the descriptor in the slot, 0 for none. */
  lemma Transfers(k: Kernel, fd: nat, d: nat, data: seq<byte>, junk: nat -> byte, length: int, typed: seq<byte>)
    requires Sized(k) && d == if fd < 4 then k.fds.rows[k.s.current][fd] else 0
    ensures Next(k, Write(fd, data, junk)) == Ok(k.(vfs := V.Write(k.vfs, d, data, junk).0))
    ensures WriteResult(k, fd, data, junk) == V.Write(k.vfs, d, data, junk).1
    ensures Next(k, Read(fd, length, typed)) == Ok(k.(vfs := V.Read(k.vfs, d, length, typed).0))
    ensures ReadResult(k, fd, length, typed) == V.Read(k.vfs, d, length, typed).1
    ensures Next(k, List(fd, length)) == Ok(k.(vfs := V.ReadDir(k.vfs, d, length).0))
    ensures ListResult(k, fd, length) == V.ReadDir(k.vfs, d, length).1
  {
  }

  /** What a write through slot fd did: with no descriptor there nothing, and
      otherwise to the descriptor in that very slot what a write does. */
  ghost predicate WriteDone(k: Kernel, fd: nat, data: seq<byte>, k': Kernel, r: int)
    requires TablesOk(k)
  {
    && k' == k.(vfs := k'.vfs)
    && (NoSuchFd(k, fd) ==> k' == k && r == -1)
    && (forall d: nat :: Holding(k, fd, d) ==> F.Open1(k.vfs, d) && F.Written(k.vfs, d, data, k'.vfs, r))
  }

  lemma WriteDoes(k: Kernel, fd: nat, data: seq<byte>, junk: nat -> byte)
    requires TablesOk(k)
    ensures Next(k, Write(fd, data, junk)).Ok?
    ensures WriteDone(k, fd, data, Next(k, Write(fd, data, junk)).value, WriteResult(k, fd, data, junk))
  {
    var d := if fd < 4 then k.fds.rows[k.s.current][fd] else 0;
    Transfers(k, fd, d, data, junk, 0, []);
    if !NoSuchFd(k, fd) {
      HeldIsOpen(k, fd, d);
      F.WriteDoes(k.vfs, d, data, junk);
    }
  }

  ghost predicate ReadDone(k: Kernel, fd: nat, length: int, typed: seq<byte>, k': Kernel, r: Option<seq<byte>>)
    requires TablesOk(k)
  {
    && k' == k.(vfs := k'.vfs)
    && (NoSuchFd(k, fd) ==> k' == k && r == None)
    && (forall d: nat :: Holding(k, fd, d) ==> F.Open1(k.vfs, d) && F.ReadOut(k.vfs, d, length, typed, k'.vfs, r))
  }

  lemma ReadDoes(k: Kernel, fd: nat, length: int, typed: seq<byte>)
    requires TablesOk(k)
    ensures Next(k, Read(fd, length, typed)).Ok?
    ensures ReadDone(k, fd, length, typed, Next(k, Read(fd, length, typed)).value, ReadResult(k, fd, length, typed))
  {
    var d := if fd < 4 then k.fds.rows[k.s.current][fd] else 0;
    Transfers(k, fd, d, [], _ => 0, length, typed);
    if !NoSuchFd(k, fd) {
      HeldIsOpen(k, fd, d);
      F.ReadDoes(k.vfs, d, length, typed);
    }
  }

  ghost predicate ListDone(k: Kernel, fd: nat, length: int, k': Kernel, r: Option<seq<byte>>)
    requires TablesOk(k)
  {
    && k' == k.(vfs := k'.vfs)
    && (NoSuchFd(k, fd) ==> k' == k && r == None)
    && (forall d: nat :: Holding(k, fd, d) ==> F.Open1(k.vfs, d) && F.ListedOut(k.vfs, d, length, k'.vfs, r))
  }

  lemma ListDoes(k: Kernel, fd: nat, length: int)
    requires TablesOk(k)
    ensures Next(k, List(fd, length)).Ok?
    ensures ListDone(k, fd, length, Next(k, List(fd, length)).value, ListResult(k, fd, length))
  {
    var d := if fd < 4 then k.fds.rows[k.s.current][fd] else 0;
    Transfers(k, fd, d, [], _ => 0, length, []);
    if NoSuchFd(k, fd) {
      NothingListed(k.vfs, length);
    } else {
      HeldIsOpen(k, fd, d);
      F.ListDoes(k.vfs, d, length);
    }
  }

  lemma NothingListed(v: V.Vfs, length: int)
    ensures V.ReadDir(v, 0, length) == (v, None)
  {
  }

  // ---------------------------------------------------------------------
  // Open and close
  // ---------------------------------------------------------------------

  /** One slot of one task is different. */
  ghost predicate SlotSet(rows: seq<seq<nat>>, rows': seq<seq<nat>>, id: nat, fd: nat, d: nat)
    requires id < |rows| && fd < |rows[id]|
  {
    && |rows'| == |rows| && rows'[id] == rows[id][fd := d]
    && forall i :: 0 <= i < |rows| && i != id ==> rows'[i] == rows[i]
  }

  predicate RowFull(row: seq<nat>) { forall i :: 0 <= i < |row| ==> row[i] != 0 }

  /** The highest free slot of the row. */
  predicate HighestFree(row: seq<nat>, fd: int) {
    0 <= fd < |row| && row[fd] == 0 && forall i :: fd < i < |row| ==> row[i] != 0
  }

  /** An open of target t: whatever it does to the nodes is done; then the lowest
      closed descriptor, at the start of the target, goes into the caller's
      highest free slot, which is returned, unless one of the two is missing. */
  ghost predicate OpenDone(k: Kernel, t: V.Target, k': Kernel, r: int)
    requires TablesOk(k)
  {
    var row := k.fds.rows[k.s.current];
    && k' == k.(fds := k'.fds, vfs := k'.vfs) && F.NodesFor(k.vfs, t, k'.vfs)
    && if t.Nothing? || F.AllOpen(k.vfs.descs) || RowFull(row)
       then k'.fds == k.fds && k'.vfs.descs == k.vfs.descs && r == -1
       else
         exists d: nat :: F.LowestClosed(k.vfs.descs, d) && HighestFree(row, r)
           && k'.vfs.descs == k.vfs.descs[d - 1 := F.DescFor(t, |k.vfs.nodes|)]
           && SlotSet(k.fds.rows, k'.fds.rows, k.s.current, r, d)
  }

  lemma FreeSlotIs(row: seq<nat>)
    requires |row| == 4
    ensures var fd := D.FreeSlot(row, 3);
            if fd == 4 then RowFull(row) else HighestFree(row, fd) && !RowFull(row)
  {
  }

  lemma OpenFileDone(k: Kernel, t: V.Target, v1: V.Vfs, d: int, k': Kernel, r: int)
    requires TablesOk(k) && F.OpenedOut(k.vfs, t, v1, d) && 0 <= d <= 32 && |v1.descs| == 32
    requires var fd := D.FreeSlot(k.fds.rows[k.s.current], 3);
             if d == 0 then k' == k.(vfs := v1) && r == -1
             else if fd == 4 then k' == k.(vfs := V.Close(v1, d).0) && r == -1
             else
               && k' == k.(fds := D.Fds(k.fds.open[d - 1 := true], D.WithEntry(k.fds.rows, k.s.current, fd, d)),
                           vfs := v1)
               && r == fd
    ensures OpenDone(k, t, k', r)
  {
    FreeSlotIs(k.fds.rows[k.s.current]);
    if d != 0 && D.FreeSlot(k.fds.rows[k.s.current], 3) == 4 {
      assert V.Close(v1, d).0.descs == k.vfs.descs;
    }
    if d != 0 && D.FreeSlot(k.fds.rows[k.s.current], 3) != 4 {
      assert SlotSet(k.fds.rows, k'.fds.rows, k.s.current, r, d);
    }
  }

  lemma OpenParts(k: Kernel, path: seq<byte>, flags: int)
    requires Sized(k)
    ensures Next(k, Open(path, flags)).Panic? <==> V.Open(k.vfs, path, flags).Panic?
    ensures OpenResult(k, path, flags).Panic? <==> V.Open(k.vfs, path, flags).Panic?
    ensures V.Open(k.vfs, path, flags).Ok? ==>
              var (v1, d) := V.Open(k.vfs, path, flags).value;
              var k', r := Next(k, Open(path, flags)).value, OpenResult(k, path, flags).value;
              var fd := D.FreeSlot(k.fds.rows[k.s.current], 3);
              if d <= 0 || d > 32 then k' == k.(vfs := v1) && r == -1
              else if fd == 4 then k' == k.(vfs := V.Close(v1, d).0) && r == -1
              else
                && k' == k.(fds := D.Fds(k.fds.open[d - 1 := true], D.WithEntry(k.fds.rows, k.s.current, fd, d)),
                            vfs := v1)
                && r == fd
  {
  }

  lemma OpenDoes(k: Kernel, path: seq<byte>, flags: int)
    requires TablesOk(k)
    ensures var t, r := V.OpenTarget(V.Metas(k.vfs.nodes), path, flags), Next(k, Open(path, flags));
            && Names.Designates(V.Metas(k.vfs.nodes), path, flags, t)
            && (r.Panic? <==> t.NewFile? && |k.vfs.nodes| >= 32)
            && (r.Ok? ==> OpenResult(k, path, flags).Ok? && OpenDone(k, t, r.value, OpenResult(k, path, flags).value))
  {
    F.OpenDoes(k.vfs, path, flags);
    OpenParts(k, path, flags);
    if V.Open(k.vfs, path, flags).Ok? {
      var (v1, d) := V.Open(k.vfs, path, flags).value;
      var t := V.OpenTarget(V.Metas(k.vfs.nodes), path, flags);
      OpenFileDone(k, t, v1, d, Next(k, Open(path, flags)).value, OpenResult(k, path, flags).value);
    }
  }

  /** A close empties the named slot and closes its descriptor; with none there it returns -1. */
  lemma CloseDoes(k: Kernel, fd: nat)
    requires TablesOk(k)
    ensures Next(k, Close(fd)).Ok?
    ensures var k', r := Next(k, Close(fd)).value, CloseResult(k, fd);
            && (NoSuchFd(k, fd) ==> k' == k && r == -1)
            && (forall d: nat :: Holding(k, fd, d) ==>
                  && r == 0 && k' == k.(fds := k'.fds, vfs := k'.vfs) && F.Open1(k.vfs, d)
                  && k'.vfs.nodes == k.vfs.nodes && k'.vfs.descs == k.vfs.descs[d - 1 := V.Closed]
                  && SlotSet(k.fds.rows, k'.fds.rows, k.s.current, fd, 0))
  {
    if !NoSuchFd(k, fd) {
      var d := k.fds.rows[k.s.current][fd];
      HeldIsOpen(k, fd, d);
      assert k.fds.open[d - 1];
    }
  }

  // ---------------------------------------------------------------------
  // Memory
  // ---------------------------------------------------------------------

  /** brk moves the caller's break anywhere in its four heap pages and returns it;
      0 asks for it; any other request, and a kernel task, gets -1. */
  lemma BrkDoes(k: Kernel, addr: int)
    requires Sized(k) && ProcessOk(k.m.mem, k.procs[k.s.current])
    ensures Next(k, Brk(addr)).Ok?
    ensures var k', r, id := Next(k, Brk(addr)).value, BrkResult(k, addr), k.s.current;
            var p := k.procs[id];
            if p.Nobody? then k' == k && r == -1
            else if addr == 0 then k' == k && r == p.brk
            else if 0x2000_0000 + (|p.pages| - 5) * 4096 <= addr <= 0x2000_0000 + (|p.pages| - 1) * 4096
            then k' == k.(procs := k.procs[id := p.(brk := addr)]) && r == addr
            else k' == k && r == -1
  {
  }

  /** A store by ring 3 at page v of its address space replaces the words of the
      frame of that page, if it is a page of the process and writable; otherwise
      nothing happens. */
  lemma StoreDoes(k: Kernel, v: nat, words: seq<Word>)
    requires Sized(k) && ProcessOk(k.m.mem, k.procs[k.s.current])
    ensures Next(k, Store(v, words)).Ok?
    ensures var k', p := Next(k, Store(v, words)).value, k.procs[k.s.current];
            if p.Process? && 0x20000 <= v < 0x20000 + |p.pages| && |p.flags| == |p.pages|
               && p.flags[v - 0x20000].writable
            then k' == k.(m := k.m.(mem := k.m.mem[p.pages[v - 0x20000] := words]))
            else k' == k
  {
    var p := k.procs[k.s.current];
    if p.Process? && v < SPAN {
      UserReach(k.m.mem, p, v);
    }
  }

  /** The frames of slot `id` and free frames aside, memory is as it was. */
  ghost predicate OtherFrames(k: Kernel, k': Kernel, id: nat)
    requires id < |k.procs|
  {
    forall x: Addr :: x in k.m.mem && !InPool(k.m.pool, x) && !Holds(k.procs[id], x) ==>
                        x in k'.m.mem && k'.m.mem[x] == k.m.mem[x]
  }

  /** Exec gives the caller the image, in its own address space, and touches
      neither its descriptors, nor the tasks, nor the files, nor another process. */
  lemma ExecDoes(k: Kernel, all: seq<Addr>, users: nat, img: Image)
    requires Sized(k) && FramesOk(k.m, k.kt, k.procs, all, users) && ImageOk(img) && Next(k, Exec(img)).Ok?
    ensures var k', id := Next(k, Exec(img)).value, k.s.current;
            && k'.s == k.s && k'.kt == k.kt && k'.fds == k.fds && k'.vfs == k.vfs
            && |k'.procs| == |k.procs|
            && (forall i :: 0 <= i < |k.procs| && i != id ==> k'.procs[i] == k.procs[i])
            && OtherFrames(k, k', id)
            && (k.procs[id].Nobody? ==> k' == k)
            && (k.procs[id].Process? ==>
                  && Loaded(k'.m.mem, k'.procs[id], img) && k'.procs[id].tree == k.procs[id].tree
                  && k'.procs[id].brk == 0x2000_0000 + (img.Pages() - 5) * 4096)
  {
    var id := k.s.current;
    if k.procs[id].Process? {
      ExecParts(k, img);
      RebuiltSlot(k.m, k.kt, k.procs, all, users, id, img);
    }
  }

  lemma ExecParts(k: Kernel, img: Image)
    requires Sized(k) && ImageOk(img) && Next(k, Exec(img)).Ok? && k.procs[k.s.current].Process?
    ensures var r, k' := Rebuild(k.m, k.procs[k.s.current], img), Next(k, Exec(img)).value;
            r.Ok? && k' == k.(m := r.value.0, procs := k.procs[k.s.current := r.value.1])
  {
  }

  lemma RebuiltSlot(m: Machine, kt: Tree, procs: seq<Process>, all: seq<Addr>, users: nat, id: nat, img: Image)
    requires FramesOk(m, kt, procs, all, users) && id < |procs| && procs[id].Process? && ImageOk(img)
    requires Rebuild(m, procs[id], img).Ok?
    ensures var (m', p) := Rebuild(m, procs[id], img).value;
            && Swapped(m, procs[id], m', p) && Loaded(m'.mem, p, img) && p.tree == procs[id].tree
            && p.brk == 0x2000_0000 + (img.Pages() - 5) * 4096
  {
    BreakStarts(m, procs[id], img);
    SlotReady(m, kt, procs, all, users, id);
    RebuildOk(m, procs[id], img);
  }

  // ---------------------------------------------------------------------
  // Spawn
  // ---------------------------------------------------------------------

  /** The first three closed descriptors became a console input and two console
      outputs, and stand in this order in the row of task `id`. */
  ghost predicate ConsolesIn(descs: seq<V.Desc>, rows: seq<seq<nat>>, id: nat, descs': seq<V.Desc>,
                             rows': seq<seq<nat>>, a: nat, b: nat, c: nat) {
    && F.LowestClosed(descs, a)
    && var descs1 := descs[a - 1 := V.ConsoleIn];
    && F.LowestClosed(descs1, b)
    && var descs2 := descs1[b - 1 := V.ConsoleOut];
    && F.LowestClosed(descs2, c) && descs' == descs2[c - 1 := V.ConsoleOut]
    && id < |rows| == |rows'| && rows'[id] == [a, b, c, 0]
    && forall i :: 0 <= i < |rows| && i != id ==> rows'[i] == rows[i]
  }

  /** One console: the lowest closed descriptor. */
  lemma ConsoleDoes(v: V.Vfs, what: V.Desc)
    requires !what.Closed? && D.FirstClosed(V.Opens(v.descs), 1) != 0
    ensures var d := D.FirstClosed(V.Opens(v.descs), 1);
            && F.LowestClosed(v.descs, d) && V.WithDesc(v, what) == (v.(descs := v.descs[d - 1 := what]), d)
            && V.Opens(v.descs[d - 1 := what]) == D.Taken(V.Opens(v.descs), d)
  {
    F.AllocDoes(v.descs, what);
    O.AllocMatches(v, what);
  }

  lemma FilledRow(rows: seq<seq<nat>>, id: nat, a: nat, b: nat, c: nat)
    requires id < |rows| && |rows[id]| == 4
    ensures var rows3 := D.WithEntry(D.WithEntry(D.WithEntry(rows, id, 0, a), id, 1, b), id, 2, c);
            var rows' := D.WithEntry(rows3, id, 3, 0);
            && |rows'| == |rows| && rows'[id] == [a, b, c, 0]
            && forall i :: 0 <= i < |rows| && i != id ==> rows'[i] == rows[i]
  {
    assert rows[id][0 := a][1 := b][2 := c][3 := 0] == [a, b, c, 0];
  }

  lemma ThreeConsoles(v: V.Vfs, a: nat, b: nat, c: nat)
    requires a == D.FirstClosed(V.Opens(v.descs), 1) && a != 0
    requires b == D.FirstClosed(D.Taken(V.Opens(v.descs), a), 1) && b != 0
    requires c == D.FirstClosed(D.Taken(D.Taken(V.Opens(v.descs), a), b), 1) && c != 0
    ensures F.LowestClosed(v.descs, a)
    ensures var descs1 := v.descs[a - 1 := V.ConsoleIn];
            && F.LowestClosed(descs1, b)
            && var descs2 := descs1[b - 1 := V.ConsoleOut];
            && F.LowestClosed(descs2, c) && O.Consoles(v) == v.(descs := descs2[c - 1 := V.ConsoleOut])
  {
    ConsoleDoes(v, V.ConsoleIn);
    var v1 := v.(descs := v.descs[a - 1 := V.ConsoleIn]);
    ConsoleDoes(v1, V.ConsoleOut);
    var v2 := v1.(descs := v1.descs[b - 1 := V.ConsoleOut]);
    ConsoleDoes(v2, V.ConsoleOut);
  }

  lemma ConsolesDo(f: D.Fds, v: V.Vfs, id: nat) returns (a: nat, b: nat, c: nat)
    requires D.Sized(f) && id < 8 && O.Matched(f, v) && D.InitTask(f, id).Ok?
    ensures ConsolesIn(v.descs, f.rows, id, O.Consoles(v).descs, D.InitTask(f, id).value.rows, a, b, c)
    ensures O.Consoles(v).nodes == v.nodes
  {
    a := D.FirstClosed(f.open, 1);
    b := D.FirstClosed(D.Taken(f.open, a), 1);
    c := D.FirstClosed(D.Taken(D.Taken(f.open, a), b), 1);
    D.InitTaskParts(f, id, a, b, c);
    ThreeConsoles(v, a, b, c);
    FilledRow(f.rows, id, a, b, c);
  }

  /** No slot below is empty. */
  ghost predicate LowestEmpty(tasks: seq<S.Task>, id: nat) {
    id < |tasks| && tasks[id].state.Empty? && forall j :: 0 <= j < id ==> !tasks[j].state.Empty?
  }

  /** The new process in slot `id` has the image's memory, and no other is touched. */
  ghost predicate SpawnedMemory(k: Kernel, img: Image, id: nat, k': Kernel) {
    && id < |k'.procs| == |k.procs| && k'.kt == k.kt && OtherFrames(k, k', id)
    && (forall i :: 0 <= i < |k.procs| && i != id ==> k'.procs[i] == k.procs[i])
    && Loaded(k'.m.mem, k'.procs[id], img) && k'.procs[id].brk == 0x2000_0000 + (img.Pages() - 5) * 4096
  }

  /** The new task is a runnable child of the caller, last in the queue; the caller goes on. */
  ghost predicate SpawnedTask(s: S.Sched, id: nat, s': S.Sched) {
    && LowestEmpty(s.tasks, id) && s'.current == s.current && s'.queue == s.queue + [id]
    && s'.tasks == s.tasks[id := S.Task(S.Runnable, S.UserMode, s.current, 0, s.births, S.Outside)]
    && s'.exits == s.exits && s'.ledger == s.ledger
  }

  /** The parts of a spawn that went through. */
  lemma SpawnParts(k: Kernel, img: Image)
    requires Sized(k) && ImageOk(img) && Next(k, Spawn(img)).Ok?
    ensures S.FindFreeTaskId(k.s).Ok? && S.FindFreeTaskId(k.s).value < 8
    ensures var id, k' := S.FindFreeTaskId(k.s).value, Next(k, Spawn(img)).value;
            && Build(k.m, img).Ok? && S.Spawn(k.s).Ok? && D.InitTask(k.fds, id).Ok?
            && var (m, p) := Build(k.m, img).value;
               k' == Kernel(S.Spawn(k.s).value, m, k.kt, k.procs[id := p], D.InitTask(k.fds, id).value,
                            O.Consoles(k.vfs))
  {
  }

  lemma SpawnTaskDoes(k: Kernel, img: Image)
    requires Sized(k) && S.Inv(k.s) && ImageOk(img) && Next(k, Spawn(img)).Ok?
    ensures S.FindFreeTaskId(k.s).Ok?
    ensures SpawnedTask(k.s, S.FindFreeTaskId(k.s).value, Next(k, Spawn(img)).value.s)
  {
    SpawnParts(k, img);
    Safety.FindFreeFinds(k.s);
  }

  lemma BuiltSlot(m: Machine, kt: Tree, procs: seq<Process>, all: seq<Addr>, users: nat, id: nat, img: Image)
    requires FramesOk(m, kt, procs, all, users) && id < |procs| && procs[id].Nobody? && ImageOk(img)
    requires Build(m, img).Ok?
    ensures var (m', p) := Build(m, img).value;
            && Swapped(m, procs[id], m', p) && Loaded(m'.mem, p, img)
            && p.brk == 0x2000_0000 + (img.Pages() - 5) * 4096
  {
    BreakStarts(m, procs[id], img);
    SlotReady(m, kt, procs, all, users, id);
    BuildOk(m, img);
  }

  lemma SpawnMemoryDoes(k: Kernel, all: seq<Addr>, users: nat, img: Image, id: nat)
    requires Sized(k) && FramesOk(k.m, k.kt, k.procs, all, users) && ImageOk(img) && Next(k, Spawn(img)).Ok?
    requires S.FindFreeTaskId(k.s) == Ok(id) && id < 8 && k.procs[id].Nobody?
    ensures SpawnedMemory(k, img, id, Next(k, Spawn(img)).value)
  {
    SpawnParts(k, img);
    BuiltSlot(k.m, k.kt, k.procs, all, users, id, img);
  }

  lemma SpawnTablesDoes(k: Kernel, img: Image, id: nat) returns (a: nat, b: nat, c: nat)
    requires TablesOk(k) && ImageOk(img) && Next(k, Spawn(img)).Ok?
    requires S.FindFreeTaskId(k.s) == Ok(id) && id < 8
    ensures var k' := Next(k, Spawn(img)).value;
            && k'.vfs.nodes == k.vfs.nodes
            && ConsolesIn(k.vfs.descs, k.fds.rows, id, k'.vfs.descs, k'.fds.rows, a, b, c)
  {
    SpawnParts(k, img);
    a, b, c := ConsolesDo(k.fds, k.vfs, id);
  }

  /** A spawn makes, in the lowest empty slot, a runnable child of the caller
      with the image's memory, a break at the start of its heap, and three
      consoles of its own; the caller goes on, and nothing of another task, no
      other descriptor and no file changes. */
  lemma SpawnDoes(k: Kernel, all: seq<Addr>, users: nat, img: Image) returns (id: nat, a: nat, b: nat, c: nat)
    requires Inv(k, all, users) && ImageOk(img) && Next(k, Spawn(img)).Ok?
    ensures var k' := Next(k, Spawn(img)).value;
            && SpawnedTask(k.s, id, k'.s) && SpawnedMemory(k, img, id, k') && k'.vfs.nodes == k.vfs.nodes
            && ConsolesIn(k.vfs.descs, k.fds.rows, id, k'.vfs.descs, k'.fds.rows, a, b, c)
  {
    InvParts(k, all, users);
    SpawnTaskDoes(k, img);
    id := S.FindFreeTaskId(k.s).value;
    SpawnMemoryDoes(k, all, users, img, id);
    a, b, c := SpawnTablesDoes(k, img, id);
  }

  // ---------------------------------------------------------------------
  // Exit, wait, poll and yield
  // ---------------------------------------------------------------------

  /** An exit records the code, hands the children to task 1, or to idle if task
      1 itself exits, and changes nothing outside the scheduler. */
  lemma ExitDoes(k: Kernel, code: int)
    requires Sized(k) && S.Inv(k.s) && Enabled(k, Exit(code)) && Next(k, Exit(code)).Ok?
    ensures var k', id := Next(k, Exit(code)).value, k.s.current;
            && k' == k.(s := k'.s) && |k'.s.tasks| == |k.s.tasks|
            && k'.s.tasks[id].state.Exited? && k'.s.tasks[id].exitCode == code
            && k'.s.tasks[id].born == k.s.tasks[id].born
            && forall i :: 0 <= i < |k.s.tasks| && i != id ==>
                 k'.s.tasks[i] == if !k.s.tasks[i].state.Empty? && k.s.tasks[i].parent == id
                                  then k.s.tasks[i].(parent := if id == 1 then 0 else 1) else k.s.tasks[i]
  {
    Safety.TasksAfter(k.s, S.ExitStep(code));
    assert S.Live(k.s.tasks, k.s.current);
    forall i | k.s.count <= i < |k.s.tasks|
      ensures k.s.tasks[i].state.Empty?
    {
      assert !S.Live(k.s.tasks, i);
    }
  }

  /** wait goes on, asleep on the child it names or on any, exactly when there is
      one; otherwise it returns -1. No other field of any task changes. */
  lemma WaitDoes(k: Kernel, arg: int)
    requires Sized(k) && S.Inv(k.s) && Enabled(k, Wait(arg))
    ensures Next(k, Wait(arg)).Ok?
    ensures var k', id := Next(k, Wait(arg)).value, k.s.current;
            if arg >= 0 && arg != id && S.Live(k.s.tasks, arg) && k.s.tasks[arg].parent == id then
              k' == Waiting(k, S.WaitingFor(arg, k.s.tasks[arg].born))
            else if arg == -1 && (S.OtherChild(k.s.tasks, id) || S.OwnParent(k.s.tasks, id)) then
              k' == Waiting(k, S.WaitingAny)
            else k' == k
  {
    Safety.WaitBeginRefusesIff(k.s, arg);
  }

  /** The caller's program counter set. */
  function Waiting(k: Kernel, pc: S.Pc): (r: Kernel)
    requires Sized(k)
  {
    k.(s := k.s.(tasks := k.s.tasks[k.s.current := k.s.tasks[k.s.current].(pc := pc)]))
  }

  /** A yield changes whose turn it is, and nothing else. */
  lemma YieldDoes(k: Kernel)
    requires Sized(k) && S.Inv(k.s)
    ensures Next(k, Yield).Ok?
    ensures var k' := Next(k, Yield).value;
            k' == k.(s := k.s.(current := k'.s.current, queue := k'.s.queue))
  {
    var _ := Safety.PickNextKeeps(k.s);
  }

  // ---------------------------------------------------------------------
  // Reaping
  // ---------------------------------------------------------------------

  ghost predicate ExitedChild(s: S.Sched, id: nat)
    requires S.Sized(s)
  {
    id < 8 && s.tasks[id].state.Exited? && s.tasks[id].parent == s.current
  }

  /** What the waiting caller is to reap: the child it waits for once that has
      exited, or its first exited child. */
  ghost predicate ToReap(s: S.Sched, id: nat)
    requires S.Sized(s)
  {
    && ExitedChild(s, id)
    && (s.tasks[s.current].pc.WaitingFor? ==> id == s.tasks[s.current].pc.target)
    && (s.tasks[s.current].pc.WaitingAny? ==> forall j: nat :: j < id ==> !ExitedChild(s, j))
  }

  lemma FirstExited(s: S.Sched, id: nat)
    requires S.Inv(s) && s.tasks[s.current].pc.WaitingAny?
    ensures S.Harvest(s) == Some(id) <==> ToReap(s, id)
  {
    var i := S.FindChild(s.tasks, 0, s.count, s.current, true);
    forall j: nat | ExitedChild(s, j)
      ensures j < s.count && i <= j
    {
      assert S.Live(s.tasks, j);
      assert S.IsChild(s.tasks, j, s.current, true);
    }
    if i < s.count {
      assert ExitedChild(s, i);
    }
  }

  /** The poll finds something to reap exactly when there is. */
  lemma HarvestIff(s: S.Sched, id: nat)
    requires S.Inv(s) && !s.tasks[s.current].pc.Outside?
    ensures S.Harvest(s) == Some(id) <==> ToReap(s, id)
  {
    if s.tasks[s.current].pc.WaitingAny? {
      FirstExited(s, id);
    } else {
      assert S.WaiterOk(s.tasks, s.current);
    }
  }

  /** Each descriptor of the row from slot fd on is closed, and no other. */
  lemma {:induction false} ReleaseDoes(v: V.Vfs, row: seq<nat>, fd: nat)
    requires fd <= |row|
    ensures var v' := O.ReleaseFiles(v, row, fd);
            && v'.nodes == v.nodes && |v'.descs| == |v.descs|
            && forall i :: 0 <= i < |v.descs| ==> v'.descs[i] == if i + 1 in row[fd..] then V.Closed else v.descs[i]
    decreases |row| - fd
  {
    if fd < |row| {
      var v1 := if row[fd] == 0 then v else V.Close(v, row[fd]).0;
      ReleaseDoes(v1, row, fd + 1);
      assert row[fd..] == [row[fd]] + row[fd + 1..];
    }
  }

  /** The reaped task is gone, its status is handed to the caller, which goes on. */
  ghost predicate ReapedTask(s: S.Sched, id: nat, s': S.Sched)
    requires S.Sized(s) && id < 8
  {
    && s'.tasks == s.tasks[s.current := s.tasks[s.current].(pc := S.Outside)][id := S.NoTask]
    && s'.ledger == s.ledger + [S.Receipt(s.tasks[id].born, s.tasks[s.current].born, s.tasks[id].exitCode)]
    && s'.current == s.current && s'.queue == s.queue && s'.exits == s.exits
  }

  /** Its process is gone, and no other is touched. */
  ghost predicate ReapedMemory(k: Kernel, id: nat, k': Kernel) {
    && id < |k.procs| == |k'.procs| && k'.procs[id].Nobody? && k'.kt == k.kt && OtherFrames(k, k', id)
    && forall i :: 0 <= i < |k.procs| && i != id ==> k'.procs[i] == k.procs[i]
  }

  /** Its slots are empty and its descriptors closed, and no others. */
  ghost predicate ReapedTables(k: Kernel, id: nat, k': Kernel)
    requires Sized(k) && id < 8
  {
    && k'.vfs.nodes == k.vfs.nodes && |k'.vfs.descs| == |k.vfs.descs| && |k'.fds.rows| == |k.fds.rows|
    && (forall i :: 0 <= i < |k.vfs.descs| ==>
          k'.vfs.descs[i] == if i + 1 in k.fds.rows[id] then V.Closed else k.vfs.descs[i])
    && k'.fds.rows[id] == [0, 0, 0, 0]
    && forall i :: 0 <= i < |k.fds.rows| && i != id ==> k'.fds.rows[i] == k.fds.rows[i]
  }

  lemma PollParts(k: Kernel, id: nat)
    requires Sized(k) && S.Harvest(k.s) == Some(id) && Next(k, Poll).Ok?
    ensures var k' := Next(k, Poll).value;
            && id < 8 && Destroy(k.m, k.procs[id]).Ok? && k'.s == S.Reap(k.s, id)
            && k' == k.(s := k'.s, m := Destroy(k.m, k.procs[id]).value, procs := k.procs[id := Nobody],
                        fds := D.ReleaseTask(k.fds, id, 0), vfs := O.ReleaseFiles(k.vfs, k.fds.rows[id], 0))
  {
  }

  lemma ReapMemoryDoes(k: Kernel, all: seq<Addr>, users: nat, id: nat)
    requires Sized(k) && FramesOk(k.m, k.kt, k.procs, all, users) && S.Harvest(k.s) == Some(id) && Next(k, Poll).Ok?
    ensures ReapedMemory(k, id, Next(k, Poll).value)
  {
    PollParts(k, id);
    SlotReady(k.m, k.kt, k.procs, all, users, id);
    DestroyOk(k.m, k.procs[id]);
  }

  lemma ReapTablesDoes(k: Kernel, id: nat)
    requires TablesOk(k) && S.Harvest(k.s) == Some(id) && Next(k, Poll).Ok?
    ensures id < 8 && ReapedTables(k, id, Next(k, Poll).value)
  {
    PollParts(k, id);
    D.ReleaseTaskKeeps(k.fds, id, 0);
    ReleaseDoes(k.vfs, k.fds.rows[id], 0);
    assert k.fds.rows[id][0..] == k.fds.rows[id];
  }

  /** A turn of a waiting loop: if there is something to reap it is reaped, with
      its memory and its descriptors and nothing else; otherwise the caller
      only yields. */
  lemma PollDoes(k: Kernel, all: seq<Addr>, users: nat, id: nat)
    requires Inv(k, all, users) && Enabled(k, Poll) && Next(k, Poll).Ok?
    ensures var k' := Next(k, Poll).value;
            && (ToReap(k.s, id) ==>
                  id < 8 && ReapedTask(k.s, id, k'.s) && ReapedMemory(k, id, k') && ReapedTables(k, id, k'))
            && ((forall i: nat :: !ToReap(k.s, i)) ==>
                  k' == k.(s := k.s.(current := k'.s.current, queue := k'.s.queue)))
  {
    InvParts(k, all, users);
    HarvestIff(k.s, id);
    if ToReap(k.s, id) {
      PollParts(k, id);
      ReapMemoryDoes(k, all, users, id);
      ReapTablesDoes(k, id);
    } else if forall i: nat :: !ToReap(k.s, i) {
      PollYields(k);
    }
  }

  lemma PollYields(k: Kernel)
    requires Sized(k) && S.Inv(k.s) && Enabled(k, Poll) && forall i: nat :: !ToReap(k.s, i)
    requires Next(k, Poll).Ok?
    ensures var k' := Next(k, Poll).value;
            k' == k.(s := k.s.(current := k'.s.current, queue := k'.s.queue))
  {
    if S.Harvest(k.s).Some? {
      HarvestIff(k.s, S.Harvest(k.s).value);
    }
    var _ := Safety.PickNextKeeps(k.s);
  }
}
