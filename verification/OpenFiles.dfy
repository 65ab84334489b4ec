/**
 The tasks' descriptor slots and the file system's descriptors together: the
 system calls that open and close, and why the two tables never disagree.
 */
module OpenFiles {
  import opened Base
  import opened Vfs
  import opened VfsRuns
  import D = Descriptors

  /** The same descriptors are open on both sides. */
  ghost predicate Matched(f: D.Fds, v: Vfs) { f.open == Opens(v.descs) }

  ghost predicate FilesOk(f: D.Fds, v: Vfs) { Matched(f, v) && NodesOk(v) && SpentOk(v) }

  /** syscall_open_user_path on an accepted buffer: a descriptor that finds no
      free slot is closed again. */
  function OpenFile(f: D.Fds, v: Vfs, id: nat, path: seq<byte>, flags: int): (r: Outcome<(D.Fds, Vfs)>)
    requires D.Sized(f) && id < D.TASKS
  {
    var (v1, d) :- Open(v, path, flags);
    var fd := D.FreeSlot(f.rows[id], 3);
    if d <= 0 || d > |f.open| then Ok((f, v1))
    else if fd == D.SLOTS_PER_TASK then Ok((f, Close(v1, d).0))
    else Ok((D.Fds(f.open[d - 1 := true], D.WithEntry(f.rows, id, fd, d)), v1))
  }

  /** What the call returns: the slot, or -1. */
  function OpenedFd(f: D.Fds, v: Vfs, id: nat, path: seq<byte>, flags: int): (r: Outcome<int>)
    requires D.Sized(f) && id < D.TASKS
  {
    var (_, d) :- Open(v, path, flags);
    var fd := D.FreeSlot(f.rows[id], 3);
    Ok(if d <= 0 || d > |f.open| || fd == D.SLOTS_PER_TASK then -1 else fd)
  }

  /** The descriptor in a task's slot, 0 for none. */
  function InSlot(f: D.Fds, id: nat, fd: nat): (d: nat)
    requires D.Sized(f) && id < D.TASKS
  {
    if fd < D.SLOTS_PER_TASK then f.rows[id][fd] else 0
  }

  /** syscall_close_fd */
  function CloseFile(f: D.Fds, v: Vfs, id: nat, fd: nat): (r: (D.Fds, Vfs))
    requires D.Sized(f) && id < D.TASKS
  {
    match D.Close(f, id, fd)
    case None => (f, v)
    case Some(f') => (f', Close(v, InSlot(f, id, fd)).0)
  }

  /** The three consoles of a new task. */
  function Consoles(v: Vfs): (r: Vfs) {
    WithDesc(WithDesc(WithDesc(v, ConsoleIn).0, ConsoleOut).0, ConsoleOut).0
  }

  /** What scheduler_release_task_fds closes, from slot fd on. */
  function ReleaseFiles(v: Vfs, row: seq<nat>, fd: nat): (r: Vfs)
    decreases |row| - fd
  {
    if fd >= |row| then v
    else ReleaseFiles(if row[fd] == 0 then v else Close(v, row[fd]).0, row, fd + 1)
  }

  // ---------------------------------------------------------------------
  // Descriptors one by one
  // ---------------------------------------------------------------------

  lemma OpensUpdated(descs: seq<Desc>, i: nat, what: Desc)
    requires i < |descs|
    ensures Opens(descs[i := what]) == Opens(descs)[i := !what.Closed?]
  {
  }

  /** Opening on the file system's side is what the descriptor model does. */
  lemma AllocMatches(v: Vfs, what: Desc)
    requires !what.Closed?
    ensures var (v', d) := WithDesc(v, what);
            && d == D.FirstClosed(Opens(v.descs), 1)
            && Opens(v'.descs) == if d == 0 then Opens(v.descs) else Opens(v.descs)[d - 1 := true]
  {
    var d := D.FirstClosed(Opens(v.descs), 1);
    if d != 0 {
      OpensUpdated(v.descs, d - 1, what);
    }
  }

  lemma CloseMatches(v: Vfs, d: nat)
    ensures D.CloseDescriptor(Opens(v.descs), d).Some? <==> Close(v, d).1 == 0
    ensures Opens(Close(v, d).0.descs)
         == match D.CloseDescriptor(Opens(v.descs), d) case None => Opens(v.descs) case Some(open) => open
  {
    if 1 <= d <= |v.descs| {
      OpensUpdated(v.descs, d - 1, Closed);
    }
  }

  /** Reading, writing and listing open and close nothing. */
  lemma TransferMatches(v: Vfs, step: Step)
    requires NodesOk(v) && (step.WriteStep? || step.ReadStep? || step.ReadDirStep?)
    ensures Next(v, step).Ok? && Opens(Next(v, step).value.descs) == Opens(v.descs)
  {
  }

  // ---------------------------------------------------------------------
  // The system calls
  // ---------------------------------------------------------------------

  /** What a step of the file system leaves in order. */
  lemma StepFiles(v: Vfs, step: Step)
    requires NodesOk(v) && SpentOk(v) && Next(v, step).Ok?
    ensures NodesOk(Next(v, step).value) && SpentOk(Next(v, step).value) && Extends(v, Next(v, step).value)
  {
    StepKeeps(v, step);
  }

  /** What vfs_open_path does to the descriptors. */
  lemma OpenMatches(v: Vfs, path: seq<byte>, flags: int)
    requires Open(v, path, flags).Ok?
    ensures var (v', d) := Open(v, path, flags).value;
            || (d == 0 && Opens(v'.descs) == Opens(v.descs))
            || (d == D.FirstClosed(Opens(v.descs), 1) > 0 && Opens(v'.descs) == Opens(v.descs)[d - 1 := true])
  {
    match OpenTarget(Metas(v.nodes), path, flags)
    case Nothing =>
    case TheDirectory(p) => AllocMatches(v, OnDirectory(p, 0));
    case TheFile(id, truncate) => AllocMatches(if truncate then Truncated(v, id) else v, OnFile(id, 0));
    case NewFile(p) => AllocMatches(Created(v, p), OnFile(|v.nodes|, 0));
  }

  /** Opening panics exactly for a thirty-third node. Otherwise the two tables
      still match, and the task's slots are as they were or as the descriptor
      model says an open leaves them. */
  lemma OpenFileKeeps(f: D.Fds, v: Vfs, id: nat, path: seq<byte>, flags: int)
    requires D.Sized(f) && id < D.TASKS && FilesOk(f, v)
    ensures OpenFile(f, v, id, path, flags).Panic? <==> Next(v, OpenStep(path, flags)).Panic?
    ensures OpenFile(f, v, id, path, flags).Ok? ==>
              var (f', v') := OpenFile(f, v, id, path, flags).value;
              FilesOk(f', v') && Extends(v, v') && (f' == f || f' == D.Open(f, id))
  {
    if Open(v, path, flags).Ok? {
      var (v1, d) := Open(v, path, flags).value;
      StepFiles(v, OpenStep(path, flags));
      OpenMatches(v, path, flags);
      if d > 0 && D.FreeSlot(f.rows[id], 3) == D.SLOTS_PER_TASK {
        StepFiles(v1, CloseStep(d));
        ExtendsTrans(v, v1, Close(v1, d).0);
        CloseMatches(v1, d);
        D.Reclosed(Opens(v.descs), d);
      }
    }
  }

  lemma CloseFileKeeps(f: D.Fds, v: Vfs, id: nat, fd: nat)
    requires D.Sized(f) && id < D.TASKS && FilesOk(f, v)
    ensures var (f', v') := CloseFile(f, v, id, fd);
            && FilesOk(f', v') && Extends(v, v')
            && f' == (match D.Close(f, id, fd) case None => f case Some(closed) => closed)
  {
    if D.Close(f, id, fd).Some? {
      CloseMatches(v, InSlot(f, id, fd));
      StepFiles(v, CloseStep(InSlot(f, id, fd)));
    }
  }

  lemma ConsoleMatches(f: D.Fds, v: Vfs, id: nat, fd: nat, input: bool)
    requires D.Sized(f) && id < D.TASKS && fd < D.SLOTS_PER_TASK && FilesOk(f, v) && D.AllocInto(f, id, fd).Ok?
    ensures var v' := WithDesc(v, if input then ConsoleIn else ConsoleOut).0;
            FilesOk(D.AllocInto(f, id, fd).value, v') && Extends(v, v')
  {
    AllocMatches(v, if input then ConsoleIn else ConsoleOut);
    StepFiles(v, ConsoleStep(input));
  }

  lemma ConsolesMatch(f: D.Fds, v: Vfs, id: nat)
    requires D.Sized(f) && id < D.TASKS && FilesOk(f, v) && D.InitTask(f, id).Ok?
    ensures FilesOk(D.InitTask(f, id).value, Consoles(v)) && Extends(v, Consoles(v))
  {
    var f0 := D.AllocInto(f, id, 0).value;
    var f1 := D.AllocInto(f0, id, 1).value;
    var v0 := WithDesc(v, ConsoleIn).0;
    var v1 := WithDesc(v0, ConsoleOut).0;
    ConsoleMatches(f, v, id, 0, true);
    ConsoleMatches(f0, v0, id, 1, false);
    ConsoleMatches(f1, v1, id, 2, false);
    ExtendsTrans(v, v0, v1);
    ExtendsTrans(v, v1, Consoles(v));
  }

  lemma {:induction false} ReleaseMatches(f: D.Fds, v: Vfs, id: nat, fd: nat, row: seq<nat>)
    requires D.Sized(f) && id < D.TASKS && fd <= D.SLOTS_PER_TASK == |row| && FilesOk(f, v)
    requires f.rows[id][fd..] == row[fd..]
    ensures FilesOk(D.ReleaseTask(f, id, fd), ReleaseFiles(v, row, fd)) && Extends(v, ReleaseFiles(v, row, fd))
    decreases D.SLOTS_PER_TASK - fd
  {
    if fd < D.SLOTS_PER_TASK {
      var d := row[fd];
      assert f.rows[id][fd..][0] == row[fd..][0];
      var f', v' := D.ReleaseSlot(f, id, fd), if d == 0 then v else Close(v, d).0;
      if d != 0 {
        CloseMatches(v, d);
        StepFiles(v, CloseStep(d));
      }
      assert f'.rows[id][fd + 1..] == row[fd + 1..] by {
        assert f.rows[id][fd..][1..] == f.rows[id][fd + 1..] && row[fd..][1..] == row[fd + 1..];
      }
      ReleaseMatches(f', v', id, fd + 1, row);
      ExtendsTrans(v, v', ReleaseFiles(v, row, fd));
    }
  }
}
