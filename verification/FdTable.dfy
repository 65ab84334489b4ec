/**
 The tasks' descriptor slots, updated in place by the loops of the scheduler and
 the system calls, over the file system's own descriptors.
 */
module FdTable {
  import opened Base
  import opened Descriptors
  import V = Vfs
  import O = OpenFiles
  import FileSystem

  class Table {
    const files: FileSystem.Store
    var rows: seq<seq<nat>>

    constructor (files: FileSystem.Store, rows: seq<seq<nat>>)
      ensures this.files == files && this.rows == rows
    {
      this.files := files;
      this.rows := rows;
    }

    ghost function State(): (f: Fds)
      reads this, files
    {
      Fds(V.Opens(files.descs), rows)
    }

    method SetSlot(id: nat, fd: nat, d: nat)
      requires id < |rows| && fd < |rows[id]|
      modifies this`rows
      ensures rows == WithEntry(old(rows), id, fd, d)
    {
      var row: seq<nat> := rows[id][fd := d];
      rows := rows[id := row];
    }

    method FillRow(id: nat, d0: nat, d1: nat, d2: nat)
      requires id < |rows| && |rows[id]| == SLOTS_PER_TASK
      modifies this`rows
      ensures var filled := WithEntry(WithEntry(WithEntry(old(rows), id, 0, d0), id, 1, d1), id, 2, d2);
              rows == WithEntry(filled, id, 3, 0)
    {
      SetSlot(id, 0, d0);
      SetSlot(id, 1, d1);
      SetSlot(id, 2, d2);
      SetSlot(id, 3, 0);
    }

    method AllocConsole(what: V.Desc) returns (d: nat)
      requires !what.Closed?
      modifies files`descs
      ensures files.State() == V.WithDesc(old(files.State()), what).0
      ensures d == FirstClosed(old(V.Opens(files.descs)), 1)
      ensures V.Opens(files.descs) == Taken(old(V.Opens(files.descs)), d)
    {
      O.AllocMatches(files.State(), what);
      d := files.AllocDescriptor(what);
    }

    method AllocConsoles() returns (d0: nat, d1: nat, d2: nat)
      modifies files`descs
      ensures files.State() == O.Consoles(old(files.State()))
      ensures d0 == FirstClosed(old(V.Opens(files.descs)), 1)
      ensures d1 == FirstClosed(Taken(old(V.Opens(files.descs)), d0), 1)
      ensures d2 == FirstClosed(Taken(Taken(old(V.Opens(files.descs)), d0), d1), 1)
      ensures V.Opens(files.descs) == Taken(Taken(Taken(old(V.Opens(files.descs)), d0), d1), d2)
    {
      d0 := AllocConsole(V.ConsoleIn);
      d1 := AllocConsole(V.ConsoleOut);
      d2 := AllocConsole(V.ConsoleOut);
    }

    /** scheduler_init_task_fds */
    method InitTaskFds(id: nat) returns (r: Outcome<()>)
      requires Sized(State()) && id < TASKS
      modifies this, files
      ensures r.Panic? <==> InitTask(old(State()), id).Panic?
      ensures r.Panic? ==> r.fault == NoDescriptor
      ensures r.Ok? ==> InitTask(old(State()), id) == Ok(State())
      ensures files.State() == O.Consoles(old(files.State()))
    {
      var d0, d1, d2 := AllocConsoles();
      InitTaskParts(old(State()), id, d0, d1, d2);
      if d0 == 0 || d1 == 0 || d2 == 0 {
        return Panic(NoDescriptor);
      }
      FillRow(id, d0, d1, d2);
      return Ok(());
    }

    /** syscall_alloc_task_fd: the highest free slot, or SLOTS_PER_TASK for -1. */
    method AllocTaskFd(id: nat, d: nat) returns (fd: nat)
      requires Sized(State()) && id < TASKS
      modifies this`rows
      ensures fd == FreeSlot(old(rows)[id], 3)
      ensures rows == if fd == SLOTS_PER_TASK then old(rows) else WithEntry(old(rows), id, fd, d)
    {
      var i := 3;
      while i >= 0
        invariant -1 <= i <= 3 && rows == old(rows)
        invariant i >= 0 ==> FreeSlot(rows[id], i) == FreeSlot(rows[id], 3)
        invariant i < 0 ==> FreeSlot(rows[id], 3) == SLOTS_PER_TASK
      {
        if rows[id][i] == 0 {
          SetSlot(id, i, d);
          return i;
        }
        i := i - 1;
      }
      return SLOTS_PER_TASK;
    }

    /** syscall_open_user_path on an accepted buffer. */
    method OpenFd(id: nat, path: seq<byte>, flags: int) returns (r: Outcome<int>)
      requires Sized(State()) && id < TASKS
      modifies this, files
      ensures r.Panic? ==> O.OpenFile(old(State()), old(files.State()), id, path, flags) == Panic(r.fault)
      ensures r.Ok? ==> O.OpenFile(old(State()), old(files.State()), id, path, flags) == Ok((State(), files.State()))
      ensures r == O.OpenedFd(old(State()), old(files.State()), id, path, flags)
    {
      ghost var f, v := State(), files.State();
      var d :- files.OpenPath(path, flags);
      O.OpenMatches(v, path, flags);
      if d == 0 {
        return Ok(-1);
      }
      var slot := AllocTaskFd(id, d);
      if slot == SLOTS_PER_TASK {
        O.CloseMatches(files.State(), d);
        Reclosed(f.open, d);
        var _ := files.CloseDescriptor(d);
        return Ok(-1);
      }
      return Ok(slot);
    }

    /** syscall_close_fd */
    method CloseFd(id: nat, fd: int) returns (r: int)
      requires Sized(State()) && id < TASKS
      requires 0 <= fd < SLOTS_PER_TASK ==> rows[id][fd] <= CAPACITY
      modifies this, files
      ensures r == 0 <==> fd >= 0 && Close(old(State()), id, fd).Some?
      ensures r != 0 ==> r == -1 && State() == old(State()) && files.State() == old(files.State())
      ensures fd >= 0 ==> O.CloseFile(old(State()), old(files.State()), id, fd) == (State(), files.State())
    {
      if fd < 0 || fd >= SLOTS_PER_TASK {
        return -1;
      }
      var d := rows[id][fd];
      if d == 0 {
        return -1;
      }
      O.CloseMatches(files.State(), d);
      var closed := files.CloseDescriptor(d);
      if closed != 0 {
        return -1;
      }
      SetSlot(id, fd, 0);
      return 0;
    }

    /** scheduler_release_task_fds */
    method ReleaseTaskFds(id: nat)
      requires Sized(State()) && id < TASKS
      requires forall i :: 0 <= i < SLOTS_PER_TASK ==> rows[id][i] <= CAPACITY
      modifies this, files
      ensures State() == ReleaseTask(old(State()), id, 0)
      ensures files.State() == O.ReleaseFiles(old(files.State()), old(rows)[id], 0)
    {
      var fd := 0;
      while fd < SLOTS_PER_TASK
        invariant 0 <= fd <= SLOTS_PER_TASK && Sized(State())
        invariant forall i :: fd <= i < SLOTS_PER_TASK ==> rows[id][i] == old(rows)[id][i]
        invariant ReleaseTask(State(), id, fd) == ReleaseTask(old(State()), id, 0)
        invariant O.ReleaseFiles(files.State(), old(rows)[id], fd)
               == O.ReleaseFiles(old(files.State()), old(rows)[id], 0)
      {
        var d := rows[id][fd];
        if d != 0 {
          O.CloseMatches(files.State(), d);
          var _ := files.CloseDescriptor(d);
          SetSlot(id, fd, 0);
        }
        fd := fd + 1;
      }
    }
  }
}
