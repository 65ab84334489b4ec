/**
 File descriptors on values: 32 descriptors shared by eight tasks of four
 descriptor slots each, one descriptor being left open by the VFS self-test.
 */
module Descriptors {
  import opened Base

  const CAPACITY: nat := 32
  const TASKS: nat := 8
  const SLOTS_PER_TASK: nat := 4
  /** The descriptor vfs_self_test opens and never closes. */
  const SPARE: nat := 4

  /** Descriptor d is open[d - 1]; zero in a task's row means no descriptor. */
  datatype Fds = Fds(open: seq<bool>, rows: seq<seq<nat>>)

  predicate Sized(f: Fds) {
    && |f.open| == CAPACITY && |f.rows| == TASKS
    && (forall i :: 0 <= i < TASKS ==> |f.rows[i]| == SLOTS_PER_TASK)
  }

  /** The first closed descriptor at or after d, or zero. */
  function FirstClosed(open: seq<bool>, d: nat): (r: nat)
    requires d >= 1
    ensures r == 0 || (d <= r <= |open| && !open[r - 1] && forall i :: d - 1 <= i < r - 1 ==> open[i])
    ensures r == 0 ==> forall i :: d - 1 <= i < |open| ==> open[i]
    decreases |open| - d
  {
    if d > |open| then 0 else if !open[d - 1] then d else FirstClosed(open, d + 1)
  }

  function WithEntry(rows: seq<seq<nat>>, id: nat, fd: nat, d: nat): (r: seq<seq<nat>>)
    requires id < |rows| && fd < |rows[id]|
  {
    var row: seq<nat> := rows[id][fd := d];
    rows[id := row]
  }

  /** Open the first closed descriptor and store it in a task's slot. */
  function AllocInto(f: Fds, id: nat, fd: nat): (r: Outcome<Fds>)
    requires Sized(f) && id < TASKS && fd < SLOTS_PER_TASK
  {
    var d := FirstClosed(f.open, 1);
    if d == 0 then Panic(NoDescriptor)
    else Ok(Fds(f.open[d - 1 := true], WithEntry(f.rows, id, fd, d)))
  }

  /** scheduler_init_task_fds: console in, console out, console out. */
  function InitTask(f: Fds, id: nat): (r: Outcome<Fds>)
    requires Sized(f) && id < TASKS
  {
    var f0 :- AllocInto(f, id, 0);
    var f1 :- AllocInto(f0, id, 1);
    var f2 :- AllocInto(f1, id, 2);
    Ok(f2.(rows := WithEntry(f2.rows, id, 3, 0)))
  }

  function Taken(open: seq<bool>, d: nat): (r: seq<bool>)
    requires d <= |open|
  {
    if d == 0 then open else open[d - 1 := true]
  }

  /** Three allocations one after the other, and what they mean for the task. */
  lemma InitTaskParts(f: Fds, id: nat, d0: nat, d1: nat, d2: nat)
    requires Sized(f) && id < TASKS && d0 == FirstClosed(f.open, 1)
    requires d1 == FirstClosed(Taken(f.open, d0), 1) && d2 == FirstClosed(Taken(Taken(f.open, d0), d1), 1)
    ensures InitTask(f, id).Panic? <==> d0 == 0 || d1 == 0 || d2 == 0
    ensures InitTask(f, id).Panic? ==> InitTask(f, id).fault == NoDescriptor
    ensures InitTask(f, id).Ok? ==>
              var rows := WithEntry(WithEntry(WithEntry(f.rows, id, 0, d0), id, 1, d1), id, 2, d2);
              InitTask(f, id).value == Fds(Taken(Taken(Taken(f.open, d0), d1), d2), WithEntry(rows, id, 3, 0))
  {
  }

  /** The highest free slot of a task at or below fd, or SLOTS_PER_TASK. */
  function FreeSlot(row: seq<nat>, fd: nat): (r: nat)
    requires fd < |row| == SLOTS_PER_TASK
    ensures r == SLOTS_PER_TASK || (r <= fd && row[r] == 0 && forall i :: r < i <= fd ==> row[i] != 0)
    ensures r == SLOTS_PER_TASK ==> forall i :: 0 <= i <= fd ==> row[i] != 0
  {
    if row[fd] == 0 then fd else if fd == 0 then SLOTS_PER_TASK else FreeSlot(row, fd - 1)
  }

  /** An open that found its file; when no descriptor or slot is left nothing changes. */
  function Open(f: Fds, id: nat): (r: Fds)
    requires Sized(f) && id < TASKS
  {
    var fd := FreeSlot(f.rows[id], 3);
    if fd == SLOTS_PER_TASK then f
    else match AllocInto(f, id, fd)
      case Ok(f') => f'
      case Panic(_) => f
  }

  /** vfs_close_descriptor: fails on a closed descriptor. */
  function CloseDescriptor(open: seq<bool>, d: nat): (r: Option<seq<bool>>) {
    if d == 0 || d > |open| || !open[d - 1] then None else Some(open[d - 1 := false])
  }

  /** Opening a closed descriptor and closing it again changes nothing. */
  lemma Reclosed(open: seq<bool>, d: nat)
    requires 1 <= d <= |open| && !open[d - 1]
    ensures CloseDescriptor(open[d - 1 := true], d) == Some(open)
  {
    assert open[d - 1 := true][d - 1 := false] == open;
  }

  /** syscall_close_fd; None stands for returning -1. */
  function Close(f: Fds, id: nat, fd: nat): (r: Option<Fds>)
    requires Sized(f) && id < TASKS
  {
    if fd >= SLOTS_PER_TASK || f.rows[id][fd] == 0 then None
    else match CloseDescriptor(f.open, f.rows[id][fd])
      case None => None
      case Some(open) => Some(Fds(open, WithEntry(f.rows, id, fd, 0)))
  }

  /** One slot of a task emptied, and its descriptor closed if it is open. */
  function ReleaseSlot(f: Fds, id: nat, fd: nat): (r: Fds)
    requires Sized(f) && id < TASKS && fd < SLOTS_PER_TASK
    ensures Sized(r)
  {
    var d := f.rows[id][fd];
    if d == 0 then f
    else
      var open := match CloseDescriptor(f.open, d) case None => f.open case Some(closed) => closed;
      Fds(open, WithEntry(f.rows, id, fd, 0))
  }

  /** scheduler_release_task_fds from slot fd on. */
  function ReleaseTask(f: Fds, id: nat, fd: nat): (r: Fds)
    requires Sized(f) && id < TASKS
    decreases SLOTS_PER_TASK - fd
  {
    if fd >= SLOTS_PER_TASK then f else ReleaseTask(ReleaseSlot(f, id, fd), id, fd + 1)
  }

  /** After boot: idle holds descriptors 1 to 3, task 1 holds 5 to 7, and the spare is open. */
  function Boot(): (f: Fds) {
    Fds(seq(CAPACITY, i => i < 7), [[1, 2, 3, 0], [5, 6, 7, 0]] + seq(6, _ => EMPTY_ROW))
  }

  // ---------------------------------------------------------------------
  // The invariant
  // ---------------------------------------------------------------------

  function CountOpen(open: seq<bool>): (n: nat)
    ensures n <= |open|
  {
    if open == [] then 0
    else CountOpen(open[..|open| - 1]) + if open[|open| - 1] then 1 else 0
  }

  function Held(row: seq<nat>): (n: nat)
    ensures n <= |row|
  {
    if row == [] then 0
    else Held(row[..|row| - 1]) + if row[|row| - 1] != 0 then 1 else 0
  }

  function HeldBy(rows: seq<seq<nat>>): (n: nat) {
    if rows == [] then 0 else HeldBy(rows[..|rows| - 1]) + Held(rows[|rows| - 1])
  }

  /** Entry fd of task i names an open descriptor other than the spare. */
  ghost predicate EntryOk(f: Fds, i: nat, fd: nat)
    requires Sized(f) && i < TASKS && fd < SLOTS_PER_TASK
  {
    var d := f.rows[i][fd];
    d != 0 ==> d <= CAPACITY && d != SPARE && f.open[d - 1]
  }

  /** Descriptor d, if not zero, stands in one place only. */
  ghost predicate Unique(f: Fds, i: nat, fd: nat, j: nat, fe: nat)
    requires Sized(f) && i < TASKS && fd < SLOTS_PER_TASK && j < TASKS && fe < SLOTS_PER_TASK
  {
    f.rows[i][fd] != 0 && f.rows[i][fd] == f.rows[j][fe] ==> i == j && fd == fe
  }

  ghost predicate Inv(f: Fds) {
    && Sized(f) && f.open[SPARE - 1]
    && (forall i, fd :: 0 <= i < TASKS && 0 <= fd < SLOTS_PER_TASK ==> EntryOk(f, i, fd))
    && (forall i, fd, j, fe :: 0 <= i < TASKS && 0 <= fd < SLOTS_PER_TASK && 0 <= j < TASKS && 0 <= fe < SLOTS_PER_TASK
          ==> Unique(f, i, fd, j, fe))
    && CountOpen(f.open) == 1 + HeldBy(f.rows)
  }

  lemma {:induction false} CountOpenUpdate(open: seq<bool>, i: nat, b: bool)
    requires i < |open|
    ensures CountOpen(open[i := b]) + (if open[i] then 1 else 0) == CountOpen(open) + (if b then 1 else 0)
  {
    var n := |open| - 1;
    if i == n {
      assert open[i := b][..n] == open[..n];
    } else {
      CountOpenUpdate(open[..n], i, b);
      assert open[i := b][..n] == open[..n][i := b];
    }
  }

  lemma {:induction false} HeldUpdate(row: seq<nat>, i: nat, d: nat)
    requires i < |row|
    ensures Held(row[i := d]) + (if row[i] != 0 then 1 else 0) == Held(row) + (if d != 0 then 1 else 0)
  {
    var n := |row| - 1;
    if i == n {
      assert row[i := d][..n] == row[..n];
    } else {
      HeldUpdate(row[..n], i, d);
      assert row[i := d][..n] == row[..n][i := d];
    }
  }

  lemma {:induction false} HeldByUpdate(rows: seq<seq<nat>>, i: nat, row: seq<nat>)
    requires i < |rows|
    ensures HeldBy(rows[i := row]) + Held(rows[i]) == HeldBy(rows) + Held(row)
  {
    var n := |rows| - 1;
    if i == n {
      assert rows[i := row][..n] == rows[..n];
    } else {
      HeldByUpdate(rows[..n], i, row);
      assert rows[i := row][..n] == rows[..n][i := row];
    }
  }

  lemma {:induction false} HeldByBound(rows: seq<seq<nat>>)
    requires forall i :: 0 <= i < |rows| ==> |rows[i]| == SLOTS_PER_TASK
    ensures HeldBy(rows) <= 4 * |rows|
  {
    if rows != [] {
      HeldByBound(rows[..|rows| - 1]);
    }
  }

  lemma {:induction false} AllOpen(open: seq<bool>)
    requires forall i :: 0 <= i < |open| ==> open[i]
    ensures CountOpen(open) == |open|
  {
    if open != [] {
      AllOpen(open[..|open| - 1]);
    }
  }

  /** One slot changes from `was` to `now`, and the descriptor tables with it. */
  lemma SlotCounts(f: Fds, id: nat, fd: nat, d: nat)
    requires Sized(f) && id < TASKS && fd < SLOTS_PER_TASK
    ensures HeldBy(WithEntry(f.rows, id, fd, d)) + (if f.rows[id][fd] != 0 then 1 else 0)
         == HeldBy(f.rows) + (if d != 0 then 1 else 0)
  {
    HeldUpdate(f.rows[id], fd, d);
    HeldByUpdate(f.rows, id, f.rows[id][fd := d]);
  }

  lemma AllocIntoKeeps(f: Fds, id: nat, fd: nat)
    requires Inv(f) && id < TASKS && fd < SLOTS_PER_TASK && f.rows[id][fd] == 0
    ensures AllocInto(f, id, fd).Panic? <==> CountOpen(f.open) == CAPACITY
    ensures AllocInto(f, id, fd).Ok? ==>
              var f' := AllocInto(f, id, fd).value;
              && Inv(f') && CountOpen(f'.open) == CountOpen(f.open) + 1
              && f'.rows[id] == f.rows[id][fd := f'.rows[id][fd]]
              && (forall i :: 0 <= i < TASKS && i != id ==> f'.rows[i] == f.rows[i])
  {
    var d := FirstClosed(f.open, 1);
    if d == 0 {
      AllOpen(f.open);
    } else {
      CountOpenUpdate(f.open, d - 1, true);
      SlotCounts(f, id, fd, d);
      var f' := AllocInto(f, id, fd).value;
      CountOpenFull(f.open, d - 1);
      forall i, fe | 0 <= i < TASKS && 0 <= fe < SLOTS_PER_TASK
        ensures EntryOk(f', i, fe) && (f'.rows[i][fe] == d ==> i == id && fe == fd)
      {
        assert EntryOk(f, i, fe);
      }
      forall i, fe, j, fg | 0 <= i < TASKS && 0 <= fe < SLOTS_PER_TASK && 0 <= j < TASKS && 0 <= fg < SLOTS_PER_TASK
        ensures Unique(f', i, fe, j, fg)
      {
        assert Unique(f, i, fe, j, fg);
      }
    }
  }

  lemma CountOpenFull(open: seq<bool>, i: nat)
    requires i < |open| && !open[i]
    ensures CountOpen(open) < |open|
  {
    CountOpenUpdate(open, i, true);
  }

  /** Emptying a task's slot and closing what it named. */
  lemma CloseKeeps(f: Fds, id: nat, fd: nat)
    requires Inv(f) && id < TASKS
    ensures Close(f, id, fd).Some? <==> fd < SLOTS_PER_TASK && f.rows[id][fd] != 0
    ensures Close(f, id, fd).Some? ==>
              var f' := Close(f, id, fd).value;
              Inv(f') && f'.rows == WithEntry(f.rows, id, fd, 0)
  {
    if fd < SLOTS_PER_TASK && f.rows[id][fd] != 0 {
      var d := f.rows[id][fd];
      assert EntryOk(f, id, fd);
      CountOpenUpdate(f.open, d - 1, false);
      SlotCounts(f, id, fd, 0);
      var f' := Close(f, id, fd).value;
      forall i, fe | 0 <= i < TASKS && 0 <= fe < SLOTS_PER_TASK
        ensures EntryOk(f', i, fe)
      {
        assert EntryOk(f, i, fe) && Unique(f, id, fd, i, fe);
      }
      forall i, fe, j, fg | 0 <= i < TASKS && 0 <= fe < SLOTS_PER_TASK && 0 <= j < TASKS && 0 <= fg < SLOTS_PER_TASK
        ensures Unique(f', i, fe, j, fg)
      {
        assert Unique(f, i, fe, j, fg);
      }
    }
  }

  /** An open changes nothing, or fills one free slot of the task with a descriptor nobody names. */
  lemma OpenKeeps(f: Fds, id: nat)
    requires Inv(f) && id < TASKS
    ensures Inv(Open(f, id))
    ensures forall i :: 0 <= i < TASKS && i != id ==> Open(f, id).rows[i] == f.rows[i]
  {
    var fd := FreeSlot(f.rows[id], 3);
    if fd != SLOTS_PER_TASK {
      AllocIntoKeeps(f, id, fd);
    }
  }

  const EMPTY_ROW: seq<nat> := [0, 0, 0, 0]

  lemma HeldEmpty()
    ensures Held(EMPTY_ROW) == 0
  {
    assert EMPTY_ROW[..3] == [0, 0, 0] && [0, 0, 0][..2] == [0, 0] && [0, 0][..1] == [0] && [0][..0] == [];
    assert Held([0]) == 0 && Held([0, 0]) == 0 && Held([0, 0, 0]) == 0;
  }

  /** A task without descriptors can always be given three: the seven others
      hold at most 28, the spare is one more, and 28 + 1 + 3 = 32. */
  lemma InitTaskNeverFails(f: Fds, id: nat)
    requires Inv(f) && id < TASKS && f.rows[id] == EMPTY_ROW
    ensures InitTask(f, id).Ok? && Inv(InitTask(f, id).value)
    ensures forall i :: 0 <= i < TASKS && i != id ==> InitTask(f, id).value.rows[i] == f.rows[i]
  {
    HeldEmpty();
    OthersHoldAtMost28(f.rows, id);
    AllocIntoKeeps(f, id, 0);
    var f0 := AllocInto(f, id, 0).value;
    AllocIntoKeeps(f0, id, 1);
    var f1 := AllocInto(f0, id, 1).value;
    AllocIntoKeeps(f1, id, 2);
    var f2 := AllocInto(f1, id, 2).value;
    assert f2.rows[id][3 := 0] == f2.rows[id];
    assert WithEntry(f2.rows, id, 3, 0) == f2.rows;
  }

  lemma OthersHoldAtMost28(rows: seq<seq<nat>>, id: nat)
    requires |rows| == TASKS && id < TASKS && Held(rows[id]) == 0
    requires forall i :: 0 <= i < |rows| ==> |rows[i]| == SLOTS_PER_TASK
    ensures HeldBy(rows) <= 28
  {
    var full: seq<nat> := [1, 1, 1, 1];
    HeldByUpdate(rows, id, full);
    HeldByBound(rows[id := full]);
    assert full[..3] == [1, 1, 1] && [1, 1, 1][..2] == [1, 1] && [1, 1][..1] == [1] && [1][..0] == [];
    assert Held([1]) == 1 && Held([1, 1]) == 2 && Held([1, 1, 1]) == 3 && Held(full) == 4;
  }

  /** Releasing a task closes each of its descriptors and empties its row. */
  lemma {:induction false} ReleaseTaskKeeps(f: Fds, id: nat, fd: nat)
    requires Inv(f) && id < TASKS && fd <= SLOTS_PER_TASK
    requires forall i :: 0 <= i < fd ==> f.rows[id][i] == 0
    ensures Inv(ReleaseTask(f, id, fd)) && ReleaseTask(f, id, fd).rows[id] == EMPTY_ROW
    ensures forall i :: 0 <= i < TASKS && i != id ==> ReleaseTask(f, id, fd).rows[i] == f.rows[i]
    decreases SLOTS_PER_TASK - fd
  {
    if fd == SLOTS_PER_TASK {
      assert f.rows[id] == EMPTY_ROW;
    } else {
      CloseKeeps(f, id, fd);
      ReleaseTaskKeeps(ReleaseSlot(f, id, fd), id, fd + 1);
    }
  }

  lemma BootInv()
    ensures Inv(Boot())
  {
    var f := Boot();
    assert f.rows[0] == [1, 2, 3, 0] && f.rows[1] == [5, 6, 7, 0];
    assert forall i :: 2 <= i < TASKS ==> f.rows[i] == EMPTY_ROW;
    BootOpen(CAPACITY);
    BootRows();
  }

  lemma {:induction false} BootOpen(n: nat)
    ensures CountOpen(seq(n, i => i < 7)) == if n < 7 then n else 7
  {
    if n > 0 {
      BootOpen(n - 1);
      assert seq(n, i => i < 7)[..n - 1] == seq(n - 1, i => i < 7);
    }
  }

  lemma HeldThree(a: nat, b: nat, c: nat)
    requires a > 0 && b > 0 && c > 0
    ensures Held([a, b, c, 0]) == 3
  {
    assert [a, b, c, 0][..3] == [a, b, c] && [a, b, c][..2] == [a, b] && [a, b][..1] == [a] && [a][..0] == [];
    assert Held([a]) == 1 && Held([a, b]) == 2 && Held([a, b, c]) == 3;
  }

  lemma TwoRows(a: seq<nat>, b: seq<nat>)
    ensures HeldBy([a, b]) == Held(a) + Held(b)
  {
    HeldAppend([], a);
    HeldAppend([a], b);
    assert [] + [a] == [a] && [a] + [b] == [a, b];
  }

  lemma BootRows()
    ensures HeldBy(Boot().rows) == 6
  {
    HeldThree(1, 2, 3);
    HeldThree(5, 6, 7);
    var idle, first: seq<nat> := [1, 2, 3, 0], [5, 6, 7, 0];
    TwoRows(idle, first);
    EmptyRowsHold([idle, first], 6);
  }

  lemma EmptyRowsGrow(rows: seq<seq<nat>>, n: nat)
    requires n > 0
    ensures rows + seq(n, _ => EMPTY_ROW) == (rows + seq(n - 1, _ => EMPTY_ROW)) + [EMPTY_ROW]
  {
  }

  lemma {:induction false} EmptyRowsHold(rows: seq<seq<nat>>, n: nat)
    ensures HeldBy(rows + seq(n, _ => EMPTY_ROW)) == HeldBy(rows)
  {
    if n == 0 {
      assert rows + seq(n, _ => EMPTY_ROW) == rows;
    } else {
      EmptyRowsHold(rows, n - 1);
      EmptyRowsGrow(rows, n);
      HeldAppend(rows + seq(n - 1, _ => EMPTY_ROW), EMPTY_ROW);
      HeldEmpty();
    }
  }

  lemma HeldAppend(rows: seq<seq<nat>>, row: seq<nat>)
    ensures HeldBy(rows + [row]) == HeldBy(rows) + Held(row)
  {
    assert (rows + [row])[..|rows|] == rows;
  }
}
