/**
 The files and descriptors boot leaves, and what becomes of the files of the
 initial image in every run.
 */
module BootFiles {
  import opened Base
  import opened Kernel
  import opened KernelRuns
  import Frames
  import Initramfs
  import VfsBoot
  import VfsRuns
  import Calls
  import D = Descriptors
  import V = Vfs
  import O = OpenFiles

  /** After the self-test: only its spare descriptor is open, at the start of a file. */
  function Tested(nodes: seq<Initramfs.Node>, spare: nat): (vfs: V.Vfs) {
    V.Vfs(nodes, [V.Closed, V.Closed, V.Closed, V.OnFile(spare, 0)] + seq(28, _ => V.Closed), seq(|nodes|, _ => 0))
  }

  function TestedFds(): (f: D.Fds) {
    D.Fds([false, false, false, true] + seq(28, _ => false), seq(8, _ => [0, 0, 0, 0]))
  }

  lemma {:induction false} FirstClosedIs(open: seq<bool>, d: nat, r: nat)
    requires 1 <= d <= r <= |open| && !open[r - 1] && forall i :: d - 1 <= i < r - 1 ==> open[i]
    ensures D.FirstClosed(open, d) == r
    decreases r - d
  {
    if d < r {
      FirstClosedIs(open, d + 1, r);
    }
  }

  /** The consoles of one task, the descriptors they get being known. */
  lemma ConsolesAre(v: V.Vfs, a: nat, b: nat, c: nat)
    requires 1 <= a < b < c <= |v.descs| && v.descs[a - 1].Closed? && v.descs[b - 1].Closed? && v.descs[c - 1].Closed?
    requires forall i :: 0 <= i < c - 1 && i != a - 1 && i != b - 1 ==> !v.descs[i].Closed?
    ensures O.Consoles(v) == v.(descs := v.descs[a - 1 := V.ConsoleIn][b - 1 := V.ConsoleOut][c - 1 := V.ConsoleOut])
  {
    var open := V.Opens(v.descs);
    FirstClosedIs(open, 1, a);
    FirstClosedIs(D.Taken(open, a), 1, b);
    FirstClosedIs(D.Taken(D.Taken(open, a), b), 1, c);
    Calls.ThreeConsoles(v, a, b, c);
  }

  /** With idle's consoles. */
  function WithIdle(nodes: seq<Initramfs.Node>, spare: nat): (vfs: V.Vfs) {
    V.Vfs(nodes, [V.ConsoleIn, V.ConsoleOut, V.ConsoleOut, V.OnFile(spare, 0)] + seq(28, _ => V.Closed),
          seq(|nodes|, _ => 0))
  }

  lemma IdleMade(nodes: seq<Initramfs.Node>, spare: nat)
    ensures O.Consoles(Tested(nodes, spare)) == WithIdle(nodes, spare)
  {
    var v := Tested(nodes, spare);
    ConsolesAre(v, 1, 2, 3);
    assert v.descs[0 := V.ConsoleIn][1 := V.ConsoleOut][2 := V.ConsoleOut] == WithIdle(nodes, spare).descs;
  }

  lemma TaskOneMade(nodes: seq<Initramfs.Node>, spare: nat)
    ensures O.Consoles(WithIdle(nodes, spare)) == Mount(nodes, spare)
  {
    var v := WithIdle(nodes, spare);
    ConsolesAre(v, 5, 6, 7);
    assert v.descs[4 := V.ConsoleIn][5 := V.ConsoleOut][6 := V.ConsoleOut] == Mount(nodes, spare).descs;
  }

  /** Making idle and task 1 after the self-test leaves the table boot starts
      from: input, output and error of idle, the spare, and those of task 1. */
  lemma MountBuilt(nodes: seq<Initramfs.Node>, spare: nat)
    ensures O.Consoles(O.Consoles(Tested(nodes, spare))) == Mount(nodes, spare)
  {
    IdleMade(nodes, spare);
    TaskOneMade(nodes, spare);
  }

  lemma RowsAre(f: D.Fds, id: nat, a: nat, b: nat, c: nat)
    requires D.Sized(f) && id < 8 && 1 <= a < b < c <= 32 && !f.open[a - 1] && !f.open[b - 1] && !f.open[c - 1]
    requires forall i :: 0 <= i < c - 1 && i != a - 1 && i != b - 1 ==> f.open[i]
    ensures D.InitTask(f, id).Ok?
    ensures var f' := D.InitTask(f, id).value;
            && f'.open == f.open[a - 1 := true][b - 1 := true][c - 1 := true] && |f'.rows| == 8
            && f'.rows[id] == [a, b, c, 0] && forall i :: 0 <= i < 8 && i != id ==> f'.rows[i] == f.rows[i]
  {
    FirstClosedIs(f.open, 1, a);
    FirstClosedIs(D.Taken(f.open, a), 1, b);
    FirstClosedIs(D.Taken(D.Taken(f.open, a), b), 1, c);
    D.InitTaskParts(f, id, a, b, c);
    Calls.FilledRow(f.rows, id, a, b, c);
  }

  function IdleFds(): (f: D.Fds) {
    D.Fds([true, true, true, true] + seq(28, _ => false), [[1, 2, 3, 0]] + seq(7, _ => [0, 0, 0, 0]))
  }

  lemma IdleRow()
    ensures D.InitTask(TestedFds(), 0) == Ok(IdleFds())
  {
    var f := TestedFds();
    RowsAre(f, 0, 1, 2, 3);
    assert f.open[0 := true][1 := true][2 := true] == IdleFds().open;
    assert D.InitTask(f, 0).value.rows == IdleFds().rows;
  }

  lemma TaskOneRow()
    ensures D.InitTask(IdleFds(), 1) == Ok(D.Boot())
  {
    var f := IdleFds();
    RowsAre(f, 1, 5, 6, 7);
    assert f.open[4 := true][5 := true][6 := true] == D.Boot().open;
    assert D.InitTask(f, 1).value.rows == D.Boot().rows;
  }

  /** And the rows of the tasks with it. */
  lemma BootBuilt()
    ensures D.InitTask(TestedFds(), 0).Ok? && D.InitTask(D.InitTask(TestedFds(), 0).value, 1) == Ok(D.Boot())
  {
    IdleRow();
    TaskOneRow();
  }

  /** In every run from boot over a packed image, to whose table the self-test may
      have added nodes: the image's files keep their names and their bytes,
      whatever programs do. */
  lemma ImageFilesStay(pool: Frames.Pool, nodes: seq<Initramfs.Node>, files: seq<Initramfs.File>, spare: nat,
                       states: seq<Kernel>, steps: seq<Step>, n: nat, i: nat)
    requires |nodes| > |files| && VfsBoot.BootTable(nodes[..|files| + 1], files) && i < |files|
    requires BootRun(pool, Mount(nodes, spare), states, steps, n)
    ensures |states[n].vfs.nodes| > |files|
    ensures var node := states[n].vfs.nodes[i];
            && node.name == files[i].name && node.length <= |node.buffer|
            && VfsRuns.Contents(node) == files[i].data && !node.writable && !node.directory
  {
    FilesInRun(pool, Mount(nodes, spare), states, steps, n);
    assert nodes[..|files| + 1][i] == nodes[i];
    assert states[n].vfs.nodes[i] == nodes[i];
    TakeAll(files[i].data);
  }
}
