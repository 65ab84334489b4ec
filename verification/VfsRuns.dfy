/**
 What every run of the file system keeps: files behave as byte sequences, what is
 not writable never changes, and buffers never cost more than twice their size.
 */
module VfsRuns {
  import opened Base
  import opened Bytes
  import opened Initramfs
  import opened Vfs

  // ---------------------------------------------------------------------
  // Files as byte sequences
  // ---------------------------------------------------------------------

  /** A file with its contents only: no buffer, no capacity. */
  datatype Plain = Plain(meta: Meta, data: seq<byte>)

  datatype Files = Files(files: seq<Plain>, descs: seq<Desc>)

  function Contents(n: Node): (r: seq<byte>)
    requires n.length <= |n.buffer|
  {
    n.buffer[..n.length]
  }

  function PlainOf(n: Node): (r: Plain)
    requires n.length <= |n.buffer|
  {
    Plain(MetaOf(n), Contents(n))
  }

  function View(s: Vfs): (r: Files)
    requires NodesOk(s)
    ensures |r.files| == |s.nodes|
  {
    Files(seq(|s.nodes|, i requires 0 <= i < |s.nodes| => PlainOf(s.nodes[i])), s.descs)
  }

  /** Data with bytes written over it at offset, any gap filled with zeros. */
  function Overlay(data: seq<byte>, offset: nat, bytes: seq<byte>): (r: seq<byte>) {
    if offset > |data| then data + Repeat(0, offset - |data|) + bytes
    else data[..offset] + bytes + if offset + |bytes| < |data| then data[offset + |bytes|..] else []
  }

  function FileMetas(files: seq<Plain>): (r: seq<Meta>)
    ensures |r| == |files| && forall i :: 0 <= i < |files| ==> r[i] == files[i].meta
  {
    seq(|files|, i requires 0 <= i < |files| => files[i].meta)
  }

  function FilesWith(f: Files, what: Desc): (r: Files) { f.(descs := AllocDesc(f.descs, what).0) }

  function FilesOpen(f: Files, path: seq<byte>, flags: int): (r: Files) {
    match OpenTarget(FileMetas(f.files), path, flags)
    case Nothing => f
    case TheDirectory(p) => FilesWith(f, OnDirectory(p, 0))
    case TheFile(id, truncate) =>
      FilesWith(if truncate then f.(files := f.files[id := f.files[id].(data := [])]) else f, OnFile(id, 0))
    case NewFile(p) => FilesWith(f.(files := f.files + [Plain(Meta(p, false, true), [])]), OnFile(|f.files|, 0))
  }

  function FilesDesc(f: Files, d: int): (r: Desc) { DescAt(Vfs([], f.descs, []), d) }

  function FilesOffset(f: Files, d: int, offset: nat): (r: Files) {
    f.(descs := SetOffset(Vfs([], f.descs, []), d, offset).descs)
  }

  function FilesRead(f: Files, d: int, length: nat): (r: Option<seq<byte>>) {
    var desc := FilesDesc(f, d);
    if desc.OnFile? && desc.node < |f.files| then
      var data := f.files[desc.node].data;
      Some(if desc.offset >= |data| then []
           else data[desc.offset..if length > |data| - desc.offset then |data| else desc.offset + length])
    else None
  }

  function FilesWrite(f: Files, d: int, data: seq<byte>): (r: Files) {
    var desc := FilesDesc(f, d);
    if desc.OnFile? && desc.node < |f.files| && f.files[desc.node].meta.writable && desc.offset + |data| < TWO63 then
      var file := f.files[desc.node];
      var written := f.files[desc.node := file.(data := Overlay(file.data, desc.offset, data))];
      FilesOffset(f.(files := written), d, desc.offset + |data|)
    else f
  }

  function FilesNext(f: Files, step: Step): (r: Files) {
    match step
    case OpenStep(path, flags) => FilesOpen(f, path, flags)
    case CloseStep(d) =>
      if FilesDesc(f, d).Closed? then f else f.(descs := f.descs[d - 1 := Closed])
    case WriteStep(d, data, _) => FilesWrite(f, d, data)
    case ReadStep(d, length, _) =>
      if length < 0 || !FilesDesc(f, d).OnFile? then f
      else (match FilesRead(f, d, length)
            case None => f
            case Some(bytes) => FilesOffset(f, d, FilesDesc(f, d).offset + |bytes|))
    case ReadDirStep(d, length) =>
      if length < 0 || !FilesDesc(f, d).OnDirectory? then f
      else
        var metas, desc := FileMetas(f.files), FilesDesc(f, d);
        var i := NextShown(metas, desc.path, desc.offset);
        if i >= |metas| then f else FilesOffset(f, d, i + 1)
    case ConsoleStep(input) => FilesWith(f, if input then ConsoleIn else ConsoleOut)
  }

  // ---------------------------------------------------------------------
  // One write
  // ---------------------------------------------------------------------

  lemma GrownKeeps(n: Node, least: nat, junk: nat -> byte)
    requires n.length <= |n.buffer|
    ensures GrownBuffer(n, least, junk)[..n.length] == Contents(n)
  {
  }

  lemma StoredAt(buffer: seq<byte>, offset: nat, data: seq<byte>, i: nat)
    requires offset + |data| <= |buffer| && i < |buffer|
    ensures Overwritten(buffer, offset, data)[i] == if offset <= i < offset + |data| then data[i - offset]
             else buffer[i]
  {
  }

  predicate ZeroBetween(b: seq<byte>, lo: nat, hi: nat)
    requires hi <= |b|
  {
    forall i :: lo <= i < hi ==> b[i] == 0
  }

  /** A write leaves exactly the zero-filled overlay when it starts at or below
      the length, and beyond it exactly when the stale bytes in the gap are zero. */
  lemma WriteOverlaysIff(n: Node, offset: nat, data: seq<byte>, junk: nat -> byte)
    requires n.length <= |n.buffer|
    ensures var n' := WrittenNode(n, offset, data, junk);
            && n'.length <= |n'.buffer| && MetaOf(n') == MetaOf(n)
            && (Contents(n') == Overlay(Contents(n), offset, data) <==>
                  offset <= n.length || ZeroBetween(GrownBuffer(n, offset + |data|, junk), n.length, offset))
  {
    var end := offset + |data|;
    var b := GrownBuffer(n, end, junk);
    var n' := WrittenNode(n, offset, data, junk);
    var got, want := Contents(n'), Overlay(Contents(n), offset, data);
    GrownKeeps(n, end, junk);
    assert |got| == |want| == n'.length;
    forall i | 0 <= i < n'.length
      ensures got[i] == want[i] <==> !(n.length <= i < offset) || b[i] == 0
    {
      StoredAt(b, offset, data, i);
      OverlayAt(Contents(n), offset, data, i);
      assert i < n.length ==> b[..n.length][i] == b[i];
    }
  }

  lemma OverlayAt(data: seq<byte>, offset: nat, bytes: seq<byte>, i: nat)
    requires i < |Overlay(data, offset, bytes)|
    ensures Overlay(data, offset, bytes)[i]
         == if offset <= i < offset + |bytes| then bytes[i - offset] else if i < |data| then data[i] else 0
  {
  }

  // ---------------------------------------------------------------------
  // One step
  // ---------------------------------------------------------------------

  /** The step is no write, or its write starts at or below the length. */
  predicate Inside(s: Vfs, step: Step)
    requires NodesOk(s)
  {
    step.WriteStep? && DescAt(s, step.d).OnFile? ==> DescAt(s, step.d).offset <= s.nodes[DescAt(s, step.d).node].length
  }

  lemma SameMetas(s: Vfs)
    requires NodesOk(s)
    ensures FileMetas(View(s).files) == Metas(s.nodes)
  {
  }

  lemma ViewDesc(s: Vfs, d: int)
    requires NodesOk(s)
    ensures FilesDesc(View(s), d) == DescAt(s, d)
  {
  }

  lemma ViewUpdated(s: Vfs, id: nat, n: Node)
    requires NodesOk(s) && id < |s.nodes| && n.length <= |n.buffer|
    ensures NodesOk(s.(nodes := s.nodes[id := n]))
    ensures View(s.(nodes := s.nodes[id := n])).files == View(s).files[id := PlainOf(n)]
  {
  }

  lemma ViewCreated(s: Vfs, path: seq<byte>)
    requires NodesOk(s)
    ensures NodesOk(Created(s, path))
    ensures View(Created(s, path)).files == View(s).files + [Plain(Meta(path, false, true), [])]
  {
  }

  lemma OpenRefines(s: Vfs, path: seq<byte>, flags: int)
    requires NodesOk(s) && Open(s, path, flags).Ok?
    ensures var s' := Open(s, path, flags).value.0;
            NodesOk(s') && View(s') == FilesOpen(View(s), path, flags)
  {
    SameMetas(s);
    match OpenTarget(Metas(s.nodes), path, flags)
    case Nothing =>
    case TheDirectory(p) =>
    case TheFile(id, truncate) =>
      ViewUpdated(s, id, s.nodes[id].(length := 0));
    case NewFile(p) =>
      ViewCreated(s, p);
  }

  lemma SetOffsetView(s: Vfs, d: int, offset: nat)
    requires NodesOk(s)
    ensures NodesOk(SetOffset(s, d, offset)) && View(SetOffset(s, d, offset)) == FilesOffset(View(s), d, offset)
  {
  }

  lemma WrittenAtView(s: Vfs, id: nat, offset: nat, data: seq<byte>, junk: nat -> byte)
    requires NodesOk(s) && id < |s.nodes| && offset <= s.nodes[id].length
    ensures NodesOk(WrittenAt(s, id, offset, data, junk))
    ensures var file := View(s).files[id];
            var file' := file.(data := Overlay(file.data, offset, data));
            View(WrittenAt(s, id, offset, data, junk)) == View(s).(files := View(s).files[id := file'])
  {
    var n := s.nodes[id];
    var n' := WrittenNode(n, offset, data, junk);
    WriteOverlaysIff(n, offset, data, junk);
    ViewUpdated(s, id, n');
    assert View(s).files[id] == PlainOf(n);
    assert View(WrittenAt(s, id, offset, data, junk)).files == View(s.(nodes := s.nodes[id := n'])).files;
  }

  lemma WriteRefines(s: Vfs, step: Step)
    requires NodesOk(s) && step.WriteStep? && Inside(s, step)
    ensures var s' := Write(s, step.d, step.data, step.junk).0;
            NodesOk(s') && View(s') == FilesWrite(View(s), step.d, step.data)
  {
    ViewDesc(s, step.d);
    var desc := DescAt(s, step.d);
    if desc.OnFile? && s.nodes[desc.node].writable && desc.offset + |step.data| < TWO63 {
      WrittenAtView(s, desc.node, desc.offset, step.data, step.junk);
      SetOffsetView(WrittenAt(s, desc.node, desc.offset, step.data, step.junk), step.d, desc.offset + |step.data|);
      assert View(s).files[desc.node].meta == MetaOf(s.nodes[desc.node]);
    }
  }

  lemma PrefixSlice(b: seq<byte>, n: nat, lo: nat, hi: nat)
    requires lo <= hi <= n <= |b|
    ensures b[..n][lo..hi] == b[lo..hi]
  {
  }

  /** What a read returns is what the file holds there. */
  lemma ReadRefines(s: Vfs, d: int, length: int, typed: seq<byte>)
    requires NodesOk(s) && length >= 0 && DescAt(s, d).OnFile?
    ensures Read(s, d, length, typed).1 == FilesRead(View(s), d, length)
  {
    ViewDesc(s, d);
    var desc := DescAt(s, d);
    var n := s.nodes[desc.node];
    assert View(s).files[desc.node].data == Contents(n);
    if desc.offset < n.length {
      var end := if length > n.length - desc.offset then n.length else desc.offset + length;
      PrefixSlice(n.buffer, n.length, desc.offset, end);
    }
  }

  lemma ReadStepRefines(s: Vfs, step: Step)
    requires NodesOk(s) && step.ReadStep?
    ensures NodesOk(Next(s, step).value) && View(Next(s, step).value) == FilesNext(View(s), step)
  {
    ViewDesc(s, step.d);
    if step.length >= 0 && DescAt(s, step.d).OnFile? {
      ReadRefines(s, step.d, step.length, step.typed);
      SetOffsetView(s, step.d, DescAt(s, step.d).offset + |Read(s, step.d, step.length, step.typed).1.value|);
    }
  }

  lemma ReadDirStepRefines(s: Vfs, step: Step)
    requires NodesOk(s) && step.ReadDirStep?
    ensures NodesOk(Next(s, step).value) && View(Next(s, step).value) == FilesNext(View(s), step)
  {
    ViewDesc(s, step.d);
    SameMetas(s);
    var desc := DescAt(s, step.d);
    if step.length >= 0 && desc.OnDirectory? {
      SetOffsetView(s, step.d, NextShown(Metas(s.nodes), desc.path, desc.offset) + 1);
    }
  }

  lemma CloseRefines(s: Vfs, d: int)
    requires NodesOk(s)
    ensures NodesOk(Close(s, d).0) && View(Close(s, d).0) == FilesNext(View(s), CloseStep(d))
  {
    ViewDesc(s, d);
  }

  /** Every step does to the files what it says, if a write starts inside. */
  lemma StepRefines(s: Vfs, step: Step)
    requires NodesOk(s) && Next(s, step).Ok? && Inside(s, step)
    ensures NodesOk(Next(s, step).value) && View(Next(s, step).value) == FilesNext(View(s), step)
  {
    match step
    case OpenStep(path, flags) =>
      OpenRefines(s, path, flags);
    case CloseStep(d) =>
      CloseRefines(s, d);
    case WriteStep(d, data, junk) =>
      WriteRefines(s, step);
    case ReadStep(d, length, typed) =>
      ReadStepRefines(s, step);
    case ReadDirStep(d, length) =>
      ReadDirStepRefines(s, step);
    case ConsoleStep(input) =>
  }

  // ---------------------------------------------------------------------
  // What no step changes
  // ---------------------------------------------------------------------

  /** s' has the nodes of s, perhaps more after them, each with its name and
      kind, and those that are not writable as they were. */
  ghost predicate Extends(s: Vfs, s': Vfs) {
    && |s.nodes| <= |s'.nodes|
    && (forall i {:trigger s'.nodes[i]} :: 0 <= i < |s.nodes| ==>
          MetaOf(s'.nodes[i]) == MetaOf(s.nodes[i]) && (!s.nodes[i].writable ==> s'.nodes[i] == s.nodes[i]))
  }

  lemma ExtendsTrans(a: Vfs, b: Vfs, c: Vfs)
    requires Extends(a, b) && Extends(b, c)
    ensures Extends(a, c)
  {
    forall i | 0 <= i < |a.nodes|
      ensures MetaOf(c.nodes[i]) == MetaOf(a.nodes[i]) && (!a.nodes[i].writable ==> c.nodes[i] == a.nodes[i])
    {
      assert MetaOf(b.nodes[i]) == MetaOf(a.nodes[i]);
    }
  }

  /** The bytes ever allocated for a file are at most twice its present buffer. */
  ghost predicate SpentOk(s: Vfs) {
    && |s.spent| == |s.nodes|
    && forall i :: 0 <= i < |s.nodes| ==> s.spent[i] <= 2 * |s.nodes[i].buffer|
  }

  lemma WriteKeeps(s: Vfs, step: Step)
    requires NodesOk(s) && SpentOk(s) && step.WriteStep?
    ensures var s' := Write(s, step.d, step.data, step.junk).0;
            NodesOk(s') && SpentOk(s') && Extends(s, s') && |s'.nodes| == |s.nodes|
  {
    var desc := DescAt(s, step.d);
    if desc.OnFile? && s.nodes[desc.node].writable && desc.offset + |step.data| < TWO63 {
      WriteOverlaysIff(s.nodes[desc.node], desc.offset, step.data, step.junk);
    }
  }

  lemma OpenKeeps(s: Vfs, path: seq<byte>, flags: int)
    requires NodesOk(s) && SpentOk(s) && Open(s, path, flags).Ok?
    ensures var s' := Open(s, path, flags).value.0;
            NodesOk(s') && SpentOk(s') && Extends(s, s') && (|s.nodes| <= MAX_NODES ==> |s'.nodes| <= MAX_NODES)
  {
    OpenRefines(s, path, flags);
  }

  lemma StepKeeps(s: Vfs, step: Step)
    requires NodesOk(s) && SpentOk(s) && Next(s, step).Ok?
    ensures var s' := Next(s, step).value;
            NodesOk(s') && SpentOk(s') && Extends(s, s') && (|s.nodes| <= MAX_NODES ==> |s'.nodes| <= MAX_NODES)
  {
    match step
    case OpenStep(path, flags) =>
      OpenKeeps(s, path, flags);
    case CloseStep(d) =>
    case WriteStep(d, data, junk) =>
      WriteKeeps(s, step);
    case ReadStep(d, length, typed) =>
    case ReadDirStep(d, length) =>
    case ConsoleStep(input) =>
  }

  /** The only panic is a full node table, met by creating a thirty-third node. */
  lemma PanicsIff(s: Vfs, step: Step)
    requires NodesOk(s)
    ensures Next(s, step).Panic? <==>
              step.OpenStep? && OpenTarget(Metas(s.nodes), step.path, step.flags).NewFile? && |s.nodes| >= MAX_NODES
    ensures Next(s, step).Panic? ==> Next(s, step).fault == NodesFull
  {
  }

  // ---------------------------------------------------------------------
  // Runs
  // ---------------------------------------------------------------------

  ghost predicate IsRun(states: seq<Vfs>, steps: seq<Step>) {
    && |states| == |steps| + 1
    && (forall i :: 0 <= i < |states| ==> NodesOk(states[i]))
    && (forall i :: 0 <= i < |steps| ==> Next(states[i], steps[i]) == Ok(states[i + 1]))
  }

  /** Running the steps on files that are byte sequences. */
  function FilesRun(f: Files, steps: seq<Step>): (r: Files)
  {
    if steps == [] then f else FilesNext(FilesRun(f, steps[..|steps| - 1]), steps[|steps| - 1])
  }

  lemma FilesRunStep(f: Files, steps: seq<Step>, n: nat)
    requires n < |steps|
    ensures FilesRun(f, steps[..n + 1]) == FilesNext(FilesRun(f, steps[..n]), steps[n])
  {
    assert steps[..n + 1][..n] == steps[..n];
  }

  lemma RunStep(states: seq<Vfs>, steps: seq<Step>, n: nat)
    requires IsRun(states, steps) && n < |steps|
    ensures NodesOk(states[n]) && NodesOk(states[n + 1]) && Next(states[n], steps[n]) == Ok(states[n + 1])
  {
  }

  /** Files are byte sequences under any interleaving of opens, truncations,
      reads and writes through any number of descriptors, as long as each write
      starts at or below the length. */
  lemma {:induction false} RunRefines(states: seq<Vfs>, steps: seq<Step>, n: nat)
    requires IsRun(states, steps) && n <= |steps|
    requires forall i :: 0 <= i < n ==> Inside(states[i], steps[i])
    ensures View(states[n]) == FilesRun(View(states[0]), steps[..n])
  {
    if n > 0 {
      RunRefines(states, steps, n - 1);
      RunStep(states, steps, n - 1);
      StepRefines(states[n - 1], steps[n - 1]);
      FilesRunStep(View(states[0]), steps, n - 1);
    }
  }

  /** In every run: nodes are only added, names and kinds never change, nodes
      that are not writable never change at all, and no file has cost more than
      twice its present buffer. */
  lemma {:induction false} RunKeeps(states: seq<Vfs>, steps: seq<Step>, n: nat)
    requires IsRun(states, steps) && n <= |steps| && SpentOk(states[0])
    ensures Extends(states[0], states[n]) && SpentOk(states[n])
    ensures |states[0].nodes| <= MAX_NODES ==> |states[n].nodes| <= MAX_NODES
  {
    if n > 0 {
      RunKeeps(states, steps, n - 1);
      RunStep(states, steps, n - 1);
      StepKeeps(states[n - 1], steps[n - 1]);
      ExtendsTrans(states[0], states[n - 1], states[n]);
    }
  }

  /** The file system as init_vfs leaves it. */
  function Start(nodes: seq<Node>): (s: Vfs) {
    Vfs(nodes, seq(MAX_DESCRIPTORS, _ => Closed), seq(|nodes|, _ => 0))
  }

  lemma StartOk(files: seq<File>)
    ensures var s := Start(seq(|files|, i requires 0 <= i < |files| => FileNode(files[i])) + [TMP]);
            NodesOk(s) && SpentOk(s)
  {
  }

  // ---------------------------------------------------------------------
  // Stale bytes
  // ---------------------------------------------------------------------

  /** Truncating a file under a descriptor that is at its end, and then writing
      through that descriptor, brings all the truncated bytes back. */
  lemma StaleBytesReturn(n: Node, more: seq<byte>, junk: nat -> byte)
    requires n.length + |more| <= |n.buffer| && more != []
    ensures var cut := n.(length := 0);
            var again := WrittenNode(cut, n.length, more, junk);
            && again.length <= |again.buffer|
            && Contents(again) == Contents(n) + more
            && (Contents(again) == Overlay(Contents(cut), n.length, more) <==> ZeroBetween(n.buffer, 0, n.length))
  {
    var cut := n.(length := 0);
    WriteOverlaysIff(cut, n.length, more, junk);
    StoredPrefix(n.buffer, n.length, more);
  }

  lemma StoredPrefix(buffer: seq<byte>, offset: nat, data: seq<byte>)
    requires offset + |data| <= |buffer|
    ensures Overwritten(buffer, offset, data)[..offset + |data|] == buffer[..offset] + data
  {
  }
}
