/**
 A run in which truncated bytes come back: a file is written through one
 descriptor, truncated by a second open, and written through the first again.
 */
module Truncation {
  import opened Base
  import opened Paths
  import opened Initramfs
  import opened Vfs
  import opened VfsRuns
  import Descriptors

  /** "tmp" */
  const TMP_PART: Part := [116, 109, 112]

  // ---------------------------------------------------------------------
  // The path
  // ---------------------------------------------------------------------

  lemma PlainNormal(parts: seq<Part>)
    requires parts != [] && forall i :: 0 <= i < |parts| ==> Paths.Plain(parts[i])
    ensures Normalize(Join(parts)) == Some(Join(parts))
  {
    JoinHead(parts);
    ComponentsOfJoin(parts);
    FullOnly(parts);
    RunPlain(ROOT, parts);
    assert [] + parts == parts;
    RenderPlain(parts);
  }

  /** /tmp/name */
  function InTmp(name: Part): (path: seq<byte>) { Join([TMP_PART, name]) }

  lemma InTmpBytes(name: Part)
    ensures InTmp(name) == TMP.name + [SLASH] + name
  {
    assert [TMP_PART, name] == [TMP_PART] + [name];
    JoinOne([TMP_PART], name);
    assert Join([TMP_PART]) == [SLASH] + TMP_PART + Join([]);
    assert [SLASH] + TMP_PART + [] == TMP.name;
  }

  lemma {:induction false} LastSlashAt(path: seq<byte>, i: nat, k: nat)
    requires k <= i < |path| && path[k] == SLASH && forall j :: k < j <= i ==> path[j] != SLASH
    ensures LastSlash(path, i) == k
    decreases i
  {
    if k < i {
      LastSlashAt(path, i - 1, k);
    }
  }

  lemma InTmpParent(name: Part)
    requires Paths.Plain(name)
    ensures Parent(InTmp(name)) == Some(TMP.name)
  {
    InTmpBytes(name);
    var path := InTmp(name);
    assert path[4] == SLASH;
    assert forall j :: 4 < j < |path| ==> path[j] == name[j - 5];
    LastSlashAt(path, |path| - 1, 4);
    assert path[..4] == TMP.name;
  }

  /** What opening /tmp/name finds in a table of /tmp alone, and once the file is there. */
  lemma InTmpTargets(name: Part, metas: seq<Meta>)
    requires Paths.Plain(name) && 1 <= |metas| <= 2 && metas[0] == MetaOf(TMP)
    requires |metas| == 2 ==> metas[1] == Meta(InTmp(name), false, true)
    ensures |metas| == 1 ==> OpenTarget(metas, InTmp(name), 1) == NewFile(InTmp(name))
    ensures |metas| == 2 ==> OpenTarget(metas, InTmp(name), 2) == TheFile(1, true)
  {
    assert Paths.Plain(TMP_PART);
    PlainNormal([TMP_PART, name]);
    InTmpBytes(name);
    InTmpParent(name);
    assert |InTmp(name)| > 5 && metas[0].name != InTmp(name);
    assert Lookup(metas, TMP.name) == Some(0);
  }

  // ---------------------------------------------------------------------
  // The run
  // ---------------------------------------------------------------------

  function Opened(): (descs: seq<Desc>) { seq(MAX_DESCRIPTORS, _ => Closed) }

  function State0(): (s: Vfs) { Start([TMP]) }

  function State1(name: Part): (s: Vfs) {
    Vfs([TMP, Node(InTmp(name), [], 0, false, true)], Opened()[0 := OnFile(1, 0)], [0, 0])
  }

  /** The state after the file's node is n, 64 bytes were spent on it, and the descriptors are these. */
  function Later(n: Node, descs: seq<Desc>): (s: Vfs) { Vfs([TMP, n], descs, [0, 64]) }

  lemma FirstOpen(name: Part)
    requires Paths.Plain(name)
    ensures Next(State0(), OpenStep(InTmp(name), 1)) == Ok(State1(name)) && NodesOk(State0()) && NodesOk(State1(name))
  {
    var s := State0();
    InTmpTargets(name, Metas(s.nodes));
    CreatedFirst(name);
  }

  lemma CreatedFirst(name: Part)
    ensures WithDesc(Created(State0(), InTmp(name)), OnFile(1, 0)) == (State1(name), 1)
  {
    var s := State0();
    assert Opens(s.descs)[0] == false;
    assert Created(s, InTmp(name)).nodes == State1(name).nodes;
    assert Created(s, InTmp(name)).spent == [0, 0];
  }

  lemma FirstWrite(name: Part, data: seq<byte>, junk: nat -> byte)
    requires 0 < |data| <= 64
    ensures var n := WrittenNode(Node(InTmp(name), [], 0, false, true), 0, data, junk);
            && n.length == |data| && |n.buffer| == 64 && n.buffer[..|data|] == data
            && Next(State1(name), WriteStep(1, data, junk)) == Ok(Later(n, Opened()[0 := OnFile(1, |data|)]))
  {
    var s := State1(name);
    var n := WrittenNode(s.nodes[1], 0, data, junk);
    assert s.nodes[1 := n] == [TMP, n] && s.spent[1 := 0 + 64] == [0, 64];
    assert s.descs[0 := OnFile(1, |data|)] == Opened()[0 := OnFile(1, |data|)];
  }

  lemma SecondOpen(name: Part, n: Node, offset: nat)
    requires Paths.Plain(name) && MetaOf(n) == Meta(InTmp(name), false, true) && n.length <= |n.buffer|
    ensures var descs := Opened()[0 := OnFile(1, offset)];
            Next(Later(n, descs), OpenStep(InTmp(name), 2)) == Ok(Later(n.(length := 0), descs[1 := OnFile(1, 0)]))
  {
    var descs := Opened()[0 := OnFile(1, offset)];
    var s := Later(n, descs);
    InTmpTargets(name, Metas(s.nodes));
    assert Opens(descs)[0] && !Opens(descs)[1];
    assert Descriptors.FirstClosed(Opens(descs), 1) == Descriptors.FirstClosed(Opens(descs), 2) == 2;
    assert s.nodes[1 := n.(length := 0)] == [TMP, n.(length := 0)];
  }

  lemma SecondWrite(n: Node, offset: nat, more: seq<byte>, junk: nat -> byte)
    requires n.writable && n.length == 0 && offset + |more| <= |n.buffer| == 64
    ensures var descs := Opened()[0 := OnFile(1, offset)][1 := OnFile(1, 0)];
            Next(Later(n, descs), WriteStep(1, more, junk))
              == Ok(Later(WrittenNode(n, offset, more, junk), descs[0 := OnFile(1, offset + |more|)]))
  {
    var s := Later(n, Opened()[0 := OnFile(1, offset)][1 := OnFile(1, 0)]);
    var n' := WrittenNode(n, offset, more, junk);
    assert s.nodes[1 := n'] == [TMP, n'] && s.spent[1 := 64 + 0] == [0, 64];
  }

  /** The descriptors along the way. */
  function Held(first: nat, second: bool): (descs: seq<Desc>) {
    var descs := Opened()[0 := OnFile(1, first)];
    if second then descs[1 := OnFile(1, 0)] else descs
  }

  /** The four steps: create and open, write, open with truncation, write through the first descriptor. */
  function Steps(name: Part, data: seq<byte>, more: seq<byte>, junk: nat -> byte,
                 junk2: nat -> byte): (steps: seq<Step>) {
    [OpenStep(InTmp(name), 1), WriteStep(1, data, junk), OpenStep(InTmp(name), 2), WriteStep(1, more, junk2)]
  }

  lemma RunOfFour(s0: Vfs, s1: Vfs, s2: Vfs, s3: Vfs, s4: Vfs, steps: seq<Step>)
    requires |steps| == 4 && NodesOk(s0) && NodesOk(s1) && NodesOk(s2) && NodesOk(s3) && NodesOk(s4)
    requires Next(s0, steps[0]) == Ok(s1) && Next(s1, steps[1]) == Ok(s2)
    requires Next(s2, steps[2]) == Ok(s3) && Next(s3, steps[3]) == Ok(s4)
    ensures IsRun([s0, s1, s2, s3, s4], steps)
  {
  }

  function Written1(name: Part, data: seq<byte>, junk: nat -> byte): (n: Node) {
    WrittenNode(Node(InTmp(name), [], 0, false, true), 0, data, junk)
  }

  function State2(name: Part, data: seq<byte>, junk: nat -> byte): (s: Vfs) {
    Later(Written1(name, data, junk), Held(|data|, false))
  }

  function State3(name: Part, data: seq<byte>, junk: nat -> byte): (s: Vfs) {
    Later(Written1(name, data, junk).(length := 0), Held(|data|, true))
  }

  function State4(name: Part, data: seq<byte>, more: seq<byte>, junk: nat -> byte, junk2: nat -> byte): (s: Vfs)
    requires |data| <= 64
  {
    Later(WrittenNode(Written1(name, data, junk).(length := 0), |data|, more, junk2), Held(|data| + |more|, true))
  }

  lemma FirstTwo(name: Part, data: seq<byte>, junk: nat -> byte)
    requires Paths.Plain(name) && 0 < |data| <= 64
    ensures NodesOk(State0()) && Next(State0(), OpenStep(InTmp(name), 1)) == Ok(State1(name))
    ensures NodesOk(State1(name)) && Next(State1(name), WriteStep(1, data, junk)) == Ok(State2(name, data, junk))
    ensures NodesOk(State2(name, data, junk))
  {
    FirstOpen(name);
    FirstWrite(name, data, junk);
  }

  lemma LaterOk(n: Node, first: nat, second: bool)
    requires n.length <= |n.buffer|
    ensures NodesOk(Later(n, Held(first, second)))
  {
  }

  lemma ThirdStep(name: Part, n: Node, offset: nat)
    requires Paths.Plain(name) && MetaOf(n) == Meta(InTmp(name), false, true) && n.length <= |n.buffer|
    requires NodesOk(Later(n, Held(offset, false)))
    ensures Next(Later(n, Held(offset, false)), OpenStep(InTmp(name), 2))
             == Ok(Later(n.(length := 0), Held(offset, true)))
  {
    SecondOpen(name, n, offset);
  }

  lemma FourthStep(n: Node, offset: nat, more: seq<byte>, junk: nat -> byte)
    requires n.writable && n.length == 0 && offset + |more| <= |n.buffer| == 64 && NodesOk(Later(n, Held(offset, true)))
    ensures Next(Later(n, Held(offset, true)), WriteStep(1, more, junk))
         == Ok(Later(WrittenNode(n, offset, more, junk), Held(offset + |more|, true)))
  {
    SecondWrite(n, offset, more, junk);
    assert Held(offset, true)[0 := OnFile(1, offset + |more|)] == Held(offset + |more|, true);
  }

  lemma LastStatesOk(name: Part, data: seq<byte>, more: seq<byte>, junk: nat -> byte, junk2: nat -> byte, n: Node)
    requires data != [] && more != [] && |data| + |more| <= 64
    requires n == Written1(name, data, junk) && n.length == |data| && |n.buffer| == 64
    ensures NodesOk(State2(name, data, junk)) && NodesOk(State3(name, data, junk))
    ensures NodesOk(State4(name, data, more, junk, junk2))
  {
    StaleBytesReturn(n, more, junk2);
    LaterOk(n, |data|, false);
    LaterOk(n.(length := 0), |data|, true);
    LaterOk(WrittenNode(n.(length := 0), |data|, more, junk2), |data| + |more|, true);
  }

  lemma LastTwo(name: Part, data: seq<byte>, more: seq<byte>, junk: nat -> byte, junk2: nat -> byte, n: Node)
    requires Paths.Plain(name) && data != [] && more != [] && |data| + |more| <= 64
    requires n == Written1(name, data, junk) && n.length == |data| && |n.buffer| == 64
    ensures NodesOk(State2(name, data, junk)) && NodesOk(State3(name, data, junk))
    ensures Next(State2(name, data, junk), OpenStep(InTmp(name), 2)) == Ok(State3(name, data, junk))
    ensures Next(State3(name, data, junk), WriteStep(1, more, junk2)) == Ok(State4(name, data, more, junk, junk2))
    ensures NodesOk(State4(name, data, more, junk, junk2))
  {
    LastStatesOk(name, data, more, junk, junk2, n);
    ThirdStep(name, n, |data|);
    FourthStep(n.(length := 0), |data|, more, junk2);
  }

  /**
   From a file system that holds /tmp alone, four steps after which the file
   holds the bytes that were truncated away, followed by the new ones, where a
   file that is a byte sequence would hold zeros.
   */
  lemma StaleBytesRun(name: Part, data: seq<byte>, more: seq<byte>, junk: nat -> byte, junk2: nat -> byte)
      returns (states: seq<Vfs>)
    requires Paths.Plain(name) && data != [] && more != [] && |data| + |more| <= 64
    ensures var steps := Steps(name, data, more, junk, junk2);
            && IsRun(states, steps) && states[0] == Start([TMP]) && |states[4].nodes| == 2
            && Contents(states[4].nodes[1]) == data + more
            && FilesNext(View(states[3]), steps[3]).files[1].data == Repeat(0, |data|) + more
  {
    states := States(name, data, more, junk, junk2);
    StatesRun(name, data, more, junk, junk2);
    Outcomes(name, data, more, junk, junk2);
  }

  function States(name: Part, data: seq<byte>, more: seq<byte>, junk: nat -> byte, junk2: nat -> byte): (r: seq<Vfs>)
    requires |data| + |more| <= 64
  {
    [State0(), State1(name), State2(name, data, junk), State3(name, data, junk), State4(name, data, more, junk, junk2)]
  }

  lemma StatesRun(name: Part, data: seq<byte>, more: seq<byte>, junk: nat -> byte, junk2: nat -> byte)
    requires Paths.Plain(name) && data != [] && more != [] && |data| + |more| <= 64
    ensures IsRun(States(name, data, more, junk, junk2), Steps(name, data, more, junk, junk2))
  {
    FirstTwo(name, data, junk);
    FirstWrite(name, data, junk);
    LastTwo(name, data, more, junk, junk2, Written1(name, data, junk));
    RunOfFour(State0(), State1(name), State2(name, data, junk), State3(name, data, junk),
              State4(name, data, more, junk, junk2), Steps(name, data, more, junk, junk2));
  }

  lemma Outcomes(name: Part, data: seq<byte>, more: seq<byte>, junk: nat -> byte, junk2: nat -> byte)
    requires data != [] && more != [] && |data| + |more| <= 64
    requires NodesOk(State3(name, data, junk)) && NodesOk(State4(name, data, more, junk, junk2))
    ensures Contents(State4(name, data, more, junk, junk2).nodes[1]) == data + more
    ensures FilesNext(View(State3(name, data, junk)), WriteStep(1, more, junk2)).files[1].data
             == Repeat(0, |data|) + more
  {
    FirstWrite(name, data, junk);
    StaleBytesReturn(Written1(name, data, junk), more, junk2);
    ZeroFilled(State3(name, data, junk), |data|, more, junk2);
  }

  /** What the byte-sequence reading of the last write is. */
  lemma ZeroFilled(s: Vfs, offset: nat, more: seq<byte>, junk: nat -> byte)
    requires NodesOk(s) && |s.nodes| == 2 && s.nodes[1].length == 0 && s.nodes[1].writable
    requires DescAt(s, 1) == OnFile(1, offset) && 0 < offset && offset + |more| < TWO63
    ensures FilesNext(View(s), WriteStep(1, more, junk)).files[1].data == Repeat(0, offset) + more
  {
    ViewDesc(s, 1);
    assert View(s).files[1].data == [];
    assert [] + Repeat(0, offset) + more == Repeat(0, offset) + more;
  }
}
