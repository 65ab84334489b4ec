/**
 What each file operation does, said of nodes, descriptors and bytes: which one
 changes, how, and what is returned; and that nothing else changes.
 */
module FileCalls {
  import opened Base
  import opened Initramfs
  import opened Vfs
  import opened VfsRuns
  import opened Names
  import Listing
  import D = Descriptors

  // ---------------------------------------------------------------------
  // Frames
  // ---------------------------------------------------------------------

  /** No descriptor but d, counted from 1, is different. */
  ghost predicate OtherDescs(s: Vfs, s': Vfs, d: nat) {
    |s'.descs| == |s.descs| && forall i :: 0 <= i < |s.descs| && i != d - 1 ==> s'.descs[i] == s.descs[i]
  }

  /** No node but `id` is different. */
  ghost predicate OtherNodes(s: Vfs, s': Vfs, id: nat) {
    |s'.nodes| == |s.nodes| && forall i :: 0 <= i < |s.nodes| && i != id ==> s'.nodes[i] == s.nodes[i]
  }

  /** The descriptor numbered d is open. */
  predicate Open1(s: Vfs, d: nat) { 1 <= d <= |s.descs| && !s.descs[d - 1].Closed? }

  // ---------------------------------------------------------------------
  // Write
  // ---------------------------------------------------------------------

  /** The bytes are in the file at offset, the rest of it is as it was, and it
      reaches as far as it did or as the bytes do. Inside the file that is all. */
  ghost predicate FileWritten(n: Node, n': Node, offset: nat, data: seq<byte>)
    requires n.length <= |n.buffer|
  {
    && MetaOf(n') == MetaOf(n) && n'.length <= |n'.buffer|
    && n'.length == (if offset + |data| > n.length then offset + |data| else n.length)
    && n'.buffer[offset..offset + |data|] == data
    && (forall i :: 0 <= i < n.length && !(offset <= i < offset + |data|) ==> n'.buffer[i] == n.buffer[i])
    && (offset <= n.length ==> Contents(n') == Contents(n)[..offset] + data + Tail(Contents(n), offset + |data|))
  }

  function Tail(s: seq<byte>, n: nat): (r: seq<byte>) { if n < |s| then s[n..] else [] }

  lemma NodeWritten(n: Node, offset: nat, data: seq<byte>, junk: nat -> byte)
    requires n.length <= |n.buffer|
    ensures FileWritten(n, WrittenNode(n, offset, data, junk), offset, data)
  {
    var n' := WrittenNode(n, offset, data, junk);
    var b := GrownBuffer(n, offset + |data|, junk);
    forall i | 0 <= i < |b|
      ensures n'.buffer[i] == if offset <= i < offset + |data| then data[i - offset] else b[i]
    {
      StoredAt(b, offset, data, i);
    }
    assert forall i :: 0 <= i < n.length ==> b[i] == n.buffer[i];
    WriteOverlaysIff(n, offset, data, junk);
  }

  /** A write through an open descriptor. */
  ghost predicate Written(s: Vfs, d: nat, data: seq<byte>, s': Vfs, r: int)
    requires NodesOk(s) && Open1(s, d)
  {
    match s.descs[d - 1]
    case ConsoleOut => s' == s && r == |data|
    case OnFile(id, offset) =>
      if s.nodes[id].writable && offset + |data| < TWO63 then
        && r == |data| && OtherDescs(s, s', d) && s'.descs[d - 1] == OnFile(id, offset + |data|)
        && OtherNodes(s, s', id) && FileWritten(s.nodes[id], s'.nodes[id], offset, data)
      else s' == s && r == -1
    case _ => s' == s && r == -1
  }

  lemma WriteDoes(s: Vfs, d: nat, data: seq<byte>, junk: nat -> byte)
    requires NodesOk(s) && Open1(s, d)
    ensures Written(s, d, data, Write(s, d, data, junk).0, Write(s, d, data, junk).1)
  {
    if s.descs[d - 1].OnFile? {
      NodeWritten(s.nodes[s.descs[d - 1].node], s.descs[d - 1].offset, data, junk);
    }
  }

  // ---------------------------------------------------------------------
  // Read
  // ---------------------------------------------------------------------

  /** A read through an open descriptor: the file's bytes from the offset on, as
      many as were asked for and are there. */
  ghost predicate ReadOut(s: Vfs, d: nat, length: int, typed: seq<byte>, s': Vfs, r: Option<seq<byte>>)
    requires NodesOk(s) && Open1(s, d)
  {
    if length < 0 then s' == s && r == None
    else match s.descs[d - 1]
      case ConsoleIn => s' == s && r == Some(typed)
      case OnFile(id, offset) =>
        && r.Some? && s'.nodes == s.nodes && OtherDescs(s, s', d)
        && s'.descs[d - 1] == OnFile(id, offset + |r.value|)
        && (if offset >= s.nodes[id].length then r.value == []
            else
              && |r.value| == (if length <= s.nodes[id].length - offset then length else s.nodes[id].length - offset)
              && r.value == Contents(s.nodes[id])[offset..offset + |r.value|])
      case _ => s' == s && r == None
  }

  lemma ReadDoes(s: Vfs, d: nat, length: int, typed: seq<byte>)
    requires NodesOk(s) && Open1(s, d)
    ensures ReadOut(s, d, length, typed, Read(s, d, length, typed).0, Read(s, d, length, typed).1)
  {
  }

  // ---------------------------------------------------------------------
  // List
  // ---------------------------------------------------------------------

  /** Node i is the first to show this name in the directory. */
  ghost predicate NewName(nodes: seq<Node>, dir: seq<byte>, i: nat, name: seq<byte>)
    requires i < |nodes|
  {
    IsChildName(nodes[i].name, dir, name) && forall j :: 0 <= j < i ==> !IsChildName(nodes[j].name, dir, name)
  }

  /** None of the nodes from i to j is the first to show a name. */
  ghost predicate NoNewName(nodes: seq<Node>, dir: seq<byte>, i: nat, j: nat)
    requires j <= |nodes|
  {
    forall k, name :: i <= k < j ==> !NewName(nodes, dir, k, name)
  }

  lemma ShowsIff(nodes: seq<Node>, dir: seq<byte>, i: nat, name: seq<byte>)
    requires i < |nodes|
    ensures NewName(nodes, dir, i, name) <==> Shows(Metas(nodes), dir, i) && Child(nodes[i].name, dir) == name
  {
    forall j | 0 <= j <= i
      ensures name != [] ==> (Child(nodes[j].name, dir) == name <==> IsChildName(nodes[j].name, dir, name))
    {
      if name != [] {
        ChildIff(nodes[j].name, dir, name);
      }
    }
  }

  /** Node i is the next from the offset on to show a new name, this one. */
  ghost predicate NextName(nodes: seq<Node>, dir: seq<byte>, offset: nat, i: nat, name: seq<byte>) {
    offset <= i < |nodes| && NewName(nodes, dir, i, name) && NoNewName(nodes, dir, offset, i)
  }

  /** A listing through an open descriptor: the next new name, as much of it as
      was asked for, or nothing when there is none. */
  ghost predicate ListedOut(s: Vfs, d: nat, length: int, s': Vfs, r: Option<seq<byte>>)
    requires Open1(s, d)
  {
    if length < 0 || !s.descs[d - 1].OnDirectory? then s' == s && r == None
    else
      var dir, offset := s.descs[d - 1].path, s.descs[d - 1].offset;
      if NoNewName(s.nodes, dir, offset, |s.nodes|) then s' == s && r == Some([])
      else
        exists i: nat, name :: NextName(s.nodes, dir, offset, i, name)
          && s' == s.(descs := s.descs[d - 1 := OnDirectory(dir, i + 1)])
          && r == Some(if length <= |name| then name[..length] else name)
  }

  /** What the scan finds. */
  lemma NextShownIs(nodes: seq<Node>, dir: seq<byte>, offset: nat)
    ensures var i := NextShown(Metas(nodes), dir, offset);
            if i < |nodes| then NextName(nodes, dir, offset, i, Child(nodes[i].name, dir))
            else NoNewName(nodes, dir, offset, |nodes|)
  {
    var i := NextShown(Metas(nodes), dir, offset);
    if offset <= |nodes| {
      Listing.ShownIsNext(Metas(nodes), dir, offset);
    }
    NothingNew(nodes, dir, offset, if i < |nodes| then i else |nodes|);
    if i < |nodes| {
      ShowsIff(nodes, dir, i, Child(nodes[i].name, dir));
    }
  }

  lemma ListMoves(s: Vfs, d: nat, length: nat)
    requires Open1(s, d) && s.descs[d - 1].OnDirectory?
    ensures var dir, (s', r) := s.descs[d - 1].path, ReadDir(s, d, length);
            var i := NextShown(Metas(s.nodes), dir, s.descs[d - 1].offset);
            if i < |s.nodes| then
              var name := Child(s.nodes[i].name, dir);
              && s' == s.(descs := s.descs[d - 1 := OnDirectory(dir, i + 1)])
              && r == Some(if length <= |name| then name[..length] else name)
            else s' == s && r == Some([])
  {
    var i := NextShown(Metas(s.nodes), s.descs[d - 1].path, s.descs[d - 1].offset);
    if i < |s.nodes| {
      NameCut(Child(s.nodes[i].name, s.descs[d - 1].path), length);
    }
  }

  lemma ListDoes(s: Vfs, d: nat, length: int)
    requires Open1(s, d)
    ensures ListedOut(s, d, length, ReadDir(s, d, length).0, ReadDir(s, d, length).1)
  {
    if length >= 0 && s.descs[d - 1].OnDirectory? {
      ListMoves(s, d, length);
      NextShownIs(s.nodes, s.descs[d - 1].path, s.descs[d - 1].offset);
    }
  }

  lemma NameCut(name: seq<byte>, length: nat)
    ensures name[..if length > |name| then |name| else length] == if length <= |name| then name[..length] else name
  {
  }

  lemma NothingNew(nodes: seq<Node>, dir: seq<byte>, i: nat, j: nat)
    requires j <= |nodes| && forall k :: i <= k < j ==> !Shows(Metas(nodes), dir, k)
    ensures NoNewName(nodes, dir, i, j)
  {
    forall k, name | i <= k < j
      ensures !NewName(nodes, dir, k, name)
    {
      ShowsIff(nodes, dir, k, name);
    }
  }

  // ---------------------------------------------------------------------
  // Open and close
  // ---------------------------------------------------------------------

  /** What an open does to the nodes: a new empty writable file, or a file cut to
      nothing, or nothing at all. */
  ghost predicate NodesFor(s: Vfs, t: Target, s': Vfs) {
    match t
    case NewFile(p) => s'.nodes == s.nodes + [Node(p, [], 0, false, true)]
    case TheFile(id, true) => id < |s.nodes| && OtherNodes(s, s', id) && s'.nodes[id] == s.nodes[id].(length := 0)
    case _ => s'.nodes == s.nodes
  }

  /** The descriptor for it, at the start. */
  function DescFor(t: Target, n: nat): (r: Desc)
    requires !t.Nothing?
  {
    match t
    case TheDirectory(p) => OnDirectory(p, 0)
    case TheFile(id, _) => OnFile(id, 0)
    case NewFile(_) => OnFile(n, 0)
  }

  /** d is the lowest closed descriptor. */
  ghost predicate LowestClosed(descs: seq<Desc>, d: int) {
    1 <= d <= |descs| && descs[d - 1].Closed? && forall i :: 0 <= i < d - 1 ==> !descs[i].Closed?
  }

  ghost predicate AllOpen(descs: seq<Desc>) { forall i :: 0 <= i < |descs| ==> !descs[i].Closed? }

  ghost predicate OpenedOut(s: Vfs, t: Target, s': Vfs, d: int) {
    && NodesFor(s, t, s')
    && if t.Nothing? || AllOpen(s.descs) then s'.descs == s.descs && d == 0
       else LowestClosed(s.descs, d) && s'.descs == s.descs[d - 1 := DescFor(t, |s.nodes|)]
  }

  lemma AllocDoes(descs: seq<Desc>, what: Desc)
    ensures var (descs', d) := AllocDesc(descs, what);
            if AllOpen(descs) then descs' == descs && d == 0
            else LowestClosed(descs, d) && descs' == descs[d - 1 := what]
  {
    var d := D.FirstClosed(Opens(descs), 1);
    assert d == 0 ==> forall i :: 0 <= i < |descs| ==> Opens(descs)[i];
    assert d != 0 ==> !Opens(descs)[d - 1] && forall i :: 0 <= i < d - 1 ==> Opens(descs)[i];
  }

  /** An open panics exactly when it is to create a file in a full table. */
  lemma OpenDoes(s: Vfs, path: seq<byte>, flags: int)
    ensures var t, r := OpenTarget(Metas(s.nodes), path, flags), Open(s, path, flags);
            && Designates(Metas(s.nodes), path, flags, t)
            && (r.Panic? <==> t.NewFile? && |s.nodes| >= 32)
            && (r.Ok? ==> OpenedOut(s, t, r.value.0, r.value.1))
  {
    var t := OpenTarget(Metas(s.nodes), path, flags);
    OpenDesignates(Metas(s.nodes), path, flags);
    if !t.Nothing? {
      AllocDoes(s.descs, DescFor(t, |s.nodes|));
    }
  }

  /** A close of an open descriptor closes that one. */
  lemma CloseDoes(s: Vfs, d: nat)
    requires Open1(s, d)
    ensures var (s', r) := Close(s, d);
            r == 0 && s'.nodes == s.nodes && OtherDescs(s, s', d) && s'.descs[d - 1].Closed?
  {
  }
}
