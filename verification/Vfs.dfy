/**
 The file system as a state machine on values: the node table, the descriptors,
 and open, close, read, write and readdir on them.
 */
module Vfs {
  import opened Base
  import opened Bytes
  import opened Paths
  import opened Initramfs
  import Descriptors

  const MAX_DESCRIPTORS: nat := 32

  datatype Desc =
    | Closed
    | ConsoleIn
    | ConsoleOut
    | OnFile(node: nat, offset: nat)
    | OnDirectory(path: seq<byte>, offset: nat)

  /** `spent[i]` is the number of buffer bytes ever allocated for node i after boot. */
  datatype Vfs = Vfs(nodes: seq<Node>, descs: seq<Desc>, spent: seq<nat>)

  /** What the path operations look at: a node's name and flags. */
  datatype Meta = Meta(name: seq<byte>, directory: bool, writable: bool)

  function MetaOf(n: Node): (r: Meta) { Meta(n.name, n.directory, n.writable) }

  function Metas(nodes: seq<Node>): (r: seq<Meta>)
    ensures |r| == |nodes| && forall i :: 0 <= i < |nodes| ==> r[i] == MetaOf(nodes[i])
  {
    seq(|nodes|, i requires 0 <= i < |nodes| => MetaOf(nodes[i]))
  }

  // ---------------------------------------------------------------------
  // Paths in the table
  // ---------------------------------------------------------------------

  /** vfs_lookup_path from node i: the first node of that name. */
  function LookupFrom(metas: seq<Meta>, path: seq<byte>, i: nat): (r: Option<nat>)
    ensures r.Some? ==> i <= r.value < |metas| && metas[r.value].name == path
    ensures r.Some? ==> forall k :: i <= k < r.value ==> metas[k].name != path
    ensures r.None? <==> forall k :: i <= k < |metas| ==> metas[k].name != path
    decreases |metas| - i
  {
    if i >= |metas| then None
    else if metas[i].name == path then Some(i)
    else LookupFrom(metas, path, i + 1)
  }

  function Lookup(metas: seq<Meta>, path: seq<byte>): (r: Option<nat>)
    ensures r.Some? ==> r.value < |metas| && metas[r.value].name == path
    ensures r.Some? ==> forall k :: 0 <= k < r.value ==> metas[k].name != path
    ensures r.None? <==> forall k :: 0 <= k < |metas| ==> metas[k].name != path
  {
    LookupFrom(metas, path, 0)
  }

  /** vfs_node_matches_directory */
  predicate Matches(name: seq<byte>, dir: seq<byte>) {
    if |dir| == 1 then |name| > 1 && name[0] == SLASH
    else |name| > |dir| && name[..|dir|] == dir && name[|dir|] == SLASH
  }

  /** vfs_directory_exists */
  predicate DirectoryExists(metas: seq<Meta>, dir: seq<byte>) {
    || dir == [SLASH]
    || exists i :: 0 <= i < |metas| && ((metas[i].directory && metas[i].name == dir) || Matches(metas[i].name, dir))
  }

  /** The position of the last slash after position 0, or 0. */
  function LastSlash(path: seq<byte>, i: nat): (r: nat)
    requires i < |path|
    ensures r <= i
  {
    if i > 0 && path[i] != SLASH then LastSlash(path, i - 1) else i
  }

  /** vfs_path_parent */
  function Parent(path: seq<byte>): (r: Option<seq<byte>>) {
    if |path| <= 1 then None
    else
      var i := LastSlash(path, |path| - 1);
      Some(if i == 0 then [SLASH] else path[..i])
  }

  /** Whether vfs_create_tmpfs_file gets as far as reserving a node. */
  predicate MayCreate(metas: seq<Meta>, path: seq<byte>) {
    match Parent(path)
    case None => false
    case Some(parent) =>
      match Lookup(metas, parent)
      case None => false
      case Some(id) => metas[id].directory && metas[id].writable
  }

  datatype Target =
    | Nothing
    | TheDirectory(path: seq<byte>)
    | TheFile(node: nat, truncate: bool)
    | NewFile(path: seq<byte>)

  /** What vfs_open_path decides to open. */
  function OpenTarget(metas: seq<Meta>, path: seq<byte>, flags: int): (r: Target)
    ensures r.TheFile? ==> r.node < |metas| && !metas[r.node].directory && (r.truncate ==> metas[r.node].writable)
    ensures r.NewFile? ==> Lookup(metas, r.path).None?
  {
    if flags < 0 || flags > 3 then Nothing
    else match Normalize(path)
      case None => Nothing
      case Some(p) =>
        if p == [SLASH] then TheDirectory(p)
        else match Lookup(metas, p)
          case None =>
            if flags % 2 == 1 && MayCreate(metas, p) then NewFile(p)
            else if DirectoryExists(metas, p) then TheDirectory(p)
            else Nothing
          case Some(id) =>
            if metas[id].directory then TheDirectory(p)
            else TheFile(id, flags / 2 == 1 && metas[id].writable)
  }

  // ---------------------------------------------------------------------
  // Descriptors
  // ---------------------------------------------------------------------

  /** Which descriptors are open. */
  function Opens(descs: seq<Desc>): (r: seq<bool>)
    ensures |r| == |descs| && forall i :: 0 <= i < |descs| ==> r[i] == !descs[i].Closed?
  {
    seq(|descs|, i requires 0 <= i < |descs| => !descs[i].Closed?)
  }

  /** vfs_alloc_descriptor: the first closed descriptor, counted from 1; 0 if there is none. */
  function AllocDesc(descs: seq<Desc>, what: Desc): (r: (seq<Desc>, nat)) {
    var d := Descriptors.FirstClosed(Opens(descs), 1);
    if d == 0 then (descs, 0) else (descs[d - 1 := what], d)
  }

  // ---------------------------------------------------------------------
  // Operations. The number is the result the system call returns.
  // ---------------------------------------------------------------------

  function Truncated(s: Vfs, id: nat): (r: Vfs)
    requires id < |s.nodes|
  {
    s.(nodes := s.nodes[id := s.nodes[id].(length := 0)])
  }

  function Created(s: Vfs, path: seq<byte>): (r: Vfs) {
    s.(nodes := s.nodes + [Node(path, [], 0, false, true)], spent := s.spent + [0])
  }

  function WithDesc(s: Vfs, what: Desc): (r: (Vfs, int)) {
    var (descs, d) := AllocDesc(s.descs, what);
    (s.(descs := descs), d)
  }

  /** vfs_open_path */
  function Open(s: Vfs, path: seq<byte>, flags: int): (r: Outcome<(Vfs, int)>) {
    match OpenTarget(Metas(s.nodes), path, flags)
    case Nothing => Ok((s, 0))
    case TheDirectory(p) => Ok(WithDesc(s, OnDirectory(p, 0)))
    case TheFile(id, truncate) => Ok(WithDesc(if truncate then Truncated(s, id) else s, OnFile(id, 0)))
    case NewFile(p) =>
      if |s.nodes| >= MAX_NODES then Panic(NodesFull)
      else Ok(WithDesc(Created(s, p), OnFile(|s.nodes|, 0)))
  }

  /** The descriptor numbered d. Numbers that name no descriptor are refused by the callers. */
  function DescAt(s: Vfs, d: int): (r: Desc) {
    if 1 <= d <= |s.descs| then s.descs[d - 1] else Closed
  }

  function SetOffset(s: Vfs, d: int, offset: nat): (r: Vfs) {
    if !(1 <= d <= |s.descs|) then s
    else s.(descs := s.descs[d - 1 := match s.descs[d - 1]
                                      case OnFile(node, _) => OnFile(node, offset)
                                      case OnDirectory(path, _) => OnDirectory(path, offset)
                                      case other => other])
  }

  /** vfs_close_descriptor */
  function Close(s: Vfs, d: int): (r: (Vfs, int)) {
    if DescAt(s, d).Closed? then (s, -1) else (s.(descs := s.descs[d - 1 := Closed]), 0)
  }

  /** The capacity a buffer grows to. */
  function Grown(capacity: nat, least: nat): (r: nat)
    ensures r >= least && r >= capacity
    ensures least > capacity ==> r >= 2 * capacity
    ensures least <= capacity ==> r == capacity
  {
    if least <= capacity then capacity
    else
      var m := if least < 64 then 64 else least;
      if capacity != 0 && m < capacity * 2 then capacity * 2 else m
  }

  /** vfs_grow_node_data: the new buffer starts with the old data; the rest of
      it is whatever the allocator left there. */
  function GrownBuffer(n: Node, least: nat, junk: nat -> byte): (r: seq<byte>)
    requires n.length <= |n.buffer|
    ensures |r| == Grown(|n.buffer|, least)
  {
    if least <= |n.buffer| then n.buffer
    else n.buffer[..n.length] + seq(Grown(|n.buffer|, least) - n.length, i requires i >= 0 => junk(i))
  }

  function WrittenNode(n: Node, offset: nat, data: seq<byte>, junk: nat -> byte): (r: Node)
    requires n.length <= |n.buffer|
  {
    var end := offset + |data|;
    var length := if end > n.length then end else n.length;
    n.(buffer := Overwritten(GrownBuffer(n, end, junk), offset, data), length := length)
  }

  predicate NodesOk(s: Vfs) {
    && |s.spent| == |s.nodes|
    && (forall i :: 0 <= i < |s.nodes| ==> s.nodes[i].length <= |s.nodes[i].buffer|)
    && (forall k :: 0 <= k < |s.descs| && s.descs[k].OnFile? ==> s.descs[k].node < |s.nodes|)
  }

  /** The node written, and what its buffer cost. */
  function WrittenAt(s: Vfs, id: nat, offset: nat, data: seq<byte>, junk: nat -> byte): (r: Vfs)
    requires NodesOk(s) && id < |s.nodes|
  {
    var n, n' := s.nodes[id], WrittenNode(s.nodes[id], offset, data, junk);
    var more := if |n'.buffer| > |n.buffer| then |n'.buffer| else 0;
    s.(nodes := s.nodes[id := n'], spent := s.spent[id := s.spent[id] + more])
  }

  /** vfs_write_descriptor; the console takes everything. */
  function Write(s: Vfs, d: int, data: seq<byte>, junk: nat -> byte): (r: (Vfs, int))
    requires NodesOk(s)
  {
    match DescAt(s, d)
    case ConsoleOut => (s, |data|)
    case OnFile(id, offset) =>
      var n := s.nodes[id];
      if !n.writable || offset + |data| >= TWO63 then (s, -1)
      else (SetOffset(WrittenAt(s, id, offset, data, junk), d, offset + |data|), |data|)
    case _ => (s, -1)
  }

  /** What vfs_read_descriptor copies out of a file. */
  function ReadBytes(n: Node, offset: nat, length: nat): (r: seq<byte>)
    requires n.length <= |n.buffer|
  {
    if offset >= n.length then []
    else n.buffer[offset..if length > n.length - offset then n.length else offset + length]
  }

  /** vfs_read_descriptor; a console yields `typed`. */
  function Read(s: Vfs, d: int, length: int, typed: seq<byte>): (r: (Vfs, Option<seq<byte>>))
    requires NodesOk(s)
  {
    if length < 0 then (s, None)
    else match DescAt(s, d)
      case ConsoleIn => (s, Some(typed))
      case OnFile(id, offset) =>
        var bytes := ReadBytes(s.nodes[id], offset, length);
        (SetOffset(s, d, offset + |bytes|), Some(bytes))
      case _ => (s, None)
  }

  // ---------------------------------------------------------------------
  // Directories
  // ---------------------------------------------------------------------

  /** vfs_directory_child_component; empty if the node is not below the directory. */
  function Child(name: seq<byte>, dir: seq<byte>): (r: seq<byte>) {
    if !Matches(name, dir) then []
    else
      var rest := name[if |dir| == 1 then 1 else |dir| + 1..];
      rest[..RunLength(rest)]
  }

  /** vfs_directory_child_seen_before */
  predicate SeenBefore(metas: seq<Meta>, dir: seq<byte>, n: nat, child: seq<byte>)
    requires n <= |metas|
  {
    exists k :: 0 <= k < n && Child(metas[k].name, dir) == child && child != []
  }

  /** Node i is the first below the directory with its component. */
  predicate Shows(metas: seq<Meta>, dir: seq<byte>, i: nat)
    requires i < |metas|
  {
    Child(metas[i].name, dir) != [] && !SeenBefore(metas, dir, i, Child(metas[i].name, dir))
  }

  /** The first node from i on that shows, or the end of the table. */
  function NextShown(metas: seq<Meta>, dir: seq<byte>, i: nat): (r: nat)
    ensures i <= |metas| ==> i <= r <= |metas|
    ensures i > |metas| ==> r == i
    decreases |metas| - i
  {
    if i >= |metas| then i else if Shows(metas, dir, i) then i else NextShown(metas, dir, i + 1)
  }

  /** vfs_readdir_descriptor */
  function ReadDir(s: Vfs, d: int, length: int): (r: (Vfs, Option<seq<byte>>)) {
    if length < 0 then (s, None)
    else match DescAt(s, d)
      case OnDirectory(dir, offset) =>
        var metas := Metas(s.nodes);
        var i := NextShown(metas, dir, offset);
        if i >= |metas| then (s, Some([]))
        else
          var child := Child(metas[i].name, dir);
          (SetOffset(s, d, i + 1), Some(child[..if length > |child| then |child| else length]))
      case _ => (s, None)
  }

  /** vfs_directory_child_count over the first n nodes. */
  function ChildCount(metas: seq<Meta>, dir: seq<byte>, n: nat): (r: nat)
    requires n <= |metas|
  {
    if n == 0 then 0 else ChildCount(metas, dir, n - 1) + if Shows(metas, dir, n - 1) then 1 else 0
  }

  // ---------------------------------------------------------------------
  // Steps
  // ---------------------------------------------------------------------

  datatype Step =
    | OpenStep(path: seq<byte>, flags: int)
    | CloseStep(d: int)
    | WriteStep(d: int, data: seq<byte>, junk: nat -> byte)
    | ReadStep(d: int, length: int, typed: seq<byte>)
    | ReadDirStep(d: int, length: int)
    | ConsoleStep(input: bool)

  function Next(s: Vfs, step: Step): (r: Outcome<Vfs>)
    requires NodesOk(s)
  {
    match step
    case OpenStep(path, flags) => (var (s', _) :- Open(s, path, flags); Ok(s'))
    case CloseStep(d) => Ok(Close(s, d).0)
    case WriteStep(d, data, junk) => Ok(Write(s, d, data, junk).0)
    case ReadStep(d, length, typed) => Ok(Read(s, d, length, typed).0)
    case ReadDirStep(d, length) => Ok(ReadDir(s, d, length).0)
    case ConsoleStep(input) => Ok(WithDesc(s, if input then ConsoleIn else ConsoleOut).0)
  }
}
