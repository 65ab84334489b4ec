/**
 The file system as the kernel runs it: path comparisons, lookups and copies as
 loops, and the node and descriptor tables updated in place.
 */
module FileSystem {
  import opened Base
  import opened Bytes
  import opened Paths
  import opened Normalizer
  import opened Initramfs
  import opened Vfs
  import Descriptors
  import Names

  /** vfs_path_equals */
  method PathEquals(name: seq<byte>, path: seq<byte>) returns (r: bool)
    ensures r == (name == path)
  {
    if |name| != |path| {
      return false;
    }
    var i := 0;
    while i < |name|
      invariant 0 <= i <= |name| && name[..i] == path[..i]
    {
      if name[i] != path[i] {
        return false;
      }
      i := i + 1;
    }
    assert name[..i] == name && path[..i] == path;
    return true;
  }

  /** vfs_path_has_prefix */
  method HasPrefix(name: seq<byte>, prefix: seq<byte>) returns (r: bool)
    ensures r == (|prefix| <= |name| && name[..|prefix|] == prefix)
  {
    if |prefix| > |name| {
      return false;
    }
    var i := 0;
    while i < |prefix|
      invariant 0 <= i <= |prefix| && name[..i] == prefix[..i]
    {
      if name[i] != prefix[i] {
        assert name[..|prefix|][i] != prefix[i];
        return false;
      }
      i := i + 1;
    }
    assert prefix[..i] == prefix;
    return true;
  }

  method MatchesDirectory(name: seq<byte>, dir: seq<byte>) returns (r: bool)
    ensures r == Matches(name, dir)
    ensures r <==> Names.Prefix(dir) <= name && (|dir| == 1 ==> |name| > 1)
  {
    Names.MatchesIff(name, dir);
    if |dir| == 1 {
      return |name| > 1 && name[0] == SLASH;
    }
    if |name| <= |dir| {
      return false;
    }
    r := HasPrefix(name, dir);
    return r && name[|dir|] == SLASH;
  }

  /** vfs_path_parent */
  method ParentOf(path: seq<byte>) returns (r: Option<seq<byte>>)
    ensures r == Parent(path)
  {
    if |path| <= 1 {
      return None;
    }
    var i := |path| - 1;
    while i > 0 && path[i] != SLASH
      invariant 0 <= i < |path| && LastSlash(path, i) == LastSlash(path, |path| - 1)
    {
      i := i - 1;
    }
    if i == 0 {
      return Some([SLASH]);
    }
    var parent := CopyBytes(path, 0, i);
    return Some(parent);
  }

  lemma {:induction false} RunLengthIs(s: seq<byte>, n: nat)
    requires n <= |s| && (forall k :: 0 <= k < n ==> s[k] != SLASH) && (n < |s| ==> s[n] == SLASH)
    ensures RunLength(s) == n
  {
    if n > 0 {
      RunLengthIs(s[1..], n - 1);
    }
  }

  /** vfs_directory_child_component */
  method ChildComponent(name: seq<byte>, dir: seq<byte>) returns (r: seq<byte>)
    ensures r == Child(name, dir)
    ensures Names.ShowsAs(name, dir, r)
  {
    Names.ChildShows(name, dir);
    var below := MatchesDirectory(name, dir);
    if !below {
      return [];
    }
    var start := if |dir| == 1 then 1 else |dir| + 1;
    var end := start;
    while end < |name| && name[end] != SLASH
      invariant start <= end <= |name|
      invariant forall k :: start <= k < end ==> name[k] != SLASH
    {
      end := end + 1;
    }
    ghost var rest := name[start..];
    RunLengthIs(rest, end - start);
    assert rest[..end - start] == name[start..end];
    return name[start..end];
  }

  class Store {
    var nodes: seq<Node>
    var descs: seq<Desc>
    ghost var spent: seq<nat>

    ghost function State(): (s: Vfs)
      reads this
    {
      Vfs(nodes, descs, spent)
    }

    /** vfs_lookup_path */
    method LookupPath(path: seq<byte>) returns (r: Option<nat>)
      ensures r == Lookup(Metas(nodes), path)
    {
      ghost var metas := Metas(nodes);
      var i := 0;
      while i < |nodes|
        invariant 0 <= i <= |nodes| && LookupFrom(metas, path, i) == Lookup(metas, path)
      {
        var same := PathEquals(nodes[i].name, path);
        if same {
          return Some(i);
        }
        i := i + 1;
      }
      return None;
    }

    /** vfs_directory_exists */
    method DirectoryIsThere(dir: seq<byte>) returns (r: bool)
      ensures r == DirectoryExists(Metas(nodes), dir)
    {
      if |dir| == 1 && dir[0] == SLASH {
        return true;
      }
      ghost var metas := Metas(nodes);
      var i := 0;
      while i < |nodes|
        invariant 0 <= i <= |nodes|
        invariant forall k :: 0 <= k < i ==>
                  !(metas[k].directory && metas[k].name == dir) && !Matches(metas[k].name, dir)
      {
        if nodes[i].directory {
          var same := PathEquals(nodes[i].name, dir);
          if same {
            assert metas[i].directory;
            return true;
          }
        }
        var below := MatchesDirectory(nodes[i].name, dir);
        if below {
          assert Matches(metas[i].name, dir);
          return true;
        }
        i := i + 1;
      }
      return false;
    }

    /** vfs_directory_child_seen_before */
    method SeenEarlier(dir: seq<byte>, n: nat, child: seq<byte>) returns (r: bool)
      requires n <= |nodes| && child != []
      ensures r == SeenBefore(Metas(nodes), dir, n, child)
    {
      ghost var metas := Metas(nodes);
      var scan := 0;
      while scan < n
        invariant 0 <= scan <= n
        invariant forall k :: 0 <= k < scan ==> Child(metas[k].name, dir) != child
      {
        var other := ChildComponent(nodes[scan].name, dir);
        if |other| == |child| && |other| != 0 {
          var same := PathEquals(other, child);
          if same {
            assert Child(metas[scan].name, dir) == child;
            return true;
          }
        }
        assert other != child;
        scan := scan + 1;
      }
      return false;
    }

    /** Whether node i shows its component in a listing, and the component. */
    method ShownChild(dir: seq<byte>, i: nat) returns (shown: bool, child: seq<byte>)
      requires i < |nodes|
      ensures shown == Shows(Metas(nodes), dir, i) && child == Child(nodes[i].name, dir)
    {
      child := ChildComponent(nodes[i].name, dir);
      if |child| == 0 {
        return false, child;
      }
      var seen := SeenEarlier(dir, i, child);
      return !seen, child;
    }

    /** vfs_directory_child_count */
    method CountChildren(dir: seq<byte>) returns (count: nat)
      ensures count == ChildCount(Metas(nodes), dir, |nodes|)
    {
      count := 0;
      var i := 0;
      while i < |nodes|
        invariant 0 <= i <= |nodes| && count == ChildCount(Metas(nodes), dir, i)
      {
        var shown, _ := ShownChild(dir, i);
        if shown {
          count := count + 1;
        }
        i := i + 1;
      }
    }

    /** vfs_alloc_descriptor */
    method AllocDescriptor(what: Desc) returns (d: nat)
      modifies this`descs
      ensures (State(), d as int) == WithDesc(old(State()), what)
    {
      d := 1;
      while d <= |descs|
        invariant 1 <= d <= |descs| + 1 && descs == old(descs)
        invariant Descriptors.FirstClosed(Opens(descs), d) == Descriptors.FirstClosed(Opens(descs), 1)
      {
        if descs[d - 1].Closed? {
          descs := descs[d - 1 := what];
          return;
        }
        d := d + 1;
      }
      d := 0;
    }

    /** vfs_create_tmpfs_file, -1 as None */
    method CreateFile(path: seq<byte>) returns (r: Outcome<Option<nat>>)
      modifies this`nodes, this`spent
      ensures r.Panic? <==> MayCreate(Metas(old(nodes)), path) && |old(nodes)| >= MAX_NODES
      ensures r.Panic? ==> r.fault == NodesFull
      ensures r.Ok? ==> r.value == (if MayCreate(Metas(old(nodes)), path) then Some(|old(nodes)|) else None)
      ensures State() == if r.Ok? && r.value.Some? then Created(old(State()), path) else old(State())
    {
      var parent := ParentOf(path);
      if parent.None? {
        return Ok(None);
      }
      var id := LookupPath(parent.value);
      if id.None? {
        return Ok(None);
      }
      if !nodes[id.value].directory || !nodes[id.value].writable {
        return Ok(None);
      }
      if |nodes| >= MAX_NODES {
        return Panic(NodesFull);
      }
      nodes := nodes + [Node(path, [], 0, false, true)];
      spent := spent + [0];
      return Ok(Some(|nodes| - 1));
    }

    /** vfs_grow_node_data */
    method GrowNode(id: nat, least: nat, junk: nat -> byte)
      requires id < |nodes| == |spent| && nodes[id].length <= |nodes[id].buffer|
      modifies this`nodes, this`spent
      ensures nodes == old(nodes)[id := old(nodes)[id].(buffer := GrownBuffer(old(nodes)[id], least, junk))]
      ensures var more := if least > |old(nodes)[id].buffer| then |nodes[id].buffer| else 0;
              spent == old(spent)[id := old(spent)[id] + more]
    {
      var n := nodes[id];
      if least <= |n.buffer| {
        assert nodes == nodes[id := n.(buffer := n.buffer)] && spent == spent[id := spent[id] + 0];
        return;
      }
      var capacity := if least < 64 then 64 else least;
      if |n.buffer| != 0 && capacity < |n.buffer| * 2 {
        capacity := |n.buffer| * 2;
      }
      ghost var target := GrownBuffer(n, least, junk);
      var grown := seq(capacity, i requires i >= 0 => if i < n.length then 0 else junk(i - n.length));
      var copied := 0;
      while copied < n.length
        invariant 0 <= copied <= n.length && |grown| == capacity == |target|
        invariant forall k :: 0 <= k < capacity && !(copied <= k < n.length) ==> grown[k] == target[k]
      {
        grown := grown[copied := n.buffer[copied]];
        copied := copied + 1;
      }
      assert grown == target;
      nodes := nodes[id := n.(buffer := grown)];
      spent := spent[id := spent[id] + capacity];
    }

    /** vfs_open_path */
    method OpenPath(path: seq<byte>, flags: int) returns (r: Outcome<int>)
      modifies this
      ensures r.Panic? ==> Open(old(State()), path, flags) == Panic(r.fault) && State() == old(State())
      ensures r.Ok? ==> Open(old(State()), path, flags) == Ok((State(), r.value))
    {
      if flags < 0 || flags > 3 {
        return Ok(0);
      }
      var out, len := NormalizePath(path);
      if out.None? {
        return Ok(0);
      }
      var p := out.value[..len];
      if p == [SLASH] {
        var d := AllocDescriptor(OnDirectory(p, 0));
        return Ok(d);
      }
      var id := LookupPath(p);
      if id.None? {
        r := OpenMissing(p, flags);
      } else {
        r := OpenNode(p, id.value, flags);
      }
    }

    /** The path names no node. */
    method OpenMissing(p: seq<byte>, flags: int) returns (r: Outcome<int>)
      requires 0 <= flags <= 3
      modifies this
      ensures r == if flags % 2 == 1 && MayCreate(Metas(old(nodes)), p) then
                     if |old(nodes)| >= MAX_NODES then Panic(NodesFull)
                     else Ok(WithDesc(Created(old(State()), p), OnFile(|old(nodes)|, 0)).1)
                   else if DirectoryExists(Metas(old(nodes)), p) then Ok(WithDesc(old(State()), OnDirectory(p, 0)).1)
                   else Ok(0)
      ensures State() == if flags % 2 == 1 && MayCreate(Metas(old(nodes)), p) then
                           if |old(nodes)| >= MAX_NODES then old(State())
                           else WithDesc(Created(old(State()), p), OnFile(|old(nodes)|, 0)).0
                         else if DirectoryExists(Metas(old(nodes)), p) then WithDesc(old(State()), OnDirectory(p, 0)).0
                         else old(State())
    {
      if flags % 2 == 1 {
        var created :- CreateFile(p);
        if created.Some? {
          var d := AllocDescriptor(OnFile(created.value, 0));
          return Ok(d);
        }
      }
      var there := DirectoryIsThere(p);
      if there {
        var d := AllocDescriptor(OnDirectory(p, 0));
        return Ok(d);
      }
      return Ok(0);
    }

    /** The path names node id. */
    method OpenNode(p: seq<byte>, id: nat, flags: int) returns (r: Outcome<int>)
      requires 0 <= flags <= 3 && id < |nodes|
      modifies this
      ensures var s := old(State());
              var emptied := if flags / 2 == 1 && s.nodes[id].writable then Truncated(s, id) else s;
              var (s', d) := if s.nodes[id].directory then WithDesc(s, OnDirectory(p, 0))
                             else WithDesc(emptied, OnFile(id, 0));
              State() == s' && r == Ok(d)
    {
      if nodes[id].directory {
        var d := AllocDescriptor(OnDirectory(p, 0));
        return Ok(d);
      }
      if flags / 2 == 1 && nodes[id].writable {
        nodes := nodes[id := nodes[id].(length := 0)];
      }
      var d := AllocDescriptor(OnFile(id, 0));
      return Ok(d);
    }

    /** vfs_close_descriptor */
    method CloseDescriptor(d: int) returns (r: int)
      requires d <= |descs|
      modifies this`descs
      ensures (State(), r) == Close(old(State()), d)
    {
      if d <= 0 {
        return -1;
      }
      if descs[d - 1].Closed? {
        return -1;
      }
      descs := descs[d - 1 := Closed];
      return 0;
    }

    /** The bytes go into the buffer one by one. */
    method StoreBytes(id: nat, offset: nat, data: seq<byte>)
      requires id < |nodes| && offset + |data| <= |nodes[id].buffer|
      modifies this`nodes
      ensures nodes == old(nodes)[id := old(nodes)[id].(buffer := Overwritten(old(nodes)[id].buffer, offset, data))]
    {
      var n := nodes[id];
      var buffer := n.buffer;
      var copied := 0;
      while copied < |data|
        invariant 0 <= copied <= |data| && |buffer| == |n.buffer|
        invariant forall k :: 0 <= k < |buffer| ==>
                    buffer[k] == if offset <= k < offset + copied then data[k - offset] else n.buffer[k]
      {
        buffer := buffer[offset + copied := data[copied]];
        copied := copied + 1;
      }
      assert buffer == Overwritten(n.buffer, offset, data);
      nodes := nodes[id := n.(buffer := buffer)];
    }

    /** vfs_write_descriptor */
    method WriteDescriptor(d: int, data: seq<byte>, junk: nat -> byte) returns (r: int)
      requires NodesOk(State()) && d <= |descs|
      modifies this
      ensures (State(), r) == Write(old(State()), d, data, junk)
    {
      if d <= 0 {
        return -1;
      }
      if descs[d - 1].ConsoleOut? {
        return |data|;
      }
      if !descs[d - 1].OnFile? {
        return -1;
      }
      var id, offset := descs[d - 1].node, descs[d - 1].offset;
      if !nodes[id].writable {
        return -1;
      }
      if offset + |data| >= TWO63 {
        return -1;
      }
      WriteNode(id, offset, data, junk);
      descs := descs[d - 1 := OnFile(id, offset + |data|)];
      return |data|;
    }

    method WriteNode(id: nat, offset: nat, data: seq<byte>, junk: nat -> byte)
      requires id < |nodes| == |spent| && nodes[id].length <= |nodes[id].buffer|
      modifies this`nodes, this`spent
      ensures var n := old(nodes)[id];
              var n' := WrittenNode(n, offset, data, junk);
              && nodes == old(nodes)[id := n']
              && spent == old(spent)[id := old(spent)[id] + if |n'.buffer| > |n.buffer| then |n'.buffer| else 0]
    {
      GrowNode(id, offset + |data|, junk);
      StoreBytes(id, offset, data);
      if offset + |data| > nodes[id].length {
        nodes := nodes[id := nodes[id].(length := offset + |data|)];
      }
    }

    /** vfs_read_descriptor, -1 as None; `typed` is what a console yields. */
    method ReadDescriptor(d: int, length: int, typed: seq<byte>) returns (r: Option<seq<byte>>)
      requires NodesOk(State()) && d <= |descs|
      modifies this`descs
      ensures (State(), r) == Read(old(State()), d, length, typed)
    {
      if d <= 0 || length < 0 {
        return None;
      }
      if descs[d - 1].ConsoleIn? {
        return Some(typed);
      }
      if !descs[d - 1].OnFile? {
        return None;
      }
      var id, offset := descs[d - 1].node, descs[d - 1].offset;
      var n := nodes[id];
      var remaining := n.length - offset;
      if remaining <= 0 {
        assert descs == descs[d - 1 := OnFile(id, offset)];
        return Some([]);
      }
      var bytes := CopyBytes(n.buffer, offset, if length > remaining then remaining else length);
      descs := descs[d - 1 := OnFile(id, offset + |bytes|)];
      return Some(bytes);
    }

    /** vfs_readdir_descriptor, -1 as None */
    method ReadDirDescriptor(d: int, length: int) returns (r: Option<seq<byte>>)
      requires d <= |descs|
      modifies this`descs
      ensures (State(), r) == ReadDir(old(State()), d, length)
    {
      if d <= 0 || length < 0 {
        return None;
      }
      if !descs[d - 1].OnDirectory? {
        return None;
      }
      var dir, offset := descs[d - 1].path, descs[d - 1].offset;
      var i, child := FindShown(dir, offset);
      if i >= |nodes| {
        return Some([]);
      }
      var n := if length > |child| then |child| else length;
      var name := CopyBytes(child, 0, n);
      assert name == child[..n];
      descs := descs[d - 1 := OnDirectory(dir, i + 1)];
      assert State() == SetOffset(old(State()), d, i + 1);
      return Some(name);
    }

    /** The scan of vfs_readdir_descriptor: the first node from `offset` on that shows, and its component. */
    method FindShown(dir: seq<byte>, offset: nat) returns (i: nat, child: seq<byte>)
      ensures i == NextShown(Metas(nodes), dir, offset)
      ensures i < |nodes| ==> child == Child(nodes[i].name, dir)
    {
      i, child := offset, [];
      while i < |nodes|
        invariant offset <= i && NextShown(Metas(nodes), dir, i) == NextShown(Metas(nodes), dir, offset)
      {
        var shown: bool;
        shown, child := ShownChild(dir, i);
        if shown {
          return;
        }
        i := i + 1;
      }
    }

    /** vfs_stat_descriptor on a directory or a file: its kind and its size, or None for -1. */
    method StatDescriptor(d: int) returns (r: Option<(bool, nat)>)
      requires NodesOk(State()) && d <= |descs|
      ensures r == match DescAt(State(), d)
                   case OnDirectory(dir, _) => Some((true, ChildCount(Metas(nodes), dir, |nodes|)))
                   case OnFile(id, _) => Some((nodes[id].directory, nodes[id].length))
                   case _ => None
    {
      if d <= 0 {
        return None;
      }
      match descs[d - 1]
      case OnDirectory(dir, _) =>
        var count := CountChildren(dir);
        return Some((true, count));
      case OnFile(id, _) =>
        return Some((nodes[id].directory, nodes[id].length));
      case _ =>
        return None;
    }
  }
}
