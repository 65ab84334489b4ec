/**
 init_vfs: reading the node table out of the initial file system image, and the
 round trip with the build script.
 */
module VfsBoot {
  import opened Base
  import opened Bytes
  import opened Initramfs
  import Elf

  /** Memory as seen from the start of the image, whose first `size` bytes are the image. */
  type Memory = int -> byte

  /** The bytes from `off` on; none for a negative length. */
  function Slice(mem: Memory, off: int, len: int): (r: seq<byte>)
    ensures |r| == if len < 0 then 0 else len
  {
    seq<byte>(if len < 0 then 0 else len, i => mem(off + i))
  }

  /** vfs_raw_qword: a signed word. */
  function RawWord(mem: Memory, at: int): (r: int) { Elf.Wrap(Decode(Slice(mem, at, 8))) }

  function ParseNode(mem: Memory, size: nat, i: nat): (r: Outcome<Node>) {
    var entry := HEADER + i * ENTRY;
    var nameAt, nameLen := RawWord(mem, entry), RawWord(mem, entry + 8);
    var dataAt, dataLen := RawWord(mem, entry + 16), RawWord(mem, entry + 24);
    if Elf.Wrap(nameAt + nameLen) > size then Panic(BadImage)
    else if Elf.Wrap(dataAt + dataLen) > size then Panic(BadImage)
    else Ok(FileNode(File(Slice(mem, nameAt, nameLen), Slice(mem, dataAt, dataLen))))
  }

  function ParseFrom(mem: Memory, size: nat, count: int, i: nat): (r: Outcome<seq<Node>>)
    decreases count - i
  {
    if i >= count then Ok([])
    else
      var node :- ParseNode(mem, size, i);
      var rest :- ParseFrom(mem, size, count, i + 1);
      Ok([node] + rest)
  }

  function Parse(mem: Memory, size: nat): (r: Outcome<seq<Node>>) {
    if size == 0 then Ok([])
    else if size < HEADER then Panic(BadImage)
    else if RawWord(mem, 0) != MAGIC || RawWord(mem, 8) != VERSION then Panic(BadImage)
    else
      var count := RawWord(mem, 16);
      if count > MAX_NODES then Panic(BadImage)
      else
        var nodes :- ParseFrom(mem, size, count, 0);
        if count < 0 then Panic(RegionAccess)
        else if |nodes| >= MAX_NODES then Panic(NodesFull)
        else Ok(nodes + [TMP])
  }

  // ---------------------------------------------------------------------
  // The loop
  // ---------------------------------------------------------------------

  function Onward(done: seq<Node>, rest: Outcome<seq<Node>>): (r: Outcome<seq<Node>>) {
    if rest.Ok? then Ok(done + rest.value) else rest
  }

  /** One node further: either it parses and joins those before it, or its panic is the result. */
  lemma OnwardStep(mem: Memory, size: nat, count: int, i: nat, done: seq<Node>, node: Outcome<Node>)
    requires i < count && node == ParseNode(mem, size, i)
    ensures node.Ok? ==>
              Onward(done, ParseFrom(mem, size, count, i))
                  == Onward(done + [node.value], ParseFrom(mem, size, count, i + 1))
    ensures node.Panic? ==> Onward(done, ParseFrom(mem, size, count, i)) == Panic(node.fault)
  {
    var rest := ParseFrom(mem, size, count, i + 1);
    if node.Ok? && rest.Ok? {
      assert done + ([node.value] + rest.value) == done + [node.value] + rest.value;
    }
  }

  lemma OnwardEnds(done: seq<Node>, rest: Outcome<seq<Node>>)
    ensures Onward([], rest) == rest && Onward(done, Ok([])) == Ok(done)
  {
    assert rest.Ok? ==> [] + rest.value == rest.value;
    assert done + [] == done;
  }

  /** vfs_copy_initramfs_slice */
  method CopySlice(mem: Memory, off: int, len: int) returns (r: seq<byte>)
    ensures r == Slice(mem, off, len)
  {
    r := [];
    var i := 0;
    while i < len
      invariant 0 <= i && (i <= len || i == 0) && |r| == i
      invariant forall k :: 0 <= k < i ==> r[k] == mem(off + k)
    {
      r := r + [mem(off + i)];
      i := i + 1;
    }
  }

  method ReadNode(mem: Memory, size: nat, i: nat) returns (r: Outcome<Node>)
    ensures r == ParseNode(mem, size, i)
  {
    var entry := HEADER + i * ENTRY;
    var nameAt, nameLen := RawWord(mem, entry), RawWord(mem, entry + 8);
    var dataAt, dataLen := RawWord(mem, entry + 16), RawWord(mem, entry + 24);
    if Elf.Wrap(nameAt + nameLen) > size {
      return Panic(BadImage);
    }
    if Elf.Wrap(dataAt + dataLen) > size {
      return Panic(BadImage);
    }
    var name := CopySlice(mem, nameAt, nameLen);
    var data := CopySlice(mem, dataAt, dataLen);
    return Ok(Node(name, data, |data|, false, false));
  }

  method ReadNodes(mem: Memory, size: nat, count: int) returns (r: Outcome<seq<Node>>)
    ensures r == ParseFrom(mem, size, count, 0)
    ensures r.Ok? ==> |r.value| == if count < 0 then 0 else count
  {
    var nodes: seq<Node> := [];
    var i := 0;
    OnwardEnds([], ParseFrom(mem, size, count, 0));
    while i < count
      invariant 0 <= i == |nodes| && (i <= count || i == 0)
      invariant ParseFrom(mem, size, count, 0) == Onward(nodes, ParseFrom(mem, size, count, i))
    {
      var node := ReadNode(mem, size, i);
      OnwardStep(mem, size, count, i, nodes, node);
      if node.Panic? {
        return Panic(node.fault);
      }
      nodes := nodes + [node.value];
      i := i + 1;
    }
    OnwardEnds(nodes, Ok([]));
    return Ok(nodes);
  }

  /** init_vfs, as far as the node table goes. */
  method InitVfs(mem: Memory, size: nat) returns (r: Outcome<seq<Node>>)
    ensures r == Parse(mem, size)
  {
    if size == 0 {
      return Ok([]);
    }
    if size < HEADER {
      return Panic(BadImage);
    }
    if RawWord(mem, 0) != MAGIC {
      return Panic(BadImage);
    }
    if RawWord(mem, 8) != VERSION {
      return Panic(BadImage);
    }
    var count := RawWord(mem, 16);
    if count > MAX_NODES {
      return Panic(BadImage);
    }
    var nodes :- ReadNodes(mem, size, count);
    if count < 0 {
      return Panic(RegionAccess);
    }
    if count >= MAX_NODES {
      return Panic(NodesFull);
    }
    return Ok(nodes + [TMP]);
  }

  // ---------------------------------------------------------------------
  // The round trip
  // ---------------------------------------------------------------------

  /** The bytes stand in memory from the start of the image on. */
  ghost predicate Shows(mem: Memory, blob: seq<byte>) {
    forall i :: 0 <= i < |blob| ==> mem(i) == blob[i]
  }

  lemma FourParts(blob: seq<byte>, at: nat, p: seq<byte>, q: seq<byte>, r: seq<byte>, s: seq<byte>)
    requires |p| == |q| == |r| == |s| == 8 && Placed(blob, at, p + q + r + s)
    ensures at + 32 <= |blob| && blob[at..at + 8] == p && blob[at + 8..at + 16] == q
    ensures blob[at + 16..at + 24] == r && blob[at + 24..at + 32] == s
  {
    assert p + q + r + s == [] + p + (q + r + s) == p + q + (r + s) == (p + q) + r + s == (p + q + r) + s + [];
    PartOf(blob, at, [], p, q + r + s);
    PartOf(blob, at, p, q, r + s);
    PartOf(blob, at, p + q, r, s);
    PartOf(blob, at, p + q + r, s, []);
  }

  lemma SliceShown(mem: Memory, blob: seq<byte>, at: nat, len: nat)
    requires Shows(mem, blob) && at + len <= |blob|
    ensures Slice(mem, at, len) == blob[at..at + len]
  {
  }

  lemma OneWord(mem: Memory, blob: seq<byte>, at: nat, x: nat)
    requires Shows(mem, blob) && at + 8 <= |blob| && blob[at..at + 8] == Encode(x, 8) && x < TWO63
    ensures RawWord(mem, at) == x
  {
    SliceShown(mem, blob, at, 8);
    Power8();
    DecodeEncode(x, 8);
  }

  lemma PackWords(mem: Memory, blob: seq<byte>, at: nat, a: nat, b: nat, c: nat, d: nat)
    requires Shows(mem, blob) && Placed(blob, at, Pack(a, b, c, d))
    requires a < TWO63 && b < TWO63 && c < TWO63 && d < TWO63
    ensures RawWord(mem, at) == a && RawWord(mem, at + 8) == b && RawWord(mem, at + 16) == c
             && RawWord(mem, at + 24) == d
  {
    FourParts(blob, at, Encode(a, 8), Encode(b, 8), Encode(c, 8), Encode(d, 8));
    OneWord(mem, blob, at, a);
    OneWord(mem, blob, at + 8, b);
    OneWord(mem, blob, at + 16, c);
    OneWord(mem, blob, at + 24, d);
  }

  lemma {:induction false} EndGrows(files: seq<File>, i: nat, j: nat)
    requires i <= j <= |files|
    ensures End(files, i) <= End(files, j)
  {
    if i < j {
      EndGrows(files, i, j - 1);
    }
  }

  lemma FileEnds(files: seq<File>, i: nat)
    requires i < |files|
    ensures NameAt(files, i) + |files[i].name| <= DataAt(files, i)
    ensures DataAt(files, i) + |files[i].data| <= End(files, |files|)
  {
    EndGrows(files, i + 1, |files|);
  }

  lemma SliceOfPlaced(mem: Memory, blob: seq<byte>, at: nat, s: seq<byte>)
    requires Shows(mem, blob) && Placed(blob, at, s)
    ensures Slice(mem, at, |s|) == s
  {
    SliceShown(mem, blob, at, |s|);
  }

  /** The words at `at` are these. */
  ghost predicate Reads(mem: Memory, at: nat, a: int, b: int, c: int, d: int) {
    RawWord(mem, at) == a && RawWord(mem, at + 8) == b && RawWord(mem, at + 16) == c && RawWord(mem, at + 24) == d
  }

  lemma RecordReads(mem: Memory, blob: seq<byte>, files: seq<File>, i: nat)
    requires Shows(mem, blob) && i < |files| && RecordPlaced(blob, files, i) && End(files, |files|) < TWO63
    ensures Reads(mem, HEADER + ENTRY * i, NameAt(files, i), |files[i].name|, DataAt(files, i), |files[i].data|)
  {
    FileEnds(files, i);
    PackWords(mem, blob, HEADER + ENTRY * i, NameAt(files, i), |files[i].name|, DataAt(files, i), |files[i].data|);
  }

  lemma NodeFrom(mem: Memory, blob: seq<byte>, size: nat, i: nat, n: nat, d: nat, f: File)
    requires Shows(mem, blob) && Reads(mem, HEADER + ENTRY * i, n, |f.name|, d, |f.data|)
             && Placed(blob, n, f.name) && Placed(blob, d, f.data)
    requires n + |f.name| <= size < TWO63 && d + |f.data| <= size
    ensures ParseNode(mem, size, i) == Ok(FileNode(f))
  {
    SliceOfPlaced(mem, blob, n, f.name);
    SliceOfPlaced(mem, blob, d, f.data);
  }

  lemma PackedNode(mem: Memory, blob: seq<byte>, files: seq<File>, i: nat)
    requires Shows(mem, blob) && i < |files| && RecordPlaced(blob, files, i) && FilePlaced(blob, files, i)
             && End(files, |files|) < TWO63
    ensures ParseNode(mem, End(files, |files|), i) == Ok(FileNode(files[i]))
  {
    RecordReads(mem, blob, files, i);
    FileEnds(files, i);
    NodeFrom(mem, blob, End(files, |files|), i, NameAt(files, i), DataAt(files, i), files[i]);
  }

  function FileNodes(files: seq<File>): (r: seq<Node>)
    ensures |r| == |files|
  {
    seq(|files|, i requires 0 <= i < |files| => FileNode(files[i]))
  }

  lemma ParseStep(mem: Memory, size: nat, count: int, i: nat, node: Node, rest: seq<Node>)
    requires i < count && ParseNode(mem, size, i) == Ok(node) && ParseFrom(mem, size, count, i + 1) == Ok(rest)
    ensures ParseFrom(mem, size, count, i) == Ok([node] + rest)
  {
  }

  lemma NodesFrom(files: seq<File>, i: nat)
    requires i <= |files|
    ensures FileNodes(files)[i..] == if i < |files| then [FileNode(files[i])] + FileNodes(files)[i + 1..] else []
  {
  }

  lemma {:induction false} PackedNodes(mem: Memory, blob: seq<byte>, head: seq<byte>, files: seq<File>,
                                       size: nat, i: nat)
    requires Shows(mem, blob) && Packs(blob, head, files) && i <= |files| && size == End(files, |files|) < TWO63
    ensures ParseFrom(mem, size, |files|, i) == Ok(FileNodes(files)[i..])
    decreases |files| - i
  {
    NodesFrom(files, i);
    if i < |files| {
      assert RecordPlaced(blob, files, i) && FilePlaced(blob, files, i);
      PackedNode(mem, blob, files, i);
      PackedNodes(mem, blob, head, files, size, i + 1);
      ParseStep(mem, size, |files|, i, FileNode(files[i]), FileNodes(files)[i + 1..]);
    }
  }

  /** The table boot starts from: each file under its name with its own bytes,
      not writable and no directory, and then the writable directory /tmp. */
  ghost predicate BootTable(nodes: seq<Node>, files: seq<File>) {
    && |nodes| == |files| + 1
    && (forall i :: 0 <= i < |files| ==>
          && nodes[i].name == files[i].name && nodes[i].buffer == files[i].data && nodes[i].length == |files[i].data|
          && !nodes[i].directory && !nodes[i].writable)
    && nodes[|files|].name == [47, 116, 109, 112] && nodes[|files|].length == 0
    && nodes[|files|].directory && nodes[|files|].writable
  }

  /** Reading back what was packed gives the files, in order, and then /tmp;
      it fails exactly when there are more than 31 files. */
  lemma ParsePacked(mem: Memory, blob: seq<byte>, head: seq<byte>, files: seq<File>, size: nat)
    requires Shows(mem, blob) && Packs(blob, head, files) && Reads(mem, 0, MAGIC, VERSION, |files|, 0)
             && size == End(files, |files|) < TWO63
    ensures Parse(mem, size) ==
              if |files| <= 31 then Ok(FileNodes(files) + [TMP])
              else if |files| == 32 then Panic(NodesFull) else Panic(BadImage)
    ensures |files| <= 31 ==> BootTable(Parse(mem, size).value, files)
  {
    PackedNodes(mem, blob, head, files, size, 0);
    assert FileNodes(files)[0..] == FileNodes(files);
    TableIs(files);
  }

  lemma TableIs(files: seq<File>)
    ensures BootTable(FileNodes(files) + [TMP], files)
  {
  }

  lemma HeadReads(mem: Memory, blob: seq<byte>, magic: nat, version: nat, n: nat)
    requires Shows(mem, blob) && Placed(blob, 0, Head(magic, version, n)) && magic < TWO63 && version < TWO63
             && n < TWO63
    ensures Reads(mem, 0, magic, version, n, 0)
  {
    PackWords(mem, blob, 0, magic, version, n, 0);
  }

  /** Parsing what build_image returns gives back its files, whatever else is in
      memory: the other requires are the contract of `BuildImage`. */
  lemma PackThenParse(mem: Memory, blob: seq<byte>, files: seq<File>)
    requires Shows(mem, blob)
    requires Packs(blob, Head(MAGIC, VERSION, |files|), files) && |blob| == End(files, |files|) < TWO63
    ensures Parse(mem, |blob|) ==
              if |files| <= 31 then Ok(FileNodes(files) + [TMP])
              else if |files| == 32 then Panic(NodesFull) else Panic(BadImage)
    ensures |files| <= 31 ==> BootTable(Parse(mem, |blob|).value, files)
  {
    HeadReads(mem, blob, MAGIC, VERSION, |files|);
    ParsePacked(mem, blob, Head(MAGIC, VERSION, |files|), files, |blob|);
  }

  // ---------------------------------------------------------------------
  // Any image
  // ---------------------------------------------------------------------

  /** The i-th record's name and data end inside the image, in wrapped sums. */
  predicate RecordFits(mem: Memory, size: nat, i: nat) {
    var at := 32 + 32 * i;
    && Elf.Wrap(RawWord(mem, at) + RawWord(mem, at + 8)) <= size
    && Elf.Wrap(RawWord(mem, at + 16) + RawWord(mem, at + 24)) <= size
  }

  /** The node is the file the i-th record describes. */
  ghost predicate FromRecord(mem: Memory, i: nat, n: Node) {
    var at := 32 + 32 * i;
    && n.name == Slice(mem, RawWord(mem, at), RawWord(mem, at + 8))
    && n.buffer == Slice(mem, RawWord(mem, at + 16), RawWord(mem, at + 24))
    && n.length == |n.buffer| && !n.directory && !n.writable
  }

  lemma ParseNodeIff(mem: Memory, size: nat, i: nat)
    ensures ParseNode(mem, size, i).Ok? <==> RecordFits(mem, size, i)
    ensures ParseNode(mem, size, i).Ok? ==> FromRecord(mem, i, ParseNode(mem, size, i).value)
  {
  }

  /** The nodes are those of the records from i on. */
  ghost predicate FromRecords(mem: Memory, i: nat, nodes: seq<Node>) {
    forall k: nat :: k < |nodes| ==> FromRecord(mem, i + k, nodes[k])
  }

  lemma FromRecordsStep(mem: Memory, i: nat, node: Node, rest: seq<Node>)
    requires FromRecord(mem, i, node) && FromRecords(mem, i + 1, rest)
    ensures FromRecords(mem, i, [node] + rest)
  {
    forall k: nat | k < |[node] + rest|
      ensures FromRecord(mem, i + k, ([node] + rest)[k])
    {
      if k > 0 {
        assert FromRecord(mem, i + 1 + (k - 1), rest[k - 1]);
      }
    }
  }

  lemma {:induction false} ParseFromIff(mem: Memory, size: nat, count: nat, i: nat)
    requires i <= count
    ensures ParseFrom(mem, size, count, i).Ok? <==> forall k: nat :: i <= k < count ==> RecordFits(mem, size, k)
    ensures var r := ParseFrom(mem, size, count, i);
            r.Ok? ==> |r.value| == count - i && FromRecords(mem, i, r.value)
    decreases count - i
  {
    if i < count {
      ParseFromIff(mem, size, count, i + 1);
      ParseNodeIff(mem, size, i);
      var node, rest := ParseNode(mem, size, i), ParseFrom(mem, size, count, i + 1);
      if node.Ok? && rest.Ok? {
        FromRecordsStep(mem, i, node.value, rest.value);
      }
    }
  }

  /** Boot takes an image exactly when it is empty, or has the header, says that
      it has at most 31 files, and every record ends inside it; then the nodes
      are what the records say, followed by /tmp. */
  lemma ParsesIff(mem: Memory, size: nat)
    ensures Parse(mem, size).Ok? <==>
              size == 0 ||
              (&& size >= 32 && RawWord(mem, 0) == MAGIC && RawWord(mem, 8) == 1 && 0 <= RawWord(mem, 16) <= 31
               && forall k: nat :: k < RawWord(mem, 16) ==> RecordFits(mem, size, k))
    ensures Parse(mem, size).Ok? && size > 0 ==>
              var nodes, n := Parse(mem, size).value, RawWord(mem, 16);
              |nodes| == n + 1 && nodes[n] == TMP && FromRecords(mem, 0, nodes[..n])
  {
    var count := RawWord(mem, 16);
    if count >= 0 {
      ParseFromIff(mem, size, count, 0);
    }
  }
}
