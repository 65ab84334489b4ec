/**
 The initial file system image: what the build script writes and what the kernel
 reads out of it.
 */
module Initramfs {
  import opened Base
  import opened Bytes

  const MAGIC: nat := 0x31534652494F4350
  const VERSION: nat := 1
  const MAX_NODES: nat := 32
  const HEADER: nat := 32
  const ENTRY: nat := 32

  /** A named file on the build side. */
  datatype File = File(name: seq<byte>, data: seq<byte>)

  /** A node of the kernel's table. The capacity of a node is the size of its
      buffer; `length` bytes of it are the file. */
  datatype Node = Node(name: seq<byte>, buffer: seq<byte>, length: nat, directory: bool, writable: bool)

  /** "/tmp" */
  const TMP: Node := Node([47, 116, 109, 112], [], 0, true, true)

  function FileNode(f: File): (r: Node) { Node(f.name, f.data, |f.data|, false, false) }

  // ---------------------------------------------------------------------
  // The layout
  // ---------------------------------------------------------------------

  /** align_up(x, 64) */
  function Up64(x: nat): (r: nat)
    ensures r % 64 == 0 && x <= r < x + 64
  {
    (x + 63) / 64 * 64
  }

  /** Where a file that is added at `cursor` ends. */
  function After(cursor: nat, f: File): (r: nat)
    ensures r >= cursor
  {
    Up64(Up64(cursor) + |f.name|) + |f.data|
  }

  /** Where the first i files end. */
  function End(files: seq<File>, i: nat): (r: nat)
    requires i <= |files|
    ensures r >= HEADER + ENTRY * |files|
  {
    if i == 0 then HEADER + ENTRY * |files| else After(End(files, i - 1), files[i - 1])
  }

  function NameAt(files: seq<File>, i: nat): (r: nat)
    requires i < |files|
    ensures r >= HEADER + ENTRY * |files|
  {
    Up64(End(files, i))
  }

  function DataAt(files: seq<File>, i: nat): (r: nat)
    requires i < |files|
    ensures r >= HEADER + ENTRY * |files|
  {
    Up64(NameAt(files, i) + |files[i].name|)
  }

  function Pack(a: nat, b: nat, c: nat, d: nat): (r: seq<byte>)
    ensures |r| == 32
  {
    Encode(a, 8) + Encode(b, 8) + Encode(c, 8) + Encode(d, 8)
  }

  function Record(files: seq<File>, i: nat): (r: seq<byte>)
    requires i < |files|
    ensures |r| == ENTRY
  {
    Pack(NameAt(files, i), |files[i].name|, DataAt(files, i), |files[i].data|)
  }

  /** The name, the data and the record of file i are where they belong. */
  ghost predicate FilePlaced(blob: seq<byte>, files: seq<File>, i: nat)
    requires i < |files|
  {
    && Placed(blob, NameAt(files, i), files[i].name)
    && Placed(blob, DataAt(files, i), files[i].data)
  }

  ghost predicate RecordPlaced(blob: seq<byte>, files: seq<File>, i: nat)
    requires i < |files|
  {
    Placed(blob, HEADER + ENTRY * i, Record(files, i))
  }

  function Head(magic: nat, version: nat, n: nat): (r: seq<byte>)
    ensures |r| == HEADER
  {
    Pack(magic, version, n, 0)
  }

  /** The blob packs the files after a header. */
  ghost predicate Packs(blob: seq<byte>, head: seq<byte>, files: seq<File>) {
    Filled(blob, head, files, |files|) && Listed(blob, files, |files|)
  }

  // ---------------------------------------------------------------------
  // Building
  // ---------------------------------------------------------------------

  lemma PlacedGrows(blob: seq<byte>, more: seq<byte>, at: nat, s: seq<byte>)
    requires Placed(blob, at, s)
    ensures Placed(blob + more, at, s)
  {
    assert (blob + more)[at..at + |s|] == blob[at..at + |s|];
  }

  lemma PlacedLast(blob: seq<byte>, s: seq<byte>)
    ensures Placed(blob + s, |blob|, s)
  {
  }

  lemma FileGrows(blob: seq<byte>, more: seq<byte>, files: seq<File>, i: nat)
    requires i < |files| && FilePlaced(blob, files, i)
    ensures FilePlaced(blob + more, files, i)
  {
    PlacedGrows(blob, more, NameAt(files, i), files[i].name);
    PlacedGrows(blob, more, DataAt(files, i), files[i].data);
  }


  /** The header and the first n files are in place. */
  ghost predicate Filled(blob: seq<byte>, head: seq<byte>, files: seq<File>, n: nat) {
    && n <= |files| && Placed(blob, 0, head)
    && (forall k {:trigger FilePlaced(blob, files, k)} :: 0 <= k < n ==> FilePlaced(blob, files, k))
  }

  lemma FilledGrows(blob: seq<byte>, head: seq<byte>, more: seq<byte>, files: seq<File>, n: nat)
    requires Filled(blob, head, files, n)
    ensures Filled(blob + more, head, files, n)
  {
    forall k | 0 <= k < n
      ensures FilePlaced(blob + more, files, k)
    {
      assert FilePlaced(blob, files, k);
      FileGrows(blob, more, files, k);
    }
    PlacedGrows(blob, more, 0, head);
  }

  /** Padding to the next multiple of 64, then the bytes. */
  function Extended(blob: seq<byte>, s: seq<byte>): (r: seq<byte>)
    ensures |r| == Up64(|blob|) + |s|
  {
    blob + (Repeat(0, Up64(|blob|) - |blob|) + s)
  }

  lemma ExtendedThere(blob: seq<byte>, s: seq<byte>)
    ensures Placed(Extended(blob, s), Up64(|blob|), s)
  {
    Regroup(blob, Repeat(0, Up64(|blob|) - |blob|), s);
    PlacedLast(blob + Repeat(0, Up64(|blob|) - |blob|), s);
  }

  method Extend(blob: seq<byte>, s: seq<byte>) returns (r: seq<byte>, at: nat)
    ensures at == Up64(|blob|) && r == Extended(blob, s)
  {
    at := Up64(|blob|);
    r := blob;
    if at > |r| {
      r := r + Repeat(0, at - |r|);
    }
    assert r == blob + Repeat(0, at - |blob|);
    Regroup(blob, Repeat(0, at - |blob|), s);
    r := r + s;
  }

  lemma AddedFile(blob: seq<byte>, head: seq<byte>, files: seq<File>, i: nat)
    requires i < |files| && |blob| == End(files, i) && Filled(blob, head, files, i)
    ensures var full := Extended(Extended(blob, files[i].name), files[i].data);
            |full| == End(files, i + 1) && Filled(full, head, files, i + 1)
  {
    var name, data := files[i].name, files[i].data;
    var named := Extended(blob, name);
    var full := Extended(named, data);
    ExtendedThere(blob, name);
    ExtendedThere(named, data);
    FilledGrows(blob, head, Repeat(0, Up64(|blob|) - |blob|) + name, files, i);
    FilledGrows(named, head, Repeat(0, Up64(|named|) - |named|) + data, files, i);
    PlacedGrows(named, Repeat(0, Up64(|named|) - |named|) + data, Up64(|blob|), name);
    FilledMore(full, head, files, i);
  }

  /** One file: its name, its data, and the record that says where they are. */
  method AddFile(blob: seq<byte>, ghost head: seq<byte>, files: seq<File>, i: nat)
      returns (r: seq<byte>, record: seq<byte>)
    requires i < |files| && |blob| == End(files, i) && Filled(blob, head, files, i)
    ensures |r| == End(files, i + 1) && Filled(r, head, files, i + 1) && record == Record(files, i)
  {
    var named, nameAt := Extend(blob, files[i].name);
    var full, dataAt := Extend(named, files[i].data);
    AddedFile(blob, head, files, i);
    return full, Pack(nameAt, |files[i].name|, dataAt, |files[i].data|);
  }

  lemma Regroup(a: seq<byte>, b: seq<byte>, c: seq<byte>)
    ensures a + b + c == a + (b + c)
  {
  }

  lemma FilledMore(blob: seq<byte>, head: seq<byte>, files: seq<File>, i: nat)
    requires Filled(blob, head, files, i) && i < |files| && FilePlaced(blob, files, i)
    ensures Filled(blob, head, files, i + 1)
  {
  }

  /** The first n records are in place. */
  ghost predicate Listed(blob: seq<byte>, files: seq<File>, n: nat) {
    n <= |files| && forall k {:trigger RecordPlaced(blob, files, k)} :: 0 <= k < n ==> RecordPlaced(blob, files, k)
  }

  lemma PlacedPatched(blob: seq<byte>, start: nat, record: seq<byte>, at: nat, s: seq<byte>)
    requires Placed(blob, at, s) && start + |record| <= |blob| && (at + |s| <= start || start + |record| <= at)
    ensures Placed(Overwritten(blob, start, record), at, s)
  {
    var r := Overwritten(blob, start, record);
    assert forall k :: at <= k < at + |s| ==> r[k] == blob[k];
    assert r[at..at + |s|] == blob[at..at + |s|];
  }

  lemma PatchedThere(blob: seq<byte>, start: nat, record: seq<byte>)
    requires start + |record| <= |blob|
    ensures Placed(Overwritten(blob, start, record), start, record)
  {
  }

  lemma FilledPatched(blob: seq<byte>, head: seq<byte>, files: seq<File>, i: nat, record: seq<byte>)
    requires Filled(blob, head, files, |files|) && |head| == HEADER && i < |files| && |record| == ENTRY
             && |blob| >= HEADER + ENTRY * |files|
    ensures Filled(Overwritten(blob, HEADER + ENTRY * i, record), head, files, |files|)
  {
    var start := HEADER + ENTRY * i;
    var r := Overwritten(blob, start, record);
    PlacedPatched(blob, start, record, 0, head);
    forall k | 0 <= k < |files|
      ensures FilePlaced(r, files, k)
    {
      assert FilePlaced(blob, files, k);
      PlacedPatched(blob, start, record, NameAt(files, k), files[k].name);
      PlacedPatched(blob, start, record, DataAt(files, k), files[k].data);
    }
  }

  lemma ListedPatched(blob: seq<byte>, files: seq<File>, i: nat)
    requires Listed(blob, files, i) && i < |files| && |blob| >= HEADER + ENTRY * |files|
    ensures Listed(Overwritten(blob, HEADER + ENTRY * i, Record(files, i)), files, i + 1)
  {
    var start, record := HEADER + ENTRY * i, Record(files, i);
    var r := Overwritten(blob, start, record);
    forall k | 0 <= k < i
      ensures RecordPlaced(r, files, k)
    {
      assert RecordPlaced(blob, files, k);
      PlacedPatched(blob, start, record, HEADER + ENTRY * k, Record(files, k));
    }
    PatchedThere(blob, start, record);
  }

  ghost predicate AreRecords(records: seq<seq<byte>>, files: seq<File>, n: nat) {
    n == |records| <= |files| && forall k :: 0 <= k < n ==> records[k] == Record(files, k)
  }

  /** The first loop of build_image: names and data after an empty table. */
  method PlaceFiles(head: seq<byte>, files: seq<File>) returns (blob: seq<byte>, records: seq<seq<byte>>)
    requires |head| == HEADER
    ensures Filled(blob, head, files, |files|) && |blob| == End(files, |files|) && AreRecords(records, files, |files|)
  {
    PlacedGrows(head, Repeat(0, ENTRY * |files|), 0, head);
    blob := head + Repeat(0, ENTRY * |files|);
    records := [];
    var i := 0;
    while i < |files|
      invariant 0 <= i <= |files| && |blob| == End(files, i) && Filled(blob, head, files, i)
      invariant AreRecords(records, files, i)
    {
      var record: seq<byte>;
      blob, record := AddFile(blob, head, files, i);
      records := records + [record];
      i := i + 1;
    }
  }

  /** The second loop: the records go into the table. */
  method PatchRecords(filled: seq<byte>, ghost head: seq<byte>, ghost files: seq<File>, records: seq<seq<byte>>)
      returns (blob: seq<byte>)
    requires |head| == HEADER && AreRecords(records, files, |files|)
    requires Filled(filled, head, files, |files|) && |filled| == End(files, |files|)
    ensures Filled(blob, head, files, |files|) && Listed(blob, files, |files|) && |blob| == |filled|
  {
    blob := filled;
    var i := 0;
    while i < |records|
      invariant 0 <= i <= |records| && |blob| == |filled|
      invariant Filled(blob, head, files, |files|) && Listed(blob, files, i)
    {
      FilledPatched(blob, head, files, i, records[i]);
      ListedPatched(blob, files, i);
      blob := Overwritten(blob, HEADER + ENTRY * i, records[i]);
      i := i + 1;
    }
  }

  /** build_image */
  method BuildImage(files: seq<File>) returns (blob: seq<byte>)
    ensures Packs(blob, Head(MAGIC, VERSION, |files|), files) && |blob| == End(files, |files|)
  {
    var records: seq<seq<byte>>;
    blob, records := PlaceFiles(Head(MAGIC, VERSION, |files|), files);
    blob := PatchRecords(blob, Head(MAGIC, VERSION, |files|), files, records);
  }
}
