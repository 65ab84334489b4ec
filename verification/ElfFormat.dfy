/**
 Executables as a linker writes them: the header and the program headers of
 chapter 5 of the System V gABI, byte by byte, and what the kernel's reader
 makes of them.
 */
module ElfFormat {
  import opened Base
  import opened Bytes
  import opened Elf

  /** Elf64_Phdr: p_type, p_flags, p_offset, p_vaddr, p_paddr, p_filesz, p_memsz, p_align. */
  datatype ProgramHeader = ProgramHeader(kind: nat, flags: nat, offset: int, vaddr: int, paddr: int, filesz: int,
                                         memsz: int, align: int)

  /** The eight bytes of a 64-bit number in two's complement. */
  function Bits64(x: int): (r: seq<byte>)
    requires I64(x)
    ensures |r| == 8
  {
    Encode(if x < 0 then x + TWO64 else x, 8)
  }

  predicate HeaderFits(h: ProgramHeader) {
    && h.kind < 0x1_0000_0000 && h.flags < 0x1_0000_0000 && I64(h.offset) && I64(h.vaddr) && I64(h.paddr)
    && I64(h.filesz) && I64(h.memsz) && I64(h.align)
  }

  /** The 56 bytes of a program header. */
  function HeaderBytes(h: ProgramHeader): (r: seq<byte>)
    requires HeaderFits(h)
    ensures |r| == 56
  {
    Encode(h.kind, 4) + Encode(h.flags, 4) + Bits64(h.offset) + Bits64(h.vaddr) + Bits64(h.paddr)
      + Bits64(h.filesz) + Bits64(h.memsz) + Bits64(h.align)
  }

  /** The image starts with the header of an x86-64 executable that has this
      entry point and these program headers, each `size` bytes after the last. */
  ghost predicate Describes(image: seq<byte>, entry: int, phoff: nat, size: nat, heads: seq<ProgramHeader>) {
    && I64(entry) && phoff < TWO63 && size < 65536 && |heads| < 65536
    && |image| >= 64 && image[..6] == [0x7F, 0x45, 0x4C, 0x46, 2, 1] && image[16..20] == [2, 0, 62, 0]
    && image[24..32] == Bits64(entry) && image[32..40] == Bits64(phoff)
    && image[54..56] == Encode(size, 2) && image[56..58] == Encode(|heads|, 2)
    && forall k :: 0 <= k < |heads| ==> HeaderFits(heads[k]) && Placed(image, phoff + k * size, HeaderBytes(heads[k]))
  }

  /** PT_LOAD with memory. */
  predicate IsLoad(h: ProgramHeader) { h.kind == 1 && h.memsz > 0 }

  /** PF_W is bit 1 of p_flags. */
  function SegmentOf(h: ProgramHeader): (s: Segment) {
    Segment(h.offset, h.vaddr, h.filesz, h.memsz, h.flags / 2 % 2 == 1)
  }

  /** The loadable segments of headers i and up, in order. */
  function SegmentsFrom(heads: seq<ProgramHeader>, i: nat): (r: seq<Segment>)
    decreases |heads| - i
  {
    if i >= |heads| then []
    else (if IsLoad(heads[i]) then [SegmentOf(heads[i])] else []) + SegmentsFrom(heads, i + 1)
  }

  // ---------------------------------------------------------------------
  // Fields
  // ---------------------------------------------------------------------

  lemma {:induction false} FieldDecodes(image: seq<byte>, at: nat, n: nat)
    requires at + n <= |image|
    ensures Field(image, at, n) == Ok(Decode(image[at..at + n]))
    decreases n
  {
    if n > 0 {
      FieldDecodes(image, at + 1, n - 1);
      assert image[at..at + n][1..] == image[at + 1..at + n];
    }
  }

  lemma Power4()
    ensures Power(4) == 0x1_0000_0000
  {
    assert Power(1) == 256 && Power(2) == 65536 && Power(3) == 256 * Power(2);
  }

  lemma Field4Is(image: seq<byte>, at: nat, x: nat)
    requires at + 4 <= |image| && image[at..at + 4] == Encode(x, 4) && x < 0x1_0000_0000
    ensures Field(image, at, 4) == Ok(x)
  {
    FieldDecodes(image, at, 4);
    Power4();
    DecodeEncode(x, 4);
  }

  lemma U64Is(image: seq<byte>, at: nat, x: int)
    requires I64(x) && at + 8 <= |image| && image[at..at + 8] == Bits64(x)
    ensures U64(image, at) == Ok(x)
  {
    FieldDecodes(image, at, 8);
    Power8();
    DecodeEncode(if x < 0 then x + TWO64 else x, 8);
  }

  lemma U16Is(image: seq<byte>, at: nat, x: nat)
    requires x < 65536 && at + 2 <= |image| && image[at..at + 2] == Encode(x, 2)
    ensures U16(image, at) == x
  {
    var high := Encode(x / 256, 1);
    assert Encode(x, 2) == [x % 256] + high && high == [x / 256 % 256] + Encode(x / 256 / 256, 0);
    assert image[at..at + 2][0] == image[at] && image[at..at + 2][1] == image[at + 1];
  }

  // ---------------------------------------------------------------------
  // Headers
  // ---------------------------------------------------------------------

  lemma Inner(image: seq<byte>, at: nat, b: seq<byte>, lo: nat, hi: nat)
    requires Placed(image, at, b) && lo <= hi <= |b|
    ensures image[at + lo..at + hi] == b[lo..hi]
  {
    forall k | lo <= k < hi
      ensures image[at + k] == b[k]
    {
      assert image[at..at + |b|][k] == b[k];
    }
  }

  /** Where the parts of a program header stand. */
  lemma HeaderParts(image: seq<byte>, at: nat, h: ProgramHeader)
    requires HeaderFits(h) && Placed(image, at, HeaderBytes(h))
    ensures at + 56 <= |image| && image[at..at + 4] == Encode(h.kind, 4) && image[at + 4..at + 8] == Encode(h.flags, 4)
    ensures image[at + 8..at + 16] == Bits64(h.offset) && image[at + 16..at + 24] == Bits64(h.vaddr)
    ensures image[at + 32..at + 40] == Bits64(h.filesz) && image[at + 40..at + 48] == Bits64(h.memsz)
  {
    var b := HeaderBytes(h);
    Inner(image, at, b, 0, 4);
    Inner(image, at, b, 4, 8);
    Inner(image, at, b, 8, 16);
    Inner(image, at, b, 16, 24);
    Inner(image, at, b, 32, 40);
    Inner(image, at, b, 40, 48);
    assert b[0..4] == Encode(h.kind, 4) && b[4..8] == Encode(h.flags, 4);
    assert b[8..16] == Bits64(h.offset) && b[16..24] == Bits64(h.vaddr);
    assert b[32..40] == Bits64(h.filesz) && b[40..48] == Bits64(h.memsz);
  }

  /** A program header is read back field by field. */
  lemma HeaderReadBack(image: seq<byte>, at: nat, h: ProgramHeader)
    requires HeaderFits(h) && Placed(image, at, HeaderBytes(h))
    ensures SegmentAt(image, at) == Ok(if IsLoad(h) then Some(SegmentOf(h)) else None)
  {
    HeaderParts(image, at, h);
    Field4Is(image, at, h.kind);
    Field4Is(image, at + 4, h.flags);
    U64Is(image, at + 8, h.offset);
    U64Is(image, at + 16, h.vaddr);
    U64Is(image, at + 32, h.filesz);
    U64Is(image, at + 40, h.memsz);
  }

  lemma DescribedHeader(image: seq<byte>, entry: int, phoff: nat, size: nat, heads: seq<ProgramHeader>)
    requires Describes(image, entry, phoff, size, heads)
    ensures HeaderOk(image) && U16(image, 54) == size && U16(image, 56) == |heads|
    ensures HeaderWord(image, 24) == entry && HeaderWord(image, 32) == phoff
  {
    assert image[..6] == [image[0], image[1], image[2], image[3], image[4], image[5]];
    assert image[16..20] == [image[16], image[17], image[18], image[19]];
    U16Is(image, 54, size);
    U16Is(image, 56, |heads|);
    U64Is(image, 24, entry);
    U64Is(image, 32, phoff);
  }

  lemma LoadsStep(image: seq<byte>, at: nat, i: nat, h: ProgramHeader, rest: seq<Segment>)
    requires HeaderOk(image) && i < U16(image, 56) && HeaderAt(image, i) == at
    requires SegmentAt(image, at) == Ok(if IsLoad(h) then Some(SegmentOf(h)) else None)
    requires LoadsFrom(image, i + 1) == Ok(rest)
    ensures LoadsFrom(image, i) == Ok((if IsLoad(h) then [SegmentOf(h)] else []) + rest)
  {
    assert [] + rest == rest;
  }

  lemma {:induction false} LoadsListed(image: seq<byte>, heads: seq<ProgramHeader>, i: nat)
    requires HeaderOk(image) && U16(image, 56) == |heads| && i <= |heads|
    requires forall k: nat :: k < |heads| ==> HeaderAt(image, k) >= 0 && SegmentAt(image, HeaderAt(image, k))
                                              == Ok(if IsLoad(heads[k]) then Some(SegmentOf(heads[k])) else None)
    ensures LoadsFrom(image, i) == Ok(SegmentsFrom(heads, i))
    decreases |heads| - i
  {
    if i < |heads| {
      LoadsListed(image, heads, i + 1);
      LoadsStep(image, HeaderAt(image, i), i, heads[i], SegmentsFrom(heads, i + 1));
    }
  }

  /** Whatever a linker wrote is read back: the entry point, and the loadable
      segments in order with their own offset, address, sizes and permission. */
  lemma ReadBack(image: seq<byte>, entry: int, phoff: nat, size: nat, heads: seq<ProgramHeader>)
    requires Describes(image, entry, phoff, size, heads)
    ensures HeaderOk(image) && HeaderWord(image, 24) == entry && Loads(image) == Ok(SegmentsFrom(heads, 0))
  {
    DescribedHeader(image, entry, phoff, size, heads);
    forall k: nat | k < |heads|
      ensures HeaderAt(image, k) >= 0
      ensures SegmentAt(image, HeaderAt(image, k))
           == Ok(if IsLoad(heads[k]) then Some(SegmentOf(heads[k])) else None)
    {
      HeaderReadBack(image, phoff + k * size, heads[k]);
    }
    LoadsListed(image, heads, 0);
  }

  /** And so, for segments whose fields are not negative and do not overflow,
      the kernel accepts it exactly when its segments and entry point are proper. */
  lemma DescribedAcceptedIff(image: seq<byte>, entry: int, phoff: nat, size: nat, heads: seq<ProgramHeader>)
    requires Describes(image, entry, phoff, size, heads)
    requires forall i :: 0 <= i < |SegmentsFrom(heads, 0)| ==> Sane(SegmentsFrom(heads, 0)[i])
    ensures Accepted(image) <==> size >= 56 && Proper(|image|, SegmentsFrom(heads, 0), entry)
  {
    DescribedHeader(image, entry, phoff, size, heads);
    ReadBack(image, entry, phoff, size, heads);
    if size >= 56 {
      AcceptedIff(image);
    }
  }
}
