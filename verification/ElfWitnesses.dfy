/**
 Executables on which validation or loading does not do what one would expect,
 given byte by byte.
 */
module ElfWitnesses {
  import opened Base
  import opened Elf
  import opened Loader
  import PageTables

  // ---------------------------------------------------------------------
  // Reading fields of known bytes
  // ---------------------------------------------------------------------

  function Low4(image: seq<byte>, at: nat): (x: nat)
    requires at + 4 <= |image|
  {
    image[at] as int + 256 * (image[at + 1] as int)
      + 65536 * (image[at + 2] as int) + 0x100_0000 * (image[at + 3] as int)
  }

  lemma Field4(image: seq<byte>, at: nat)
    requires at + 4 <= |image|
    ensures Field(image, at, 4) == Ok(Low4(image, at))
  {
    assert Field(image, at + 4, 0) == Ok(0);
    assert Field(image, at + 3, 1) == Ok(image[at + 3] as int);
    assert Field(image, at + 2, 2) == Ok(image[at + 2] as int + 256 * (image[at + 3] as int));
    assert Field(image, at + 1, 3).Ok?;
  }

  lemma Field8(image: seq<byte>, at: nat)
    requires at + 8 <= |image|
    ensures Field(image, at, 8) == Ok(Low4(image, at) + 0x1_0000_0000 * Low4(image, at + 4))
  {
    Field4(image, at + 4);
    var high := Low4(image, at + 4);
    assert Field(image, at + 3, 5) == Ok(image[at + 3] as int + 256 * high);
    assert Field(image, at + 2, 6) == Ok(image[at + 2] as int + 256 * (image[at + 3] as int + 256 * high));
    assert Field(image, at + 1, 7).Ok?;
  }

  /** The 64 bytes of a good header, with its program headers right after it. */
  function HeaderByte(i: nat, count: byte): (b: byte) {
    if i == 0 then 0x7F else if i == 1 then 0x45 else if i == 2 then 0x4C else if i == 3 then 0x46
    else if i == 4 then 2 else if i == 5 then 1 else if i == 16 then 2 else if i == 18 then 62
    else if i == 32 then 64 else if i == 54 then 56 else if i == 56 then count
    else 0
  }

  lemma HeaderReads(image: seq<byte>, count: byte)
    requires |image| >= 64 && forall i :: 0 <= i < 64 ==> image[i] == HeaderByte(i, count)
    ensures HeaderOk(image) && U16(image, 54) == 56 && U16(image, 56) == count
    ensures HeaderWord(image, 24) == 0 && HeaderWord(image, 32) == 64
    ensures forall k: nat :: HeaderAt(image, k) == 64 + k * 56
  {
    Field8(image, 24);
    Field8(image, 32);
  }

  /** A load header read off its bytes. */
  lemma SegmentBytes(image: seq<byte>, at: nat)
    requires at + 48 <= |image| && Low4(image, at) == 1
    requires Wrap(Low4(image, at + 40) + 0x1_0000_0000 * Low4(image, at + 44)) > 0
    ensures SegmentAt(image, at) == Ok(Some(Segment(
              Wrap(Low4(image, at + 8) + 0x1_0000_0000 * Low4(image, at + 12)),
              Wrap(Low4(image, at + 16) + 0x1_0000_0000 * Low4(image, at + 20)),
              Wrap(Low4(image, at + 32) + 0x1_0000_0000 * Low4(image, at + 36)),
              Wrap(Low4(image, at + 40) + 0x1_0000_0000 * Low4(image, at + 44)),
              Low4(image, at + 4) / 2 % 2 == 1)))
  {
    Field4(image, at);
    Field4(image, at + 4);
    Field8(image, at + 8);
    Field8(image, at + 16);
    Field8(image, at + 32);
    Field8(image, at + 40);
  }

  // ---------------------------------------------------------------------
  // A program header outside the image
  // ---------------------------------------------------------------------

  function Truncated(): (image: seq<byte>) { seq(64, i requires i >= 0 => HeaderByte(i, 1)) }

  /** A header that promises one program header and ends: validation panics. */
  lemma ValidationCanPanic()
    ensures Validate(Truncated()) == Panic(RegionAccess)
  {
    var image := Truncated();
    HeaderReads(image, 1);
    assert !Readable(image, HeaderAt(image, 0));
    ValidatePanicsIff(image);
  }

  // ---------------------------------------------------------------------
  // A negative file offset
  // ---------------------------------------------------------------------

  function NegativeByte(i: nat): (b: byte) {
    if i < 64 then HeaderByte(i, 1)
    else if i == 64 then 1
    else if 72 <= i < 80 then 255
    else if i == 96 || i == 104 then 1
    else 0
  }

  /** One segment of one byte, with file offset -1. */
  function Negative(): (image: seq<byte>) { seq(120, i requires i >= 0 => NegativeByte(i)) }

  lemma NegativeSegment(image: seq<byte>)
    requires |image| == 120 && forall i :: 0 <= i < 120 ==> image[i] == NegativeByte(i)
    ensures SegmentAt(image, 64) == Ok(Some(Segment(-1, 0, 1, 1, false)))
  {
    SegmentBytes(image, 64);
  }

  lemma NoMore(image: seq<byte>, i: nat)
    requires HeaderOk(image) && i >= U16(image, 56)
    ensures LoadsFrom(image, i) == Ok([])
  {
  }

  lemma OneMore(image: seq<byte>, i: nat, s: Segment, rest: seq<Segment>)
    requires HeaderOk(image) && i < U16(image, 56)
    requires SegmentAt(image, HeaderAt(image, i)) == Ok(Some(s)) && LoadsFrom(image, i + 1) == Ok(rest)
    ensures LoadsFrom(image, i) == Ok([s] + rest)
  {
  }

  lemma OneTop(s: Segment)
    ensures ImageTop([s]) == if Top(s) > 0 then Top(s) else 0
  {
    assert [s][..0] == [];
    assert ImageTop([]) == 0;
  }

  lemma NegativeChecked(len: nat, s: Segment)
    requires len == 120 && s == Segment(-1, 0, 1, 1, false)
    ensures Elf.ImageOk(len, [s], 0) && PageCount([s]) == 1 && !Fits(len, [s][0], 1)
  {
    OneTop(s);
    assert Elf.Holds([s][0], 0);
  }

  /** An executable that passes every check, and on which the loader panics. */
  lemma AcceptedButNotLoadable(image: seq<byte>)
    requires image == Negative()
    ensures Accepted(image) && LoadFault(image) == Some(RegionAccess)
  {
    var s := Segment(-1, 0, 1, 1, false);
    HeaderReads(image, 1);
    NegativeSegment(image);
    NoMore(image, 1);
    OneMore(image, 0, s, []);
    assert [s] + [] == [s];
    NegativeChecked(|image|, s);
  }

  // ---------------------------------------------------------------------
  // A size that wraps
  // ---------------------------------------------------------------------

  function WrappingByte(i: nat): (b: byte) {
    if i < 64 then HeaderByte(i, 2)
    else if i == 64 then 1 else if i == 97 then 0x20 else if i == 105 then 0x20
    else if i == 120 then 1 else if i == 124 then 2 else if i == 128 then 1 else if i == 137 then 0x10
    else if i == 152 then 1 else if i == 161 then 0xF0 else if 162 <= i < 167 then 0xFF else if i == 167 then 0x7F
    else 0
  }

  /** Two segments: one of two read-only pages, and one that starts in its second
      page, is writable, and whose end wraps. */
  function Wrapping(): (image: seq<byte>) { seq(8192, i requires i >= 0 => WrappingByte(i)) }

  const PLAIN := Segment(0, 0, 8192, 8192, false)
  const WRAPPED := Segment(1, 4096, 1, 0x7FFF_FFFF_FFFF_F000, true)

  ghost predicate IsWrapping(image: seq<byte>) {
    |image| == 8192 && forall i :: 0 <= i < 8192 ==> image[i] == WrappingByte(i)
  }

  lemma WrappingFirst(image: seq<byte>)
    requires IsWrapping(image)
    ensures SegmentAt(image, 64) == Ok(Some(PLAIN))
  {
    SegmentBytes(image, 64);
  }

  lemma WrappingSecond(image: seq<byte>)
    requires IsWrapping(image)
    ensures SegmentAt(image, 120) == Ok(Some(WRAPPED))
  {
    SegmentBytes(image, 120);
  }

  lemma WrappingLoads(image: seq<byte>)
    requires IsWrapping(image)
    ensures HeaderOk(image) && Loads(image) == Ok([PLAIN, WRAPPED])
    ensures U16(image, 54) == 56 && HeaderWord(image, 24) == 0
  {
    HeaderReads(image, 2);
    WrappingFirst(image);
    WrappingSecond(image);
    NoMore(image, 2);
    OneMore(image, 1, WRAPPED, []);
    assert [WRAPPED] + [] == [WRAPPED];
    OneMore(image, 0, PLAIN, [WRAPPED]);
    assert [PLAIN] + [WRAPPED] == [PLAIN, WRAPPED];
  }

  lemma WrappingChecked(segs: seq<Segment>)
    requires segs == [PLAIN, WRAPPED]
    ensures Elf.ImageOk(8192, segs, 0) && PageCount(segs) == 2
    ensures forall i :: 0 <= i < |segs| ==> Fits(8192, segs[i], 2)
  {
    OneTop(PLAIN);
    assert segs[..1] == [PLAIN];
    assert Top(WRAPPED) < 0;
    assert Elf.Holds(segs[0], 0);
  }

  lemma WrappingByteLoaded(image: seq<byte>, segs: seq<Segment>)
    requires IsWrapping(image) && segs == [PLAIN, WRAPPED]
    ensures LoadedByte(image, segs, 4096) == 0x45 && image[4096] == 0
  {
    assert Covers(WRAPPED, 4096) && segs[1] == WRAPPED;
  }

  /** An executable that passes every check and loads without a panic, and yet
      address 4096 gets the wrong segment's byte, and page 1 stays read-only
      though it holds memory of a PF_W segment. */
  lemma AcceptedButOverlapping(image: seq<byte>)
    requires image == Wrapping()
    ensures var segs := Segments(image);
            && Accepted(image) && LoadFault(image).None? && segs == [PLAIN, WRAPPED]
            && !Contained(segs) && !WrappedApart(segs) && !WrappedMarked(segs)
            && Covers(segs[0], 4096) && LoadedByte(image, segs, 4096) != image[segs[0].offset + 4096 - segs[0].vaddr]
            && Takes(segs[1], 1) && segs[1].writable && LoadedFlags(segs, PageCount(segs), 1) == PageTables.USER_RO
  {
    var segs := [PLAIN, WRAPPED];
    WrappingLoads(image);
    WrappingChecked(segs);
    WrappingByteLoaded(image, segs);
    assert Wraps(segs[1]) && !FilesApart(segs[0], segs[1]);
    assert !Marked(segs, 1);
  }
}
