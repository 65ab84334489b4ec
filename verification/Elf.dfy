/**
 What the kernel accepts as a user executable: decoding of the little-endian
 64-bit header fields as the kernel's signed 64-bit integers, and the checks.
 Chapter 5 of the System V gABI describes the format.
 */
module Elf {
  import opened Base

  const PAGE: int := 4096
  const MAX_FILE_PAGES: int := 64

  /** The kernel's integers are 64-bit two's complement, and sums wrap. */
  function Wrap(x: int): (r: int)
    ensures -TWO63 <= r < TWO63
    ensures -TWO63 <= x < TWO63 ==> r == x
  {
    (x + TWO63) % TWO64 - TWO63
  }

  // ---------------------------------------------------------------------
  // Fields
  // ---------------------------------------------------------------------

  /** load_byte_region. An index past the signed range is outside every image,
      wrapped or not, so index sums are left unwrapped. */
  function Byte(image: seq<byte>, at: int): (r: Outcome<byte>) {
    if 0 <= at < |image| then Ok(image[at]) else Panic(RegionAccess)
  }

  /** The little-endian number in n bytes. */
  function Field(image: seq<byte>, at: int, n: nat): (r: Outcome<nat>)
    decreases n, |image|
  {
    if n == 0 then Ok(0)
    else
      var low :- Byte(image, at);
      var high :- Field(image, at + 1, n - 1);
      Ok(low + 256 * high)
  }

  /** A field is readable exactly when it lies inside the image. */
  lemma {:induction false} FieldReads(image: seq<byte>, at: int, n: nat)
    ensures Field(image, at, n).Ok? <==> n == 0 || (0 <= at && at + n <= |image|)
    ensures Field(image, at, n).Panic? ==> Field(image, at, n).fault == RegionAccess
    decreases n
  {
    if n > 0 {
      FieldReads(image, at + 1, n - 1);
    }
  }

  function U16(image: seq<byte>, at: nat): (r: nat)
    requires at + 2 <= |image|
  {
    image[at] as int + 256 * (image[at + 1] as int)
  }

  /** elf_validate_header */
  predicate HeaderOk(image: seq<byte>) {
    && |image| >= 64
    && image[0] == 0x7F && image[1] == 0x45 && image[2] == 0x4C && image[3] == 0x46
    && image[4] == 2 && image[5] == 1
    && U16(image, 16) == 2 && U16(image, 18) == 62
  }

  function U64(image: seq<byte>, at: int): (r: Outcome<int>) {
    var x :- Field(image, at, 8);
    Ok(Wrap(x))
  }

  /** A field of the 64-byte header, which is always readable. */
  function HeaderWord(image: seq<byte>, at: nat): (r: int)
    requires HeaderOk(image) && at + 8 <= 64
  {
    FieldReads(image, at, 8);
    U64(image, at).value
  }

  /** One loadable segment: p_offset, p_vaddr, p_filesz, p_memsz, and PF_W of p_flags. */
  datatype Segment = Segment(offset: int, vaddr: int, filesz: int, memsz: int, writable: bool)

  /** elf_segment_offset */
  function HeaderAt(image: seq<byte>, i: nat): (r: int)
    requires HeaderOk(image)
  {
    HeaderWord(image, 32) + i * U16(image, 54)
  }

  function ReadSegment(image: seq<byte>, at: int, memsz: int): (r: Outcome<Segment>) {
    var flags :- Field(image, at + 4, 4);
    var offset :- U64(image, at + 8);
    var vaddr :- U64(image, at + 16);
    var filesz :- U64(image, at + 32);
    Ok(Segment(offset, vaddr, filesz, memsz, flags / 2 % 2 == 1))
  }

  /** The program header at `at`, if elf_segment_is_user_load holds of it. */
  function SegmentAt(image: seq<byte>, at: int): (r: Outcome<Option<Segment>>) {
    var kind :- Field(image, at, 4);
    if kind != 1 then Ok(None)
    else
      var memsz :- U64(image, at + 40);
      if memsz <= 0 then Ok(None)
      else
        var s :- ReadSegment(image, at, memsz);
        Ok(Some(s))
  }

  /** The loadable segments among program headers i and up. */
  function LoadsFrom(image: seq<byte>, i: nat): (r: Outcome<seq<Segment>>)
    requires HeaderOk(image)
    decreases U16(image, 56) - i
  {
    if i >= U16(image, 56) then Ok([])
    else
      var s :- SegmentAt(image, HeaderAt(image, i));
      var rest :- LoadsFrom(image, i + 1);
      Ok(if s.Some? then [s.value] + rest else rest)
  }

  function Loads(image: seq<byte>): (r: Outcome<seq<Segment>>)
    requires HeaderOk(image)
  {
    LoadsFrom(image, 0)
  }

  // ---------------------------------------------------------------------
  // Validation
  // ---------------------------------------------------------------------

  function Top(s: Segment): (r: int) { Wrap(s.vaddr + s.memsz) }

  /** elf_align_up(x, 4096) >> 12 */
  function PagesUp(x: int): (r: int) { Wrap(x + PAGE - 1) / PAGE }

  function PageEnd(s: Segment): (r: int) { PagesUp(Top(s)) }

  predicate SegmentOk(len: nat, s: Segment) {
    && s.vaddr % PAGE == 0
    && s.memsz > 0 && s.memsz >= s.filesz
    && Wrap(s.offset + s.filesz) <= len
    && PageEnd(s) <= MAX_FILE_PAGES
  }

  predicate Apart(s: Segment, t: Segment) { !(s.vaddr < Top(t) && t.vaddr < Top(s)) }

  /** elf_user_image_top */
  function ImageTop(segs: seq<Segment>): (r: int) {
    if segs == [] then 0
    else
      var rest := ImageTop(segs[..|segs| - 1]);
      var top := Top(segs[|segs| - 1]);
      if top > rest then top else rest
  }

  function PageCount(segs: seq<Segment>): (r: int) { PagesUp(ImageTop(segs)) }

  predicate Holds(s: Segment, a: int) { s.vaddr <= a < Top(s) }

  ghost predicate SegmentsOk(len: nat, segs: seq<Segment>) {
    && (forall i :: 0 <= i < |segs| ==> SegmentOk(len, segs[i]))
    && (forall i, j :: 0 <= i < j < |segs| ==> Apart(segs[i], segs[j]))
  }

  /** What elf_validate_user_image checks once the segments are known. */
  ghost predicate ImageOk(len: nat, segs: seq<Segment>, entry: int) {
    && segs != [] && SegmentsOk(len, segs)
    && 0 < PageCount(segs) <= MAX_FILE_PAGES
    && exists i :: 0 <= i < |segs| && Holds(segs[i], entry)
  }

  /** elf_validate_user_image: it may itself panic, on a program header outside the image. */
  ghost function Validate(image: seq<byte>): (r: Outcome<bool>) {
    if !HeaderOk(image) || U16(image, 54) < 56 then Ok(false)
    else
      var segs :- Loads(image);
      Ok(ImageOk(|image|, segs, HeaderWord(image, 24)))
  }

  ghost predicate Accepted(image: seq<byte>) { Validate(image) == Ok(true) }

  function Segments(image: seq<byte>): (r: seq<Segment>) {
    if HeaderOk(image) && Loads(image).Ok? then Loads(image).value else []
  }

  // ---------------------------------------------------------------------
  // When validation panics
  // ---------------------------------------------------------------------

  /** A program header that can be read as far as validation reads it. */
  predicate Readable(image: seq<byte>, at: int) {
    && 0 <= at && at + 4 <= |image|
    && (image[at] == 1 && image[at + 1] == 0 && image[at + 2] == 0 && image[at + 3] == 0 ==> at + 48 <= |image|)
  }

  lemma KindIsLoad(image: seq<byte>, at: nat)
    requires at + 4 <= |image|
    ensures Field(image, at, 4).Ok?
    ensures Field(image, at, 4).value == 1 <==>
              image[at] == 1 && image[at + 1] == 0 && image[at + 2] == 0 && image[at + 3] == 0
  {
    FieldReads(image, at, 4);
    var f3 := Field(image, at + 3, 1);
    assert Field(image, at + 4, 0) == Ok(0);
    assert f3 == Ok(image[at + 3] + 256 * 0);
    var f2 := Field(image, at + 2, 2);
    assert f2 == Ok(image[at + 2] + 256 * f3.value);
    var f1 := Field(image, at + 1, 3);
    assert f1 == Ok(image[at + 1] + 256 * f2.value);
  }

  lemma SegmentReads(image: seq<byte>, at: int)
    ensures SegmentAt(image, at).Ok? <==> Readable(image, at)
    ensures SegmentAt(image, at).Panic? ==> SegmentAt(image, at).fault == RegionAccess
  {
    FieldReads(image, at, 4);
    FieldReads(image, at + 40, 8);
    FieldReads(image, at + 4, 4);
    FieldReads(image, at + 8, 8);
    FieldReads(image, at + 16, 8);
    FieldReads(image, at + 32, 8);
    if 0 <= at && at + 4 <= |image| {
      KindIsLoad(image, at);
    }
  }

  lemma {:induction false} LoadsRead(image: seq<byte>, i: nat)
    requires HeaderOk(image)
    ensures LoadsFrom(image, i).Ok? <==> forall k :: i <= k < U16(image, 56) ==> Readable(image, HeaderAt(image, k))
    ensures LoadsFrom(image, i).Panic? ==> LoadsFrom(image, i).fault == RegionAccess
    decreases U16(image, 56) - i
  {
    if i < U16(image, 56) {
      SegmentReads(image, HeaderAt(image, i));
      LoadsRead(image, i + 1);
    }
  }

  /** Validation panics exactly when a header it goes on to read leaves the image. */
  lemma ValidatePanicsIff(image: seq<byte>)
    ensures Validate(image).Panic? <==>
              && HeaderOk(image) && U16(image, 54) >= 56
              && exists k :: 0 <= k < U16(image, 56) && !Readable(image, HeaderAt(image, k))
    ensures Validate(image).Panic? ==> Validate(image).fault == RegionAccess
  {
    if HeaderOk(image) {
      LoadsRead(image, 0);
    }
  }

  // ---------------------------------------------------------------------
  // What acceptance gives
  // ---------------------------------------------------------------------

  /** Sizes and positions that are not negative and sums that do not wrap. */
  predicate Sane(s: Segment) {
    && 0 <= s.offset && 0 <= s.vaddr && 0 <= s.filesz
    && s.offset + s.filesz < TWO63 && s.vaddr + s.memsz < TWO63
  }

  lemma {:induction false} TopIsMax(segs: seq<Segment>)
    ensures 0 <= ImageTop(segs) < TWO63
    ensures forall i :: 0 <= i < |segs| ==> Top(segs[i]) <= ImageTop(segs)
    ensures ImageTop(segs) == 0 || exists i :: 0 <= i < |segs| && Top(segs[i]) == ImageTop(segs)
  {
    if segs != [] {
      var n := |segs| - 1;
      TopIsMax(segs[..n]);
      if ImageTop(segs) != 0 {
        if Top(segs[n]) <= ImageTop(segs[..n]) {
          var i :| 0 <= i < n && Top(segs[..n][i]) == ImageTop(segs[..n]);
          assert Top(segs[i]) == ImageTop(segs);
        } else {
          assert Top(segs[n]) == ImageTop(segs);
        }
      }
    }
  }

  lemma PagesUpMonotone(x: int, y: int)
    requires -TWO63 <= x <= y && 0 <= y < TWO63 && PagesUp(y) > 0
    ensures PagesUp(x) <= PagesUp(y) && y <= PagesUp(y) * PAGE && PagesUp(y) * PAGE < y + PAGE
  {
    assert y + PAGE - 1 < TWO63;
    assert x + PAGE - 1 <= y + PAGE - 1;
  }

  /** The pages of every accepted segment end inside the file's pages. */
  lemma PagesInside(image: seq<byte>, i: nat)
    requires Accepted(image) && i < |Segments(image)|
    ensures PageEnd(Segments(image)[i]) <= PageCount(Segments(image)) <= MAX_FILE_PAGES
  {
    var segs := Segments(image);
    TopIsMax(segs);
    PagesUpMonotone(Top(segs[i]), ImageTop(segs));
  }

  // ---------------------------------------------------------------------
  // Whose page is it
  // ---------------------------------------------------------------------

  /** The sum of start and size leaves the signed range. */
  predicate Wraps(s: Segment) { s.vaddr + s.memsz >= TWO63 }

  /** Page p holds memory of the segment. */
  predicate Takes(s: Segment, p: int) { s.vaddr / PAGE <= p && p * PAGE < s.vaddr + s.memsz }

  /** No page of the file is taken by two segments. */
  ghost predicate TakenOnce(segs: seq<Segment>) {
    forall i, j, p :: 0 <= i < j < |segs| && 0 <= p < PageCount(segs) ==> !(Takes(segs[i], p) && Takes(segs[j], p))
  }

  /** A segment that wraps starts behind the file's pages. */
  ghost predicate Contained(segs: seq<Segment>) {
    forall i :: 0 <= i < |segs| && Wraps(segs[i]) ==> segs[i].vaddr >= PageCount(segs) * PAGE
  }

  ghost predicate Signed(segs: seq<Segment>) {
    forall i :: 0 <= i < |segs| ==> -TWO63 <= segs[i].vaddr < TWO63 && 0 < segs[i].memsz < TWO63
  }

  lemma {:induction false} LoadsSigned(image: seq<byte>, i: nat)
    requires HeaderOk(image) && LoadsFrom(image, i).Ok?
    ensures Signed(LoadsFrom(image, i).value)
    decreases U16(image, 56) - i
  {
    if i < U16(image, 56) {
      LoadsSigned(image, i + 1);
    }
  }

  lemma WrappedTop(s: Segment)
    requires -TWO63 <= s.vaddr < TWO63 && 0 < s.memsz < TWO63
    ensures Wraps(s) ==> s.vaddr > 0 && Top(s) == s.vaddr + s.memsz - TWO64 && PageEnd(s) <= 0
    ensures !Wraps(s) ==> Top(s) == s.vaddr + s.memsz
  {
  }

  /** What is known of one accepted segment. */
  lemma AcceptedSegment(image: seq<byte>, i: nat)
    requires Accepted(image) && i < |Segments(image)|
    ensures var s := Segments(image)[i];
            && SegmentOk(|image|, s) && -TWO63 <= s.vaddr < TWO63 && 0 < s.memsz < TWO63
            && (Wraps(s) ==> s.vaddr > 0 && Top(s) < 0 && PageEnd(s) <= 0)
            && (!Wraps(s) ==> Top(s) == s.vaddr + s.memsz && PageEnd(s) == (s.vaddr + s.memsz + PAGE - 1) / PAGE)
  {
    var segs := Segments(image);
    LoadsSigned(image, 0);
    WrappedTop(segs[i]);
    TopIsMax(segs);
    TopFits(segs, i);
  }

  lemma TopFits(segs: seq<Segment>, i: nat)
    requires i < |segs| && PageCount(segs) > 0 && 0 <= ImageTop(segs) < TWO63 && Top(segs[i]) <= ImageTop(segs)
    ensures Top(segs[i]) + PAGE - 1 < TWO63
  {
  }

  lemma Ceiling(x: int, p: int)
    ensures p * PAGE < x <==> p < (x + PAGE - 1) / PAGE
  {
  }

  /** The pages a segment takes are the pages the loader works with, unless it wraps. */
  lemma TakesIff(image: seq<byte>, i: nat, p: int)
    requires Accepted(image) && i < |Segments(image)| && p <= MAX_FILE_PAGES
    ensures var s := Segments(image)[i];
            if Wraps(s) then Takes(s, p) <==> s.vaddr / PAGE <= p
            else Takes(s, p) <==> s.vaddr / PAGE <= p < PageEnd(s)
  {
    AcceptedSegment(image, i);
    Ceiling(Segments(image)[i].vaddr + Segments(image)[i].memsz, p);
  }

  /** Two segments that do not wrap share no page: starts are aligned and the bytes disjoint. */
  lemma PagesApart(image: seq<byte>, i: nat, j: nat, p: int)
    requires Accepted(image) && i < j < |Segments(image)|
    requires !Wraps(Segments(image)[i]) && !Wraps(Segments(image)[j])
    ensures !(Takes(Segments(image)[i], p) && Takes(Segments(image)[j], p))
  {
    var s, t := Segments(image)[i], Segments(image)[j];
    AcceptedSegment(image, i);
    AcceptedSegment(image, j);
    assert Apart(s, t);
    assert s.vaddr == s.vaddr / PAGE * PAGE && t.vaddr == t.vaddr / PAGE * PAGE;
  }

  /** The last page of the file belongs to a segment that does not wrap. */
  lemma LastPageTaken(image: seq<byte>) returns (t: nat)
    requires Accepted(image)
    ensures t < |Segments(image)| && !Wraps(Segments(image)[t])
             && Takes(Segments(image)[t], PageCount(Segments(image)) - 1)
  {
    var segs := Segments(image);
    TopIsMax(segs);
    t :| 0 <= t < |segs| && Top(segs[t]) == ImageTop(segs);
    AcceptedSegment(image, t);
    TakesIff(image, t, PageCount(segs) - 1);
  }

  /** For an accepted image, no page of the file is taken twice exactly when
      every segment that wraps starts behind them. */
  lemma PagesApartIff(image: seq<byte>)
    requires Accepted(image)
    ensures TakenOnce(Segments(image)) <==> Contained(Segments(image))
  {
    var segs := Segments(image);
    var n := PageCount(segs);
    if Contained(segs) {
      forall i, j, p | 0 <= i < j < |segs| && 0 <= p < n
        ensures !(Takes(segs[i], p) && Takes(segs[j], p))
      {
        if Takes(segs[i], p) && Takes(segs[j], p) {
          ContainedTakes(image, i, p);
          ContainedTakes(image, j, p);
          PagesApart(image, i, j, p);
        }
      }
    } else {
      var i :| 0 <= i < |segs| && Wraps(segs[i]) && segs[i].vaddr < n * PAGE;
      var t := LastPageTaken(image);
      WrapTakesLast(image, i);
      assert Takes(segs[i], n - 1) && Takes(segs[t], n - 1) && i != t;
    }
  }

  lemma WrapTakesLast(image: seq<byte>, i: nat)
    requires Accepted(image) && i < |Segments(image)| && Wraps(Segments(image)[i])
    requires Segments(image)[i].vaddr < PageCount(Segments(image)) * PAGE
    ensures Takes(Segments(image)[i], PageCount(Segments(image)) - 1)
  {
    TakesIff(image, i, PageCount(Segments(image)) - 1);
  }

  lemma ContainedTakes(image: seq<byte>, i: nat, p: int)
    requires Accepted(image) && Contained(Segments(image)) && i < |Segments(image)|
    requires 0 <= p < PageCount(Segments(image)) && Takes(Segments(image)[i], p)
    ensures !Wraps(Segments(image)[i])
  {
    TakesIff(image, i, p);
  }

  /** A sane segment lies in its own pages, and its file bytes in the image. */
  lemma SaneBounds(image: seq<byte>, i: nat)
    requires Accepted(image) && i < |Segments(image)| && Sane(Segments(image)[i])
    ensures var s := Segments(image)[i];
            && s.offset + s.filesz <= |image| && s.filesz <= s.memsz
            && s.vaddr + s.memsz <= PageEnd(s) * PAGE < s.vaddr + s.memsz + PAGE
            && PageEnd(s) <= PageCount(Segments(image))
  {
    var segs := Segments(image);
    var s := segs[i];
    assert SegmentOk(|image|, s);
    PagesInside(image, i);
    TopIsMax(segs);
    PagesUpMonotone(Top(s), ImageTop(segs));
    assert Top(s) + PAGE - 1 < TWO63;
  }

  // ---------------------------------------------------------------------
  // What is accepted
  // ---------------------------------------------------------------------

  /** The address is one of the segment's bytes, whose range does not wrap. */
  predicate HasByte(s: Segment, a: int) { !Wraps(s) && s.vaddr <= a && a - s.vaddr < s.memsz }

  lemma HoldsIff(s: Segment, a: int)
    requires -TWO63 <= s.vaddr < TWO63 && 0 < s.memsz < TWO63
    ensures Holds(s, a) <==> HasByte(s, a)
  {
    WrappedTop(s);
  }

  /** An image whose entry point is no byte of a segment is not accepted; in
      an accepted one it is, and lies below the end of the file's pages. */
  lemma EntryInside(image: seq<byte>)
    requires HeaderOk(image) && Loads(image).Ok?
    ensures var segs, entry := Segments(image), HeaderWord(image, 24);
            && (Accepted(image) ==> exists i :: 0 <= i < |segs| && HasByte(segs[i], entry))
            && ((forall i :: 0 <= i < |segs| ==> !HasByte(segs[i], entry)) ==> !Accepted(image))
            && (Accepted(image) ==> entry < PageCount(segs) * PAGE)
  {
    var segs, entry := Segments(image), HeaderWord(image, 24);
    LoadsSigned(image, 0);
    if Accepted(image) {
      var i :| 0 <= i < |segs| && Holds(segs[i], entry);
      HoldsIff(segs[i], entry);
      TopIsMax(segs);
      PagesUpMonotone(Top(segs[i]), ImageTop(segs));
    }
  }

  /** The segment starts on a page, has its file part in the image and at most
      as long as its memory, and ends within 64 pages. */
  predicate WellPlaced(len: nat, s: Segment) {
    s.vaddr % 4096 == 0 && s.filesz <= s.memsz && s.offset + s.filesz <= len && s.vaddr + s.memsz <= 64 * 4096
  }

  /** No address is a byte of both. */
  ghost predicate NoCommonByte(s: Segment, t: Segment) { forall a :: !(HasByte(s, a) && HasByte(t, a)) }

  lemma ApartIff(s: Segment, t: Segment)
    requires Sane(s) && Sane(t) && 0 < s.memsz && 0 < t.memsz
    ensures Apart(s, t) <==> NoCommonByte(s, t)
  {
    if !Apart(s, t) {
      var a := if s.vaddr < t.vaddr then t.vaddr else s.vaddr;
      assert HasByte(s, a) && HasByte(t, a);
    }
  }

  lemma PagesUpIff(x: int)
    requires 0 < x < TWO63
    ensures 0 < PagesUp(x) <= MAX_FILE_PAGES <==> x <= 64 * 4096
  {
  }

  lemma WellPlacedIff(len: nat, segs: seq<Segment>)
    requires segs != [] && forall i :: 0 <= i < |segs| ==> Sane(segs[i]) && 0 < segs[i].memsz
    ensures (forall i :: 0 <= i < |segs| ==> WellPlaced(len, segs[i])) <==>
              && (forall i :: 0 <= i < |segs| ==> SegmentOk(len, segs[i]))
              && 0 < PageCount(segs) <= MAX_FILE_PAGES
  {
    TopIsMax(segs);
    var top := ImageTop(segs);
    assert Top(segs[0]) == segs[0].vaddr + segs[0].memsz > 0;
    PagesUpIff(top);
    forall i | 0 <= i < |segs|
      ensures top <= 64 * 4096 ==> (SegmentOk(len, segs[i]) <==> WellPlaced(len, segs[i]))
    {
      PagesUpIff(Top(segs[i]));
    }
  }

  /** What validation promises of the segments and the entry point. */
  ghost predicate Proper(len: nat, segs: seq<Segment>, entry: int) {
    && (forall i :: 0 <= i < |segs| ==> WellPlaced(len, segs[i]))
    && (forall i, j :: 0 <= i < j < |segs| ==> NoCommonByte(segs[i], segs[j]))
    && exists i :: 0 <= i < |segs| && HasByte(segs[i], entry)
  }

  lemma ImageOkIff(len: nat, segs: seq<Segment>, entry: int)
    requires Signed(segs) && forall i :: 0 <= i < |segs| ==> Sane(segs[i])
    ensures ImageOk(len, segs, entry) <==> Proper(len, segs, entry)
  {
    forall i, j | 0 <= i < j < |segs|
      ensures Apart(segs[i], segs[j]) <==> NoCommonByte(segs[i], segs[j])
    {
      ApartIff(segs[i], segs[j]);
    }
    forall i | 0 <= i < |segs|
      ensures Holds(segs[i], entry) <==> HasByte(segs[i], entry)
    {
      HoldsIff(segs[i], entry);
    }
    if segs != [] {
      WellPlacedIff(len, segs);
    }
  }

  /** Images whose fields are not negative and do not overflow are accepted
      exactly when they have a loadable segment, all of them well placed and no
      two with a byte in common, and the entry point is a byte of one. */
  lemma AcceptedIff(image: seq<byte>)
    requires HeaderOk(image) && U16(image, 54) >= 56 && Loads(image).Ok?
    requires forall i :: 0 <= i < |Segments(image)| ==> Sane(Segments(image)[i])
    ensures Accepted(image) <==> Proper(|image|, Segments(image), HeaderWord(image, 24))
  {
    LoadsSigned(image, 0);
    ImageOkIff(|image|, Segments(image), HeaderWord(image, 24));
  }

  /** A header that is not that of a 64-bit little-endian x86-64 executable, or
      whose program headers are too short, is refused. */
  lemma HeaderRefused(image: seq<byte>)
    requires || |image| < 64 || image[..4] != [0x7F, 0x45, 0x4C, 0x46] || image[4..6] != [2, 1]
             || image[16..20] != [2, 0, 62, 0] || (image[54] < 56 && image[55] == 0)
    ensures Validate(image) == Ok(false)
  {
    if |image| >= 64 {
      assert image[..4] == [image[0], image[1], image[2], image[3]] && image[4..6] == [image[4], image[5]];
      assert image[16..20] == [image[16], image[17], image[18], image[19]];
    }
  }
}
