/**
 Loading an executable into user pages: which byte ends up where, which pages are
 writable, and that loading an accepted image never panics unless a header field
 is negative or a sum of fields wraps.
 */
module Loader {
  import opened Base
  import opened Elf
  import opened ElfReader
  import PageTables
  import Processes
  import Spaces

  // ---------------------------------------------------------------------
  // What loading yields
  // ---------------------------------------------------------------------

  /** Address a of the window gets a byte of the file from s. */
  predicate Covers(s: Segment, a: int) { s.vaddr <= a < s.vaddr + s.filesz }

  /** Page p is one of the pages of s. */
  predicate Spans(s: Segment, p: int) { s.vaddr / PAGE <= p < PageEnd(s) }

  /** The segment's file bytes lie in the image, and their places in the pages. */
  predicate CopyFits(len: nat, s: Segment, pages: int) {
    s.filesz > 0 ==>
      && 0 <= s.offset && s.offset + s.filesz <= len
      && 0 <= s.vaddr && s.vaddr + s.filesz <= pages * PAGE
  }

  /** The pages to be made writable have a flag word. */
  predicate MarkFits(s: Segment, pages: int) {
    s.writable && s.vaddr / PAGE < PageEnd(s) ==> 0 <= s.vaddr && PageEnd(s) <= pages
  }

  /** The byte at address a: the last segment that covers it decides. */
  function LoadedByte(image: seq<byte>, segs: seq<Segment>, a: int): (b: byte) {
    if segs == [] then 0
    else
      var n := |segs| - 1;
      var s := segs[n];
      if Covers(s, a) && 0 <= s.offset + a - s.vaddr < |image| then image[s.offset + a - s.vaddr]
      else LoadedByte(image, segs[..n], a)
  }

  predicate Marked(segs: seq<Segment>, p: int) {
    exists i :: 0 <= i < |segs| && segs[i].writable && Spans(segs[i], p)
  }

  /** The flags of an image or heap page. */
  function LoadedFlags(segs: seq<Segment>, filePages: int, p: int): (f: PageTables.Flags) {
    if p >= filePages || Marked(segs, p) then PageTables.USER_RW else PageTables.USER_RO
  }

  predicate Fits(len: nat, s: Segment, filePages: int) {
    CopyFits(len, s, filePages + Processes.HEAP_PAGES + 1) && MarkFits(s, filePages + Processes.HEAP_PAGES)
  }

  /** Why loading panics, if it does. */
  function LoadFault(image: seq<byte>): (r: Option<Fault>)
    requires HeaderOk(image) && Loads(image).Ok?
  {
    var segs := Loads(image).value;
    var n := PageCount(segs) + Processes.HEAP_PAGES + 1;
    if n <= 1 || n > Spaces.WINDOW then Some(BadPageCount)
    else if forall i :: 0 <= i < |segs| ==> Fits(|image|, segs[i], PageCount(segs)) then None
    else Some(RegionAccess)
  }

  // ---------------------------------------------------------------------
  // The loops, in place on the pages and the flag words
  // ---------------------------------------------------------------------

  /** The copying of one segment, byte by byte; false stands for the panic. */
  method CopySegment(image: seq<byte>, s: Segment, pages: array2<byte>) returns (ok: bool)
    requires pages.Length1 == PAGE
    modifies pages
    ensures ok == CopyFits(|image|, s, pages.Length0)
    ensures ok ==> forall p, o :: 0 <= p < pages.Length0 && 0 <= o < PAGE ==>
              var a := p * PAGE + o;
              pages[p, o] == if Covers(s, a) then image[s.offset + a - s.vaddr] else old(pages[p, o])
  {
    var copied := 0;
    while copied < s.filesz
      invariant 0 <= copied
      invariant copied > 0 ==>
                  && 0 <= s.offset && s.offset + copied <= |image|
                  && 0 <= s.vaddr && s.vaddr + copied <= pages.Length0 * PAGE && copied <= s.filesz
      invariant forall p, o :: 0 <= p < pages.Length0 && 0 <= o < PAGE ==>
                  var a := p * PAGE + o;
                  pages[p, o]
                  == if s.vaddr <= a < s.vaddr + copied then image[s.offset + a - s.vaddr] else old(pages[p, o])
    {
      var a := s.vaddr + copied;
      var page, off := a / PAGE, a % PAGE;
      if page < 0 || page >= pages.Length0 {
        return false;
      }
      if s.offset + copied < 0 || s.offset + copied >= |image| {
        return false;
      }
      pages[page, off] := image[s.offset + copied];
      copied := copied + 1;
    }
    return true;
  }

  /** The writable pages of one segment; false stands for the panic. */
  method MarkSegment(s: Segment, flags: array<PageTables.Flags>) returns (ok: bool)
    modifies flags
    ensures ok == MarkFits(s, flags.Length)
    ensures ok ==> forall p :: 0 <= p < flags.Length ==>
              flags[p] == if s.writable && Spans(s, p) then PageTables.USER_RW else old(flags[p])
  {
    if !s.writable {
      return true;
    }
    var p := s.vaddr / PAGE;
    while p < PageEnd(s)
      invariant s.vaddr / PAGE <= p && (s.vaddr / PAGE < p ==> 0 <= s.vaddr && p <= flags.Length && p <= PageEnd(s))
      invariant forall q :: 0 <= q < flags.Length ==>
                  flags[q] == if s.vaddr / PAGE <= q < p then PageTables.USER_RW else old(flags[q])
    {
      if p < 0 || p >= flags.Length {
        return false;
      }
      flags[p] := PageTables.USER_RW;
      p := p + 1;
    }
    return true;
  }

  lemma LoadedStep(image: seq<byte>, segs: seq<Segment>, i: nat, a: int)
    requires i < |segs|
    ensures var at := segs[i].offset + a - segs[i].vaddr;
            LoadedByte(image, segs[..i + 1], a)
            == if Covers(segs[i], a) && 0 <= at < |image| then image[at] else LoadedByte(image, segs[..i], a)
  {
    assert segs[..i + 1][..i] == segs[..i];
  }

  lemma MarkedStep(segs: seq<Segment>, i: nat, p: int)
    requires i < |segs|
    ensures Marked(segs[..i + 1], p) <==> Marked(segs[..i], p) || (segs[i].writable && Spans(segs[i], p))
  {
    if Marked(segs[..i + 1], p) {
      var k :| 0 <= k < i + 1 && segs[..i + 1][k].writable && Spans(segs[..i + 1][k], p);
      assert k < i ==> segs[..i][k] == segs[k];
    }
    if Marked(segs[..i], p) {
      var k :| 0 <= k < i && segs[..i][k].writable && Spans(segs[..i][k], p);
      assert segs[..i + 1][k] == segs[k];
    }
    if segs[i].writable && Spans(segs[i], p) {
      assert segs[..i + 1][i] == segs[i];
    }
  }

  /** The pages hold what the first i segments put there. */
  ghost predicate PagesHold(image: seq<byte>, segs: seq<Segment>, pages: array2<byte>)
    reads pages
  {
    pages.Length1 == PAGE &&
    forall p, o :: 0 <= p < pages.Length0 && 0 <= o < PAGE ==> pages[p, o] == LoadedByte(image, segs, p * PAGE + o)
  }

  ghost predicate FlagsHold(segs: seq<Segment>, filePages: int, flags: array<PageTables.Flags>)
    reads flags
  {
    forall p :: 0 <= p < flags.Length ==> flags[p] == LoadedFlags(segs, filePages, p)
  }

  /** One segment: its pages marked, then its bytes copied. */
  method LoadSegment(image: seq<byte>, ghost segs: seq<Segment>, ghost i: nat, s: Segment, ghost filePages: int,
                     pages: array2<byte>, flags: array<PageTables.Flags>) returns (ok: bool)
    requires i < |segs| && s == segs[i] && flags.Length == filePages + Processes.HEAP_PAGES
             && pages.Length0 == filePages + Processes.HEAP_PAGES + 1
    requires PagesHold(image, segs[..i], pages) && FlagsHold(segs[..i], filePages, flags)
    modifies pages, flags
    ensures ok == Fits(|image|, s, filePages)
    ensures ok ==> PagesHold(image, segs[..i + 1], pages) && FlagsHold(segs[..i + 1], filePages, flags)
  {
    ok := MarkSegment(s, flags);
    if !ok {
      return false;
    }
    forall p | 0 <= p < flags.Length
      ensures flags[p] == LoadedFlags(segs[..i + 1], filePages, p)
    {
      MarkedStep(segs, i, p);
    }
    ok := CopySegment(image, s, pages);
    if ok {
      forall p, o | 0 <= p < pages.Length0 && 0 <= o < PAGE
        ensures pages[p, o] == LoadedByte(image, segs[..i + 1], p * PAGE + o)
      {
        LoadedStep(image, segs, i, p * PAGE + o);
      }
    }
  }

  /** The default flags: read-only, and writable for the heap. */
  method InitialFlags(filePages: nat) returns (flags: array<PageTables.Flags>)
    ensures fresh(flags) && flags.Length == filePages + Processes.HEAP_PAGES && FlagsHold([], filePages, flags)
  {
    flags := new PageTables.Flags[filePages + Processes.HEAP_PAGES];
    var p := 0;
    while p < flags.Length
      invariant 0 <= p <= flags.Length
      invariant forall q :: 0 <= q < p ==> flags[q] == PageTables.USER_RO
    {
      flags[p] := PageTables.USER_RO;
      p := p + 1;
    }
    p := filePages;
    while p < flags.Length
      invariant filePages <= p <= flags.Length
      invariant forall q :: 0 <= q < p ==> flags[q] == if q < filePages then PageTables.USER_RO else PageTables.USER_RW
    {
      flags[p] := PageTables.USER_RW;
      p := p + 1;
    }
  }

  method ZeroPages(n: nat) returns (pages: array2<byte>)
    ensures fresh(pages) && pages.Length0 == n && pages.Length1 == PAGE
    ensures forall p, o :: 0 <= p < n && 0 <= o < PAGE ==> pages[p, o] == 0
  {
    pages := new byte[n, PAGE]((p, o) => 0);
  }

  /**
   scheduler_prepare_user_image_pages, with the frames as zeroed pages of their
   own: it panics for exactly the reason LoadFault names, and otherwise every
   byte of every page, and the flags of every page but the stack, are as specified.
   */
  method PreparePages(image: seq<byte>) returns (r: Outcome<(array2<byte>, array<PageTables.Flags>)>)
    requires HeaderOk(image) && Loads(image).Ok?
    ensures r.Panic? <==> LoadFault(image).Some?
    ensures r.Panic? ==> LoadFault(image) == Some(r.fault)
    ensures r.Ok? ==>
              var segs := Loads(image).value;
              var (pages, flags) := r.value;
              && pages.Length0 == PageCount(segs) + Processes.HEAP_PAGES + 1 && PagesHold(image, segs, pages)
              && flags.Length == PageCount(segs) + Processes.HEAP_PAGES && FlagsHold(segs, PageCount(segs), flags)
  {
    var filePages := CountPages(image);
    var n := filePages.value;
    if n + Processes.HEAP_PAGES + 1 <= 1 || n + Processes.HEAP_PAGES + 1 > Spaces.WINDOW {
      return Panic(BadPageCount);
    }
    ghost var segs := Loads(image).value;
    CountNotSmall(segs);
    var flags := InitialFlags(n);
    var pages := ZeroPages(n + Processes.HEAP_PAGES + 1);
    var count := LoadCount(image);
    var i := 0;
    while i < count.value
      invariant 0 <= i <= |segs| && fresh(flags) && fresh(pages)
      invariant PagesHold(image, segs[..i], pages) && FlagsHold(segs[..i], n, flags)
      invariant forall k :: 0 <= k < i ==> Fits(|image|, segs[k], n)
    {
      var s := UserSegment(image, i);
      var ok := LoadSegment(image, segs, i, s.value, n, pages, flags);
      if !ok {
        return Panic(RegionAccess);
      }
      i := i + 1;
    }
    assert segs[..i] == segs;
    return Ok((pages, flags));
  }

  lemma CountNotSmall(segs: seq<Segment>)
    requires PageCount(segs) + Processes.HEAP_PAGES + 1 > 1
    ensures PageCount(segs) >= 0
  {
    TopIsMax(segs);
  }

  // ---------------------------------------------------------------------
  // What that means for an accepted image
  // ---------------------------------------------------------------------

  /** Loading this segment does not panic: its file part, if any, starts at
      positions that are not negative, does not wrap, and ends inside the pages
      of file, heap and stack; and its pages, if they are to be writable, do not
      start below the window. */
  predicate Loadable(s: Segment, filePages: int) {
    && (s.filesz > 0 ==> 0 <= s.offset && s.offset + s.filesz < TWO63 && 0 <= s.vaddr
                         && s.vaddr + s.filesz <= (filePages + Processes.HEAP_PAGES + 1) * PAGE)
    && (s.writable && s.vaddr < 0 ==> PageEnd(s) <= s.vaddr / PAGE)
  }

  lemma FitsIff(len: nat, s: Segment, filePages: int)
    requires len < TWO63 && SegmentOk(len, s) && PageEnd(s) <= filePages
    ensures Fits(len, s, filePages) <==> Loadable(s, filePages)
  {
  }

  /** An accepted image, its length a 64-bit number, loads exactly when each of its segments is loadable. */
  lemma LoadsIff(image: seq<byte>)
    requires Accepted(image) && |image| < TWO63
    ensures LoadFault(image).None? <==>
              forall i :: 0 <= i < |Segments(image)| ==> Loadable(Segments(image)[i], PageCount(Segments(image)))
    ensures LoadFault(image).Some? ==> LoadFault(image).value == RegionAccess
  {
    var segs := Segments(image);
    var n := PageCount(segs);
    assert 0 < n <= MAX_FILE_PAGES;
    forall i | 0 <= i < |segs|
      ensures Fits(|image|, segs[i], n) <==> Loadable(segs[i], n)
    {
      PagesInside(image, i);
      FitsIff(|image|, segs[i], n);
    }
  }

  ghost predicate AllSane(image: seq<byte>) {
    forall i :: 0 <= i < |Segments(image)| ==> Sane(Segments(image)[i])
  }

  /** Accepted images whose fields are not negative and do not wrap always load. */
  lemma SaneLoads(image: seq<byte>)
    requires Accepted(image) && AllSane(image) && |image| < TWO63
    ensures LoadFault(image).None?
  {
    var segs := Segments(image);
    forall i | 0 <= i < |segs|
      ensures Loadable(segs[i], PageCount(segs))
    {
      SaneBounds(image, i);
    }
    LoadsIff(image);
  }

  // ---------------------------------------------------------------------
  // Bytes
  // ---------------------------------------------------------------------

  /** No address gets a byte from two segments. */
  ghost predicate CoveredOnce(segs: seq<Segment>) {
    forall i, j, a :: 0 <= i < j < |segs| ==> !(Covers(segs[i], a) && Covers(segs[j], a))
  }

  /** The file parts of the two segments go to different places. */
  predicate FilesApart(s: Segment, t: Segment) {
    s.filesz <= 0 || t.filesz <= 0 || s.vaddr + s.filesz <= t.vaddr || t.vaddr + t.filesz <= s.vaddr
  }

  lemma FilesApartIff(s: Segment, t: Segment)
    ensures FilesApart(s, t) <==> forall a :: !(Covers(s, a) && Covers(t, a))
  {
    if !FilesApart(s, t) {
      var a := if s.vaddr < t.vaddr then t.vaddr else s.vaddr;
      assert Covers(s, a) && Covers(t, a);
    }
  }

  /** Every segment that wraps is apart from every other. */
  ghost predicate WrappedApart(segs: seq<Segment>) {
    forall i, j :: 0 <= i < j < |segs| && (Wraps(segs[i]) || Wraps(segs[j])) ==> FilesApart(segs[i], segs[j])
  }

  /** The check for overlaps does its work on segments that do not wrap. */
  lemma UnwrappedApart(image: seq<byte>, i: nat, j: nat)
    requires Accepted(image) && i < j < |Segments(image)|
    requires !Wraps(Segments(image)[i]) && !Wraps(Segments(image)[j])
    ensures FilesApart(Segments(image)[i], Segments(image)[j])
  {
    AcceptedSegment(image, i);
    AcceptedSegment(image, j);
    assert Apart(Segments(image)[i], Segments(image)[j]);
  }

  /** In an accepted image no address gets a byte from two segments exactly when
      that can be said of the segments that wrap. */
  lemma CoveredOnceIff(image: seq<byte>)
    requires Accepted(image)
    ensures CoveredOnce(Segments(image)) <==> WrappedApart(Segments(image))
  {
    var segs := Segments(image);
    forall i, j | 0 <= i < j < |segs|
      ensures FilesApart(segs[i], segs[j]) <==> forall a :: !(Covers(segs[i], a) && Covers(segs[j], a))
      ensures !Wraps(segs[i]) && !Wraps(segs[j]) ==> FilesApart(segs[i], segs[j])
    {
      FilesApartIff(segs[i], segs[j]);
      if !Wraps(segs[i]) && !Wraps(segs[j]) {
        UnwrappedApart(image, i, j);
      }
    }
  }

  /** Nothing wraps: the ordinary case of the three conditions. */
  lemma UnwrappedSuffices(segs: seq<Segment>)
    requires forall i :: 0 <= i < |segs| ==> !Wraps(segs[i])
    ensures WrappedApart(segs) && Contained(segs) && WrappedMarked(segs)
  {
  }

  /** In a loaded image a covered byte is the file's byte of the segment that covers it. */
  lemma CoveredByte(image: seq<byte>, i: nat, a: int)
    requires Accepted(image) && LoadFault(image).None? && WrappedApart(Segments(image))
    requires i < |Segments(image)| && Covers(Segments(image)[i], a)
    ensures var s := Segments(image)[i];
            && 0 <= s.offset + a - s.vaddr < |image|
            && LoadedByte(image, Segments(image), a) == image[s.offset + a - s.vaddr]
  {
    var segs := Segments(image);
    CoveredOnceIff(image);
    assert Fits(|image|, segs[i], PageCount(segs));
    LastCovers(image, segs, i, a);
  }

  lemma {:induction false} LastCovers(image: seq<byte>, segs: seq<Segment>, i: nat, a: int)
    requires i < |segs| && Covers(segs[i], a) && 0 <= segs[i].offset + a - segs[i].vaddr < |image|
    requires forall j :: i < j < |segs| ==> !Covers(segs[j], a)
    ensures LoadedByte(image, segs, a) == image[segs[i].offset + a - segs[i].vaddr]
    decreases |segs|
  {
    if i < |segs| - 1 {
      LastCovers(image, segs[..|segs| - 1], i, a);
    }
  }

  /** A byte no segment's file part covers is zero. */
  lemma {:induction false} UncoveredByte(image: seq<byte>, segs: seq<Segment>, a: int)
    requires forall i :: 0 <= i < |segs| ==> !Covers(segs[i], a)
    ensures LoadedByte(image, segs, a) == 0
    decreases |segs|
  {
    if segs != [] {
      UncoveredByte(image, segs[..|segs| - 1], a);
    }
  }

  // ---------------------------------------------------------------------
  // Flags
  // ---------------------------------------------------------------------

  lemma SpansTakes(image: seq<byte>, i: nat, p: int)
    requires Accepted(image) && i < |Segments(image)| && 0 <= p < PageCount(Segments(image))
    ensures Spans(Segments(image)[i], p) <==> Takes(Segments(image)[i], p) && !Wraps(Segments(image)[i])
  {
    AcceptedSegment(image, i);
    TakesIff(image, i, p);
  }

  /** Page p holds memory of a PF_W segment. */
  ghost predicate TakenWritable(segs: seq<Segment>, p: int) {
    exists i :: 0 <= i < |segs| && segs[i].writable && Takes(segs[i], p)
  }

  /** Every image and heap page is writable exactly when it is a heap page or
      holds memory of a PF_W segment. */
  ghost predicate WritableExactly(segs: seq<Segment>) {
    forall p :: 0 <= p < PageCount(segs) + Processes.HEAP_PAGES ==>
      (LoadedFlags(segs, PageCount(segs), p) == PageTables.USER_RW <==> p >= PageCount(segs) || TakenWritable(segs, p))
  }

  /** Page p holds memory of a PF_W segment that wraps, whose pages are never marked. */
  predicate Missed(s: Segment, p: int) { s.writable && Wraps(s) && s.vaddr / PAGE <= p }

  /** Every page of the file that is missed for one segment is marked for another. */
  ghost predicate WrappedMarked(segs: seq<Segment>) {
    forall i, p :: 0 <= i < |segs| && 0 <= p < PageCount(segs) && Missed(segs[i], p) ==> Marked(segs, p)
  }

  /** One page: what is marked holds PF_W memory, and what holds PF_W memory is marked or missed. */
  lemma MarkedIff(image: seq<byte>, p: int)
    requires Accepted(image) && 0 <= p < PageCount(Segments(image))
    ensures var segs := Segments(image);
            TakenWritable(segs, p) <==> Marked(segs, p) || exists i :: 0 <= i < |segs| && Missed(segs[i], p)
  {
    var segs := Segments(image);
    forall i | 0 <= i < |segs|
      ensures Spans(segs[i], p) <==> Takes(segs[i], p) && !Wraps(segs[i])
      ensures Wraps(segs[i]) ==> (Takes(segs[i], p) <==> segs[i].vaddr / PAGE <= p)
    {
      SpansTakes(image, i, p);
      TakesIff(image, i, p);
    }
  }

  /** For every accepted image, the pages are writable as they should be exactly
      when each page missed for a PF_W segment that wraps is marked for another. */
  lemma WritableIff(image: seq<byte>)
    requires Accepted(image)
    ensures WritableExactly(Segments(image)) <==> WrappedMarked(Segments(image))
  {
    var segs := Segments(image);
    forall p | 0 <= p < PageCount(segs)
      ensures TakenWritable(segs, p) <==> Marked(segs, p) || exists i :: 0 <= i < |segs| && Missed(segs[i], p)
    {
      MarkedIff(image, p);
    }
  }

  /** What a loaded image gives the process model, whatever words its bytes make. */
  function AsImage(segs: seq<Segment>, contents: seq<seq<PageTables.Word>>): (img: Processes.Image)
    requires PageCount(segs) >= 0
  {
    var n := PageCount(segs);
    Processes.Image(seq(n + Processes.HEAP_PAGES, p => LoadedFlags(segs, n, p)), contents)
  }

  lemma FlagsAreUser(segs: seq<Segment>, n: int)
    ensures forall p :: LoadedFlags(segs, n, p) == PageTables.USER_RO || LoadedFlags(segs, n, p) == PageTables.USER_RW
    ensures forall p :: p >= n ==> LoadedFlags(segs, n, p) == PageTables.USER_RW
  {
  }

  /** Every accepted image fits the window: at most 64 + 4 + 1 = 69 pages. */
  lemma LoadedImageOk(image: seq<byte>, contents: seq<seq<PageTables.Word>>)
    requires Accepted(image) && |contents| == PageCount(Segments(image)) + Processes.HEAP_PAGES + 1
    requires forall i :: 0 <= i < |contents| ==> |contents[i]| == PageTables.SLOTS
    ensures Processes.ImageOk(AsImage(Segments(image), contents))
    ensures AsImage(Segments(image), contents).Pages() <= Spaces.WINDOW
  {
    var segs := Segments(image);
    AsImageOk(segs, PageCount(segs), contents);
  }

  lemma AsImageOk(segs: seq<Segment>, n: int, contents: seq<seq<PageTables.Word>>)
    requires n == PageCount(segs) && 0 < n <= MAX_FILE_PAGES && |contents| == n + Processes.HEAP_PAGES + 1
    requires forall i :: 0 <= i < |contents| ==> |contents[i]| == PageTables.SLOTS
    ensures Processes.ImageOk(AsImage(segs, contents))
  {
    FlagsAreUser(segs, n);
    var img := AsImage(segs, contents);
    assert forall i :: 0 <= i < |img.flags| ==> img.flags[i] == LoadedFlags(segs, n, i);
  }
}
