/**
 The loops of kelf.py: each finds its way through the program headers anew, and
 each is proved to compute what `Elf` says of the decoded segments.
 */
module ElfReader {
  import opened Base
  import opened Elf

  /** A field whose low bytes make `low` and whose other bytes weigh `scale`. */
  function Above(low: nat, scale: nat, high: Outcome<nat>): (r: Outcome<nat>) {
    if high.Ok? then Ok(low + scale * high.value) else high
  }

  /** One byte more, of the given weight. */
  function Plus(low: nat, scale: nat, b: byte): (r: nat) { low + scale * b }

  lemma Distributes(scale: nat, b: nat, high: nat)
    ensures scale * (b + 256 * high) == scale * b + scale * 256 * high
  {
  }

  lemma AboveStep(image: seq<byte>, at: int, n: nat, low: nat, scale: nat)
    requires n > 0 && 0 <= at < |image|
    ensures Above(low, scale, Field(image, at, n))
             == Above(Plus(low, scale, image[at]), scale * 256, Field(image, at + 1, n - 1))
  {
    var high := Field(image, at + 1, n - 1);
    if high.Ok? {
      Distributes(scale, image[at], high.value);
    }
  }

  lemma AboveNothing(low: nat, scale: nat, rest: Outcome<nat>)
    ensures Above(low, scale, Ok(0)) == Ok(low) && Above(0, 1, rest) == rest
  {
  }

  /** elf_u32 and elf_u64 */
  method ReadField(image: seq<byte>, at: int, n: nat) returns (r: Outcome<nat>)
    ensures r == Field(image, at, n)
  {
    var value: nat, scale: nat, i := 0, 1, 0;
    AboveNothing(0, 1, Field(image, at, n));
    while i < n
      invariant 0 <= i <= n
      invariant Field(image, at, n) == Above(value, scale, Field(image, at + i, n - i))
    {
      if at + i < 0 || at + i >= |image| {
        return Panic(RegionAccess);
      }
      AboveStep(image, at + i, n - i, value, scale);
      value, scale := Plus(value, scale, image[at + i]), scale * 256;
      i := i + 1;
    }
    AboveNothing(value, scale, Ok(0));
    return Ok(value);
  }

  method ReadSigned(image: seq<byte>, at: int) returns (r: Outcome<int>)
    ensures r == U64(image, at)
  {
    var x :- ReadField(image, at, 8);
    return Ok(Wrap(x));
  }

  /** elf_segment_is_user_load */
  method IsUserLoad(image: seq<byte>, at: int) returns (r: Outcome<bool>)
    ensures SegmentAt(image, at).Ok? ==> r == Ok(SegmentAt(image, at).value.Some?)
    ensures SegmentAt(image, at).Panic? ==> r == Panic(RegionAccess)
  {
    SegmentReads(image, at);
    FieldReads(image, at, 4);
    FieldReads(image, at + 40, 8);
    var kind :- ReadField(image, at, 4);
    if kind != 1 {
      return Ok(false);
    }
    var memsz :- ReadSigned(image, at + 40);
    return Ok(memsz > 0);
  }

  /** The segments found so far, then those still to come. */
  function After(found: seq<Segment>, rest: Outcome<seq<Segment>>): (r: Outcome<seq<Segment>>) {
    if rest.Ok? then Ok(found + rest.value) else rest
  }

  function With(found: seq<Segment>, s: Option<Segment>): (r: seq<Segment>) {
    if s.Some? then found + [s.value] else found
  }

  lemma AfterStep(image: seq<byte>, i: nat, found: seq<Segment>)
    requires HeaderOk(image) && i < U16(image, 56) && SegmentAt(image, HeaderAt(image, i)).Ok?
    ensures After(found, LoadsFrom(image, i))
         == After(With(found, SegmentAt(image, HeaderAt(image, i)).value), LoadsFrom(image, i + 1))
  {
    var s, rest := SegmentAt(image, HeaderAt(image, i)).value, LoadsFrom(image, i + 1);
    if s.Some? && rest.Ok? {
      assert found + [s.value] + rest.value == found + ([s.value] + rest.value);
    }
  }

  lemma AfterNothing(rest: Outcome<seq<Segment>>)
    ensures After([], rest) == rest
  {
    if rest.Ok? {
      assert [] + rest.value == rest.value;
    }
  }

  /** elf_user_load_segment_count */
  method LoadCount(image: seq<byte>) returns (r: Outcome<nat>)
    requires HeaderOk(image)
    ensures Loads(image).Ok? ==> r == Ok(|Loads(image).value|)
    ensures Loads(image).Panic? ==> r == Panic(RegionAccess)
  {
    var i, count := 0, 0;
    ghost var found: seq<Segment> := [];
    AfterNothing(LoadsFrom(image, 0));
    LoadsRead(image, 0);
    while i < U16(image, 56)
      invariant 0 <= i <= U16(image, 56)
      invariant count == |found| && Loads(image) == After(found, LoadsFrom(image, i))
    {
      SegmentReads(image, HeaderAt(image, i));
      var load :- IsUserLoad(image, HeaderAt(image, i));
      AfterStep(image, i, found);
      found := With(found, SegmentAt(image, HeaderAt(image, i)).value);
      if load {
        count := count + 1;
      }
      i := i + 1;
    }
    return Ok(count);
  }

  /** elf_user_load_segment_ph_index: the program header of the n-th loadable segment, or -1. */
  method LoadIndex(image: seq<byte>, n: nat) returns (r: Outcome<int>)
    requires HeaderOk(image)
    ensures Loads(image).Ok? && n < |Loads(image).value| ==>
              && r.Ok? && 0 <= r.value < U16(image, 56)
              && SegmentAt(image, HeaderAt(image, r.value)) == Ok(Some(Loads(image).value[n]))
    ensures Loads(image).Ok? && n >= |Loads(image).value| ==> r == Ok(-1)
  {
    var i, current := 0, 0;
    ghost var found: seq<Segment> := [];
    AfterNothing(LoadsFrom(image, 0));
    while i < U16(image, 56)
      invariant 0 <= i <= U16(image, 56) && current <= n
      invariant current == |found| && Loads(image) == After(found, LoadsFrom(image, i))
    {
      SegmentReads(image, HeaderAt(image, i));
      var load :- IsUserLoad(image, HeaderAt(image, i));
      AfterStep(image, i, found);
      ghost var s := SegmentAt(image, HeaderAt(image, i)).value;
      if load {
        if current == n {
          assert Loads(image).Ok? ==> Loads(image).value[n] == s.value;
          return Ok(i);
        }
        current := current + 1;
      }
      found := With(found, s);
      i := i + 1;
    }
    return Ok(-1);
  }

  lemma SegmentFields(image: seq<byte>, at: int, s: Segment)
    requires SegmentAt(image, at) == Ok(Some(s))
    ensures U64(image, at + 40) == Ok(s.memsz) && U64(image, at + 8) == Ok(s.offset)
    ensures U64(image, at + 16) == Ok(s.vaddr) && U64(image, at + 32) == Ok(s.filesz)
    ensures Field(image, at + 4, 4).Ok? && s.writable == (Field(image, at + 4, 4).value / 2 % 2 == 1)
  {
  }

  /** elf_user_segment_offset, _vaddr, _filesz, _memsz and _flags */
  method UserSegment(image: seq<byte>, n: nat) returns (r: Outcome<Segment>)
    requires HeaderOk(image) && Loads(image).Ok?
    ensures r == if n < |Loads(image).value| then Ok(Loads(image).value[n]) else Panic(MissingSegment)
  {
    var index := LoadIndex(image, n);
    var i := index.value;
    if i < 0 {
      return Panic(MissingSegment);
    }
    var at := HeaderAt(image, i);
    SegmentFields(image, at, Loads(image).value[n]);
    r := ReadFields(image, at, Loads(image).value[n]);
  }

  method ReadFields(image: seq<byte>, at: int, ghost s: Segment) returns (r: Outcome<Segment>)
    requires U64(image, at + 40) == Ok(s.memsz) && U64(image, at + 8) == Ok(s.offset)
    requires U64(image, at + 16) == Ok(s.vaddr) && U64(image, at + 32) == Ok(s.filesz)
    requires Field(image, at + 4, 4).Ok? && s.writable == (Field(image, at + 4, 4).value / 2 % 2 == 1)
    ensures r == Ok(s)
  {
    var memsz := ReadSigned(image, at + 40);
    var flags := ReadField(image, at + 4, 4);
    var offset := ReadSigned(image, at + 8);
    var vaddr := ReadSigned(image, at + 16);
    var filesz := ReadSigned(image, at + 32);
    return Ok(Segment(offset.value, vaddr.value, filesz.value, memsz.value, flags.value / 2 % 2 == 1));
  }

  /** elf_user_image_page_count */
  method CountPages(image: seq<byte>) returns (r: Outcome<int>)
    requires HeaderOk(image)
    ensures Loads(image).Ok? ==> r == Ok(PageCount(Loads(image).value))
    ensures Loads(image).Panic? ==> r == Panic(RegionAccess)
  {
    var count :- LoadCount(image);
    var i, top := 0, 0;
    ghost var segs := Loads(image).value;
    while i < count
      invariant 0 <= i <= count && top == ImageTop(segs[..i])
    {
      var s := UserSegment(image, i);
      assert segs[..i + 1][..i] == segs[..i];
      var t := Wrap(s.value.vaddr + s.value.memsz);
      if t > top {
        top := t;
      }
      i := i + 1;
    }
    assert segs[..count] == segs;
    return Ok(PagesUp(top));
  }

  lemma EntryHolds(image: seq<byte>)
    requires HeaderOk(image) && Loads(image).Ok?
    ensures var segs, entry := Loads(image).value, HeaderWord(image, 24);
            forall i :: 0 <= i < |segs| ==> Elf.Holds(segs[i], entry) == HasByte(segs[i], entry)
  {
    LoadsSigned(image, 0);
    var segs, entry := Loads(image).value, HeaderWord(image, 24);
    forall i | 0 <= i < |segs|
      ensures Elf.Holds(segs[i], entry) == HasByte(segs[i], entry)
    {
      HoldsIff(segs[i], entry);
    }
  }

  /** elf_entry_in_load_segment */
  method EntryInLoad(image: seq<byte>) returns (found: bool)
    requires HeaderOk(image) && Loads(image).Ok?
    ensures found <==>
              exists i :: 0 <= i < |Loads(image).value| && HasByte(Loads(image).value[i], HeaderWord(image, 24))
  {
    EntryHolds(image);
    FieldReads(image, 24, 8);
    var entry := ReadSigned(image, 24);
    var count := LoadCount(image);
    var i := 0;
    while i < count.value
      invariant 0 <= i <= count.value
      invariant forall k :: 0 <= k < i ==> !Elf.Holds(Loads(image).value[k], entry.value)
    {
      var s := UserSegment(image, i);
      if s.value.vaddr <= entry.value < Wrap(s.value.vaddr + s.value.memsz) {
        assert Elf.Holds(Loads(image).value[i], entry.value);
        return true;
      }
      i := i + 1;
    }
    return false;
  }

  /** The checks on one segment by itself. */
  method CheckAlone(len: nat, s: Segment) returns (ok: bool)
    ensures ok == SegmentOk(len, s)
  {
    if s.vaddr % PAGE != 0 {
      return false;
    }
    if s.memsz <= 0 || s.memsz < s.filesz {
      return false;
    }
    if Wrap(s.offset + s.filesz) > len {
      return false;
    }
    return PagesUp(Wrap(s.vaddr + s.memsz)) <= MAX_FILE_PAGES;
  }

  /** The i-th segment against those after it. */
  method CheckApart(image: seq<byte>, i: nat, count: nat, s: Segment) returns (ok: bool)
    requires HeaderOk(image) && Loads(image).Ok? && i < count == |Loads(image).value| && s == Loads(image).value[i]
    ensures ok <==> forall j :: i < j < count ==> Apart(s, Loads(image).value[j])
  {
    var j := i + 1;
    while j < count
      invariant i < j <= count
      invariant forall k :: i < k < j ==> Apart(s, Loads(image).value[k])
    {
      var t := UserSegment(image, j);
      if !Apart(s, t.value) {
        return false;
      }
      j := j + 1;
    }
    return true;
  }

  method CheckSegments(image: seq<byte>, count: nat) returns (ok: bool)
    requires HeaderOk(image) && Loads(image).Ok? && count == |Loads(image).value|
    ensures ok == SegmentsOk(|image|, Loads(image).value)
  {
    ghost var segs := Loads(image).value;
    var i := 0;
    while i < count
      invariant 0 <= i <= count
      invariant forall k :: 0 <= k < i ==> SegmentOk(|image|, segs[k])
      invariant forall k, j :: 0 <= k < i && k < j < count ==> Apart(segs[k], segs[j])
    {
      var s := UserSegment(image, i);
      ok := CheckAlone(|image|, s.value);
      if ok {
        ok := CheckApart(image, i, count, s.value);
      }
      if !ok {
        return;
      }
      i := i + 1;
    }
    return true;
  }

  /** elf_validate_user_image */
  method ValidateImage(image: seq<byte>) returns (r: Outcome<bool>)
    ensures r == Validate(image)
  {
    if !HeaderOk(image) || U16(image, 54) < 56 {
      return Ok(false);
    }
    LoadsRead(image, 0);
    var count :- LoadCount(image);
    if count <= 0 {
      return Ok(false);
    }
    var ok := CheckSegments(image, count);
    if !ok {
      return Ok(false);
    }
    var pages := CountPages(image);
    if pages.value <= 0 || pages.value > MAX_FILE_PAGES {
      return Ok(false);
    }
    var entered := EntryInLoad(image);
    EntryHolds(image);
    return Ok(entered);
  }
}
