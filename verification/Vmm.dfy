/**
 The page-table code in place: words of physical memory overwritten one at a
 time, frames taken from the allocator, each operation refining its value form.
 */
module Vmm {
  import opened Base
  import opened Frames
  import opened PageTables
  import opened Spaces
  import Pmm

  /** A frame's words after a run of writes that covers it from slot 0 on. */
  method Filled(word: nat -> Word) returns (words: seq<Word>)
    ensures |words| == SLOTS && forall j :: 0 <= j < SLOTS ==> words[j] == word(j)
  {
    words := [];
    var j := 0;
    while j < SLOTS
      invariant 0 <= j == |words| <= SLOTS && forall i :: 0 <= i < j ==> words[i] == word(i)
    {
      words := words + [word(j)];
      j := j + 1;
    }
  }

  class Mmu {
    var mem: Mem
    const pmm: Pmm.Allocator

    constructor (allocator: Pmm.Allocator)
      ensures pmm == allocator && mem == map[]
    {
      pmm := allocator;
      mem := map[];
    }

    ghost function State(): (m: Machine)
      requires pmm.Shape()
      reads this, pmm, pmm.regions, pmm.stack
    {
      Machine(mem, pmm.View())
    }

    /** Frames lie above address 0, which stands for "none left". */
    ghost predicate Valid()
      reads this, pmm, pmm.regions, pmm.stack
    {
      pmm.Valid() && forall x: Addr :: InPool(pmm.View(), x) ==> x > 0
    }

    /** The next frame, or None. */
    method AllocFrame() returns (r: Option<Addr>)
      requires Valid()
      modifies pmm, pmm.regions
      ensures Valid() && mem == old(mem)
      ensures Alloc(old(pmm.View())).None? ==> r.None? && pmm.View() == old(pmm.View())
      ensures Alloc(old(pmm.View())).Some? ==> r.Some? && (r.value, pmm.View()) == Alloc(old(pmm.View())).value
    {
      ghost var pool := pmm.View();
      var page := pmm.AllocPage();
      if pool.Free() > 0 {
        assert InPool(pool, Top(pool));
        RestInPool(pool);
      }
      return if page == 0 then None else Some(page);
    }

    method FreeFrame(page: Addr) returns (r: Outcome<()>)
      requires Valid()
      modifies pmm, pmm.stack
      ensures mem == old(mem)
      ensures r.Ok? <==> Release(old(pmm.View()), page).Ok?
      ensures r.Ok? ==> Valid() && pmm.View() == Release(old(pmm.View()), page).value
      ensures r.Panic? ==> r.fault == Release(old(pmm.View()), page).fault
    {
      ReleasedInPool(pmm.View(), page);
      r := pmm.FreePage(page);
    }

    /** vmm_root_p2_ptr, 0 as a missing table */
    method Directory(root: Addr, v: nat) returns (r: Outcome<Addr>)
      ensures r == DirectoryOf(mem, root, v)
    {
      var e4 := Slot(mem, root, 0);
      if !Present(e4) {
        return Panic(MissingTable);
      }
      var e3 := Slot(mem, e4.base, P3(v));
      if !Present(e3) {
        return Panic(MissingTable);
      }
      return Ok(e3.base);
    }

    /** vmm_root_split_large_page and vmm_split_large_page */
    method SplitLargePage(root: Addr, v: nat) returns (r: Outcome<Addr>)
      requires Valid()
      modifies this`mem, pmm, pmm.regions
      ensures r.Panic? ==> Split(old(State()), root, v) == Panic(r.fault)
      ensures r.Ok? ==> Valid() && Split(old(State()), root, v) == Ok((State(), r.value))
    {
      if v >= SPAN {
        return Panic(OutsideRange);
      }
      var p2 :- Directory(root, v);
      var e := Slot(mem, p2, P2(v));
      if !Present(e) {
        return Panic(MissingTable);
      }
      if !Large(e) {
        return Ok(e.base);
      }
      var frame := AllocFrame();
      if frame.None? {
        return Panic(OutOfFrames);
      }
      var base, pt := LargeBase(e), frame.value;
      var words := Filled((j: nat) => Word(base + j * PAGE, RW));
      assert words == SplitEntries(base);
      mem := mem[pt := words];
      mem := Put(mem, p2, P2(v), Word(pt, RW));
      return Ok(pt);
    }

    /** vmm_translate_root: it panics under a root without a pointer table. */
    method TranslateRoot(root: Addr, virt: Addr) returns (r: Outcome<Addr>)
      ensures r == if virt / PAGE < SPAN && !Present(Slot(mem, root, 0)) then Panic(MissingTable)
               else Ok(Translate(mem, root, virt))
    {
      var v := virt / PAGE;
      if v >= SPAN {
        return Ok(0);
      }
      if !Present(Slot(mem, root, 0)) {
        return Panic(MissingTable);
      }
      var p2 := Directory(root, v);
      if p2.Panic? {
        return Ok(0);
      }
      var e := Slot(mem, p2.value, P2(v));
      if !Present(e) {
        return Ok(0);
      }
      if Large(e) {
        SplitOffset(virt);
        return Ok(LargeBase(e) + virt % 0x200000);
      }
      var pte := Slot(mem, e.base, P1(v));
      if !Present(pte) {
        return Ok(0);
      }
      return Ok(pte.base + virt % PAGE);
    }

    /** vmm_map_page_root with raise, vmm_map_page without */
    method MapPage(root: Addr, virt: Addr, phys: Addr, flags: Flags, raise: bool) returns (r: Outcome<()>)
      requires Valid()
      modifies this`mem, pmm, pmm.regions
      ensures r.Panic? ==> Map(old(State()), root, virt, phys, flags, raise) == Panic(r.fault)
      ensures r.Ok? ==> Valid() && Map(old(State()), root, virt, phys, flags, raise) == Ok(State())
    {
      if virt % PAGE != 0 || phys % PAGE != 0 {
        return Panic(Unaligned);
      }
      var v := virt / PAGE;
      var pt :- SplitLargePage(root, v);
      if raise && flags.user {
        var e4 := Slot(mem, root, 0);
        mem := Put(mem, root, 0, WithUser(e4));
        var p3 := e4.base;
        var e3 := Slot(mem, p3, P3(v));
        mem := Put(mem, p3, P3(v), WithUser(e3));
        var p2 := e3.base;
        mem := Put(mem, p2, P2(v), WithUser(Slot(mem, p2, P2(v))));
      }
      if Slot(mem, pt, P1(v)) != ZERO {
        return Panic(MapOverPresent);
      }
      mem := Put(mem, pt, P1(v), LeafWord(phys, flags));
      return Ok(());
    }

    /** vmm_unmap_page_root and vmm_unmap_page */
    method UnmapPage(root: Addr, virt: Addr) returns (r: Outcome<()>)
      requires Valid()
      modifies this`mem, pmm, pmm.regions
      ensures r.Panic? ==> Unmap(old(State()), root, virt) == Panic(r.fault)
      ensures r.Ok? ==> Valid() && Unmap(old(State()), root, virt) == Ok(State())
    {
      if virt % PAGE != 0 {
        return Panic(Unaligned);
      }
      var v := virt / PAGE;
      var pt :- SplitLargePage(root, v);
      if Slot(mem, pt, P1(v)) == ZERO {
        return Panic(UnmapMissing);
      }
      mem := Put(mem, pt, P1(v), ZERO);
      return Ok(());
    }

    /** vmm_protect_page */
    method ProtectPage(root: Addr, virt: Addr, flags: Flags) returns (r: Outcome<()>)
      requires Valid()
      modifies this`mem, pmm, pmm.regions
      ensures r.Panic? ==> Protect(old(State()), root, virt, flags) == Panic(r.fault)
      ensures r.Ok? ==> Valid() && Protect(old(State()), root, virt, flags) == Ok(State())
    {
      if virt % PAGE != 0 {
        return Panic(Unaligned);
      }
      var v := virt / PAGE;
      var pt :- SplitLargePage(root, v);
      var e := Slot(mem, pt, P1(v));
      if e == ZERO {
        return Panic(UnmapMissing);
      }
      mem := Put(mem, pt, P1(v), LeafWord(e.base, flags));
      return Ok(());
    }

    // -------------------------------------------------------------------
    // Address spaces
    // -------------------------------------------------------------------

    /** Directory i of a new address space. */
    method AddDirectory(ghost was: Mem, p4: Addr, p3: Addr, ghost p2s: seq<Addr>, i: nat, p2: Addr)
      requires Growing(mem, was, p4, p3, p2s) && |p2s| == i < DIRECTORIES && p2 != p4 && p2 != p3 && p2 !in p2s
      modifies this`mem
      ensures Growing(mem, was, p4, p3, p2s + [p2])
    {
      ghost var before := mem;
      var zeros := Filled(_ => ZERO);
      mem := mem[p2 := zeros];
      mem := Put(mem, p3, i, Word(p2, RW));
      var words := Filled((j: nat) => Word((i * 512 + j) * 0x200000, BIG));
      assert words == IdentityDirectory(i);
      mem := mem[p2 := words];
      GrowingStep(before, mem, was, p4, p3, p2s, p2);
    }

    /** The root and the pointer table of a new address space. */
    method NewRoot() returns (r: Option<(Addr, Addr)>)
      requires Valid() && PoolOk(pmm.View())
      modifies this`mem, pmm, pmm.regions
      ensures r.None? <==> old(pmm.View()).Free() < 2
      ensures r.Some? ==> Valid() && Taken(old(pmm.View()), 2) == [r.value.0, r.value.1]
                          && pmm.View() == Left(old(pmm.View()), 2) && Growing(mem, old(mem), r.value.0, r.value.1, [])
    {
      ghost var was, pool := mem, pmm.View();
      var f4 := AllocFrame();
      var f3 := AllocFrame();
      if f4.None? || f3.None? {
        return None;
      }
      var p4, p3 := f4.value, f3.value;
      FirstTwo(pool);
      var zeros := Filled(_ => ZERO);
      mem := mem[p4 := zeros];
      mem := mem[p3 := zeros];
      mem := Put(mem, p4, 0, Word(p3, RW));
      GrowingStarts(mem, was, p4, p3);
      return Some((p4, p3));
    }

    /** vmm_create_task_address_space, and the table part of init_vmm */
    method CreateAddressSpace() returns (r: Outcome<Addr>)
      requires Valid() && PoolOk(pmm.View())
      modifies this`mem, pmm, pmm.regions
      ensures r.Panic? ==> Create(old(State())) == Panic(r.fault)
      ensures r.Ok? ==> Valid() && Create(old(State())).Ok? && Create(old(State())).value.0 == State()
                        && Create(old(State())).value.1.p4 == r.value
    {
      ghost var was, pool := mem, pmm.View();
      var top := NewRoot();
      if top.None? {
        return Panic(OutOfFrames);
      }
      var (p4, p3) := top.value;
      ghost var p2s: seq<Addr>;
      r, p2s := AddDirectories(was, pool, p4, p3);
      if r.Ok? {
        DistinctTaken(pool, 6);
        GrowingEnds(mem, was, p4, p3, p2s, Taken(pool, 6));
      }
    }

    /** The four directories. */
    method AddDirectories(ghost was: Mem, ghost pool: Pool, p4: Addr, p3: Addr) returns (r: Outcome<Addr>,
                          ghost p2s: seq<Addr>)
      requires Valid() && PoolOk(pool) && pool.Free() >= 2 && Taken(pool, 2) == [p4, p3] && pmm.View() == Left(pool, 2)
      requires Growing(mem, was, p4, p3, [])
      modifies this`mem, pmm, pmm.regions
      ensures r == if pool.Free() < 6 then Panic(OutOfFrames) else Ok(p4)
      ensures r.Ok? ==> Valid() && |p2s| == DIRECTORIES && Taken(pool, 6) == [p4, p3] + p2s
                        && pmm.View() == Left(pool, 6) && Growing(mem, was, p4, p3, p2s)
    {
      p2s := [];
      var i := 0;
      while i < DIRECTORIES
        invariant 0 <= i <= DIRECTORIES && |p2s| == i && i + 2 <= pool.Free() && Valid()
        invariant Taken(pool, i + 2) == [p4, p3] + p2s && pmm.View() == Left(pool, i + 2)
        invariant Growing(mem, was, p4, p3, p2s)
      {
        var frame := AllocFrame();
        if frame.None? {
          return Panic(OutOfFrames), p2s;
        }
        NextTaken(pool, i + 2, p4, p3, p2s, frame.value);
        AddDirectory(was, p4, p3, p2s, i, frame.value);
        p2s := p2s + [frame.value];
        i := i + 1;
      }
      return Ok(p4), p2s;
    }

    /** The first frame of a list is handed back. */
    method FreeFirst(page: Addr, ghost todo: seq<Addr>) returns (r: Outcome<()>)
      requires Valid() && todo != [] && todo[0] == page
      modifies pmm, pmm.stack
      ensures mem == old(mem)
      ensures r.Panic? ==> Give(old(pmm.View()), todo) == Panic(r.fault)
      ensures r.Ok? ==> Valid() && Give(old(pmm.View()), todo) == Give(pmm.View(), todo[1..])
    {
      r := FreeFrame(page);
    }

    /** The page tables of one directory. */
    method FreeTables(p2: Addr, ghost rest: seq<Addr>) returns (r: Outcome<()>)
      requires Valid()
      modifies pmm, pmm.stack
      ensures mem == old(mem)
      ensures r.Panic? ==> Give(old(pmm.View()), DirTables(mem, p2, 0) + rest) == Panic(r.fault)
      ensures r.Ok? ==> Valid() && Give(old(pmm.View()), DirTables(mem, p2, 0) + rest) == Give(pmm.View(), rest)
    {
      ghost var pool, all := pmm.View(), DirTables(mem, p2, 0) + rest;
      var j := 0;
      while j < SLOTS
        invariant 0 <= j <= SLOTS && mem == old(mem) && Valid()
        invariant Give(pool, all) == Give(pmm.View(), DirTables(mem, p2, j) + rest)
      {
        var e := Slot(mem, p2, j);
        if Present(e) && !Large(e) {
          ghost var todo := DirTables(mem, p2, j) + rest;
          assert todo[1..] == DirTables(mem, p2, j + 1) + rest;
          var _ :- FreeFirst(e.base, todo);
        } else {
          assert DirTables(mem, p2, j) == DirTables(mem, p2, j + 1);
        }
        j := j + 1;
      }
      assert DirTables(mem, p2, SLOTS) + rest == rest;
      return Ok(());
    }

    /** One directory, after its page tables. */
    method FreeDirectory(p2: Addr, ghost rest: seq<Addr>) returns (r: Outcome<()>)
      requires Valid()
      modifies pmm, pmm.stack
      ensures mem == old(mem)
      ensures r.Panic? ==> Give(old(pmm.View()), DirTables(mem, p2, 0) + ([p2] + rest)) == Panic(r.fault)
      ensures r.Ok? ==>
                Valid() && Give(old(pmm.View()), DirTables(mem, p2, 0) + ([p2] + rest)) == Give(pmm.View(), rest)
    {
      var _ :- FreeTables(p2, [p2] + rest);
      assert ([p2] + rest)[1..] == rest;
      r := FreeFirst(p2, [p2] + rest);
    }

    /** vmm_free_cloned_address_space */
    method FreeAddressSpace(root: Addr) returns (r: Outcome<()>)
      requires Valid()
      modifies pmm, pmm.stack
      ensures mem == old(mem)
      ensures r.Panic? ==> FreeSpace(old(State()), root) == Panic(r.fault)
      ensures r.Ok? ==> Valid() && FreeSpace(old(State()), root) == Ok(State())
    {
      var e4 := Slot(mem, root, 0);
      if !Present(e4) {
        return Panic(MissingTable);
      }
      var _ :- FreeDirectories(e4.base, [e4.base, root]);
      r := FreeTop(e4.base, root);
    }

    /** The directories of a pointer table, each after its page tables. */
    method FreeDirectories(p3: Addr, ghost tail: seq<Addr>) returns (r: Outcome<()>)
      requires Valid()
      modifies pmm, pmm.stack
      ensures mem == old(mem)
      ensures r.Panic? ==> Give(old(pmm.View()), SpaceTables(mem, p3, 0) + tail) == Panic(r.fault)
      ensures r.Ok? ==> Valid() && Give(old(pmm.View()), SpaceTables(mem, p3, 0) + tail) == Give(pmm.View(), tail)
    {
      ghost var pool, all := pmm.View(), SpaceTables(mem, p3, 0) + tail;
      var i := 0;
      while i < DIRECTORIES
        invariant 0 <= i <= DIRECTORIES && mem == old(mem) && Valid()
        invariant Give(pool, all) == Give(pmm.View(), SpaceTables(mem, p3, i) + tail)
      {
        var e := Slot(mem, p3, i);
        if Present(e) {
          Regrouped(DirTables(mem, e.base, 0), e.base, SpaceTables(mem, p3, i + 1), tail);
          var _ :- FreeDirectory(e.base, SpaceTables(mem, p3, i + 1) + tail);
        } else {
          assert SpaceTables(mem, p3, i) == SpaceTables(mem, p3, i + 1);
        }
        i := i + 1;
      }
      assert SpaceTables(mem, p3, DIRECTORIES) + tail == tail;
      return Ok(());
    }

    /** The pointer table and the root. */
    method FreeTop(p3: Addr, root: Addr) returns (r: Outcome<()>)
      requires Valid()
      modifies pmm, pmm.stack
      ensures mem == old(mem)
      ensures r.Panic? ==> Give(old(pmm.View()), [p3, root]) == Panic(r.fault)
      ensures r.Ok? ==> Valid() && Give(old(pmm.View()), [p3, root]) == Ok(pmm.View())
    {
      assert [p3, root][1..] == [root] && [root][1..] == [];
      var _ :- FreeFirst(p3, [p3, root]);
      r := FreeFirst(root, [root]);
    }

    // -------------------------------------------------------------------
    // The user window
    // -------------------------------------------------------------------

    /** One turn of scheduler_map_user_image_pages. */
    method MapTurn(root: Addr, i: nat, phys: Addr, flags: Flags) returns (r: Outcome<()>)
      requires Valid() && phys % PAGE == 0
      modifies this`mem, pmm, pmm.regions
      ensures r.Panic? ==> MapOne(old(State()), root, i, phys, flags) == Panic(r.fault)
      ensures r.Ok? ==> Valid() && MapOne(old(State()), root, i, phys, flags) == Ok(State())
    {
      var virt := PageVirt(i);
      assert virt % PAGE == 0 && virt / PAGE == USER_BASE + i;
      var t :- TranslateRoot(root, virt);
      if t != 0 {
        var _ :- UnmapPage(root, virt);
      }
      r := MapPage(root, virt, phys, flags, true);
    }

    /** scheduler_map_user_image_pages: the image and heap pages, then the stack page. */
    method MapUserImagePages(root: Addr, pages: seq<Addr>, flags: seq<Flags>) returns (r: Outcome<()>)
      requires Valid() && |pages| == |flags| + 1 && forall i :: 0 <= i < |pages| ==> pages[i] % PAGE == 0
      modifies this`mem, pmm, pmm.regions
      ensures r.Panic? ==> MapPages(old(State()), root, 0, pages, flags + [USER_RW]) == Panic(r.fault)
      ensures r.Ok? ==> Valid() && MapPages(old(State()), root, 0, pages, flags + [USER_RW]) == Ok(State())
    {
      ghost var all := flags + [USER_RW];
      var i := 0;
      while i < |pages| - 1
        invariant 0 <= i <= |pages| - 1 && Valid()
        invariant MapPages(old(State()), root, 0, pages, all) == MapPages(State(), root, i, pages, all)
      {
        var _ :- MapTurn(root, i, pages[i], flags[i]);
        i := i + 1;
      }
      r := MapTurn(root, i, pages[i], USER_RW);
    }

    /** scheduler_unmap_user_image_pages */
    method UnmapUserImagePages(root: Addr, n: nat) returns (r: Outcome<()>)
      requires Valid()
      modifies this`mem, pmm, pmm.regions
      ensures r.Panic? ==> UnmapPages(old(State()), root, 0, n) == Panic(r.fault)
      ensures r.Ok? ==> Valid() && UnmapPages(old(State()), root, 0, n) == Ok(State())
    {
      var i := 0;
      while i < n
        invariant 0 <= i <= n && Valid()
        invariant UnmapPages(old(State()), root, 0, n) == UnmapPages(State(), root, i, n)
      {
        var _ :- UnmapPage(root, PageVirt(i));
        i := i + 1;
      }
      return Ok(());
    }

    /** scheduler_release_user_pages: empty entries are passed over. */
    method ReleaseUserPages(pages: seq<Addr>) returns (r: Outcome<()>)
      requires Valid()
      modifies pmm, pmm.stack
      ensures mem == old(mem)
      ensures r.Panic? ==> Give(old(pmm.View()), NonZero(pages)) == Panic(r.fault)
      ensures r.Ok? ==> Valid() && Give(old(pmm.View()), NonZero(pages)) == Ok(pmm.View())
    {
      var i := 0;
      assert pages[0..] == pages;
      while i < |pages|
        invariant 0 <= i <= |pages| && mem == old(mem) && Valid()
        invariant Give(old(pmm.View()), NonZero(pages)) == Give(pmm.View(), NonZero(pages[i..]))
      {
        NonZeroStep(pages, i);
        if pages[i] != 0 {
          var _ :- FreeFirst(pages[i], NonZero(pages[i..]));
        }
        i := i + 1;
      }
      return Ok(());
    }
  }

  /** The entries of a page array that name a frame. */
  function NonZero(pages: seq<Addr>): (r: seq<Addr>) {
    if pages == [] then [] else (if pages[0] == 0 then [] else [pages[0]]) + NonZero(pages[1..])
  }

  lemma NonZeroStep(pages: seq<Addr>, i: nat)
    requires i < |pages|
    ensures pages[i] == 0 ==> NonZero(pages[i..]) == NonZero(pages[i + 1..])
    ensures pages[i] != 0 ==> NonZero(pages[i..]) != [] && NonZero(pages[i..])[0] == pages[i]
    ensures pages[i] != 0 ==> NonZero(pages[i..])[1..] == NonZero(pages[i + 1..])
  {
    assert pages[i..][1..] == pages[i + 1..];
  }

  /** The pages of a process are all of them frames. */
  lemma {:induction false} NonZeroAll(pages: seq<Addr>)
    requires forall i :: 0 <= i < |pages| ==> pages[i] != 0
    ensures NonZero(pages) == pages
  {
    if pages != [] {
      NonZeroAll(pages[1..]);
    }
  }

  // ---------------------------------------------------------------------
  // Building an address space step by step
  // ---------------------------------------------------------------------

  /** A pointer table with the first directories linked. */
  function LinkRow(p2s: seq<Addr>): (r: seq<Word>)
    ensures |r| == SLOTS
  {
    seq(SLOTS, j requires 0 <= j < SLOTS => if j < |p2s| then Word(p2s[j], RW) else ZERO)
  }

  /** An address space under construction over `was`. */
  ghost predicate Growing(mem: Mem, was: Mem, p4: Addr, p3: Addr, p2s: seq<Addr>) {
    && p4 != p3 && p4 in mem && mem[p4] == [Word(p3, RW)] + Repeat(ZERO, 511)
    && p3 in mem && mem[p3] == LinkRow(p2s)
    && (forall k :: 0 <= k < |p2s| ==>
              p2s[k] in mem && p2s[k] != p4 && p2s[k] != p3 && mem[p2s[k]] == IdentityDirectory(k))
    && (forall x: Addr :: x != p4 && x != p3 && x !in p2s ==>
          (x in mem <==> x in was) && (x in was ==> mem[x] == was[x]))
  }

  lemma GrowingStarts(mem: Mem, was: Mem, p4: Addr, p3: Addr)
    requires p4 != p3 && p4 in mem && |mem[p4]| == SLOTS && mem[p4][0] == Word(p3, RW)
    requires forall j :: 1 <= j < SLOTS ==> mem[p4][j] == ZERO
    requires p3 in mem && |mem[p3]| == SLOTS && forall j :: 0 <= j < SLOTS ==> mem[p3][j] == ZERO
    requires forall x: Addr :: x != p4 && x != p3 ==> (x in mem <==> x in was) && (x in was ==> mem[x] == was[x])
    ensures Growing(mem, was, p4, p3, [])
  {
    assert mem[p4] == [Word(p3, RW)] + Repeat(ZERO, 511);
    assert mem[p3] == LinkRow([]);
  }

  lemma GrowingStep(before: Mem, mem: Mem, was: Mem, p4: Addr, p3: Addr, p2s: seq<Addr>, p2: Addr)
    requires Growing(before, was, p4, p3, p2s) && |p2s| < DIRECTORIES && p2 != p4 && p2 != p3 && p2 !in p2s
    requires forall x: Addr :: x != p3 && x != p2 ==>
               (x in mem <==> x in before) && (x in before ==> mem[x] == before[x])
    requires p2 in mem && mem[p2] == IdentityDirectory(|p2s|)
    requires p3 in mem && mem[p3] == LinkRow(p2s)[|p2s| := Word(p2, RW)]
    ensures Growing(mem, was, p4, p3, p2s + [p2])
  {
    assert LinkRow(p2s)[|p2s| := Word(p2, RW)] == LinkRow(p2s + [p2]);
    forall k | 0 <= k < |p2s + [p2]|
      ensures var a := (p2s + [p2])[k]; a in mem && a != p4 && a != p3 && mem[a] == IdentityDirectory(k)
    {
      assert k < |p2s| ==> p2s[k] in p2s;
    }
  }

  /** What the four directories of a new address space hold. */
  lemma NewDirectories(was: Mem, t: Tree, k: nat)
    requires |t.p2| == DIRECTORIES && NoDup(t.p2) && k < DIRECTORIES
    ensures t.p2[k] in NewMem(was, t) && NewMem(was, t)[t.p2[k]] == IdentityDirectory(k)
  {
    assert k == 0 || k == 1 || k == 2 || k == 3;
  }

  lemma NewElsewhere(was: Mem, t: Tree, x: Addr)
    requires |t.p2| == DIRECTORIES && x != t.p4 && x != t.p3 && x !in t.p2
    ensures (x in NewMem(was, t) <==> x in was) && (x in was ==> NewMem(was, t)[x] == was[x])
  {
    assert t.p2[0] in t.p2 && t.p2[1] in t.p2 && t.p2[2] in t.p2 && t.p2[3] in t.p2;
  }

  lemma NewTop(was: Mem, t: Tree)
    requires |t.p2| == DIRECTORIES && t.p4 != t.p3 && t.p4 !in t.p2 && t.p3 !in t.p2
    ensures t.p4 in NewMem(was, t) && NewMem(was, t)[t.p4] == [Word(t.p3, RW)] + Repeat(ZERO, 511)
    ensures t.p3 in NewMem(was, t) && NewMem(was, t)[t.p3] == LinkRow(t.p2)
  {
    assert t.p2[0] in t.p2 && t.p2[1] in t.p2 && t.p2[2] in t.p2 && t.p2[3] in t.p2;
    var row := [Word(t.p2[0], RW), Word(t.p2[1], RW), Word(t.p2[2], RW), Word(t.p2[3], RW)] + Repeat(ZERO, 508);
    assert LinkRow(t.p2) == row;
  }

  lemma GrowingEnds(mem: Mem, was: Mem, p4: Addr, p3: Addr, p2s: seq<Addr>, frames: seq<Addr>)
    requires Growing(mem, was, p4, p3, p2s) && |p2s| == DIRECTORIES && frames == [p4, p3] + p2s && NoDup(frames)
    ensures mem == NewMem(was, NewTree(frames))
  {
    var t := NewTree(frames);
    assert t.p2 == p2s;
    assert NoDup(p2s) by {
      assert forall k :: 0 <= k < |p2s| ==> p2s[k] == frames[k + 2];
    }
    NewTop(was, t);
    var made := NewMem(was, t);
    forall x: Addr
      ensures (x in mem <==> x in made) && (x in mem ==> mem[x] == made[x])
    {
      if x in p2s {
        var k :| 0 <= k < |p2s| && p2s[k] == x;
        NewDirectories(was, t, k);
      } else if x != p4 && x != p3 {
        NewElsewhere(was, t, x);
      }
    }
  }

  // ---------------------------------------------------------------------
  // The pool
  // ---------------------------------------------------------------------

  lemma {:induction false} TakenMore(p: Pool, n: nat)
    requires n < p.Free()
    ensures Taken(p, n + 1) == Taken(p, n) + [Top(Left(p, n))] && Left(p, n + 1) == Rest(Left(p, n))
    decreases n
  {
    if n > 0 {
      TakenMore(Rest(p), n - 1);
      assert [Top(p)] + (Taken(Rest(p), n - 1) + [Top(Left(p, n))]) == Taken(p, n) + [Top(Left(p, n))];
    }
  }

  lemma DistinctTaken(p: Pool, n: nat)
    requires n <= p.Free() && PoolOk(p)
    ensures NoDup(Taken(p, n))
  {
    TakeMoves(p, n);
  }

  lemma FirstTwo(p: Pool)
    requires p.Free() >= 2 && PoolOk(p)
    ensures Taken(p, 2) == [Top(p), Top(Rest(p))] && Left(p, 2) == Rest(Rest(p)) && Top(p) != Top(Rest(p))
  {
    TakenMore(p, 0);
    TakenMore(p, 1);
    assert Taken(p, 2) == [Top(p), Top(Rest(p))];
    DistinctTaken(p, 2);
    assert Taken(p, 2)[0] != Taken(p, 2)[1];
  }

  lemma NextTaken(p: Pool, n: nat, p4: Addr, p3: Addr, p2s: seq<Addr>, next: Addr)
    requires n < p.Free() && PoolOk(p) && Taken(p, n) == [p4, p3] + p2s && next == Top(Left(p, n))
    ensures Taken(p, n + 1) == [p4, p3] + (p2s + [next]) && Left(p, n + 1) == Rest(Left(p, n))
    ensures next != p4 && next != p3 && next !in p2s
  {
    TakenMore(p, n);
    DistinctTaken(p, n + 1);
    var all := Taken(p, n + 1);
    assert [p4, p3] + p2s + [next] == [p4, p3] + (p2s + [next]);
    assert all[0] == p4 && all[1] == p3 && all[|all| - 1] == next;
    assert forall k :: 0 <= k < |p2s| ==> all[k + 2] == p2s[k];
  }

  lemma Regrouped(tables: seq<Addr>, p2: Addr, more: seq<Addr>, tail: seq<Addr>)
    ensures tables + [p2] + more + tail == tables + ([p2] + (more + tail))
  {
  }

  lemma ReleasedInPool(pool: Pool, page: Addr)
    requires forall x: Addr :: InPool(pool, x) ==> x > 0
    ensures Release(pool, page).Ok? ==> forall x: Addr :: InPool(Release(pool, page).value, x) ==> x > 0
  {
    if Release(pool, page).Ok? {
      var p := Release(pool, page).value;
      forall x: Addr | InPool(p, x)
        ensures x > 0
      {
        assert x == page || InPool(pool, x);
      }
    }
  }

  lemma RestInPool(pool: Pool)
    requires pool.Free() > 0
    ensures forall x: Addr :: InPool(Rest(pool), x) ==> InPool(pool, x)
  {
  }

  /** The offset in a 2 MiB page is the small page's place in it and the offset in that. */
  lemma SplitOffset(virt: Addr)
    ensures P1(virt / PAGE) * PAGE + virt % PAGE == virt % 0x200000
  {
  }
}
