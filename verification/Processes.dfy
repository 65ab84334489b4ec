/**
 A user process's memory: building it for an image, rebuilding it on exec, and
 destroying it, with what each does to the frames it owns.
 */
module Processes {
  import opened Base
  import opened Frames
  import opened PageTables
  import opened Refinement
  import opened Spaces

  const HEAP_PAGES: nat := 4

  /** What loading makes of an executable: the flags of its image and heap
      pages, and the words of all its pages, stack last. */
  datatype Image = Image(flags: seq<Flags>, contents: seq<seq<Word>>)
  {
    function Pages(): (n: nat) { |flags| + 1 }
  }

  ghost predicate ImageOk(img: Image) {
    && HEAP_PAGES < |img.flags| <= 64 + HEAP_PAGES
    && (forall i :: 0 <= i < |img.flags| ==> img.flags[i] == USER_RO || img.flags[i] == USER_RW)
    && (forall i :: |img.flags| - HEAP_PAGES <= i < |img.flags| ==> img.flags[i] == USER_RW)
    && |img.contents| == img.Pages()
    && (forall i :: 0 <= i < |img.contents| ==> |img.contents[i]| == SLOTS)
  }

  datatype Process = Nobody | Process(tree: Tree, pages: seq<Addr>, flags: seq<Flags>, brk: nat)
  {
    /** Frames owned: seven tables and the pages. */
    function Size(): (n: nat) { if Nobody? then 0 else 7 + |pages| }
  }

  /** The heap lies between the file's pages and the stack page. */
  function HeapBase(pages: nat): (r: Addr)
    requires pages >= HEAP_PAGES + 1
  {
    PageVirt(pages - 1 - HEAP_PAGES)
  }

  function HeapLimit(pages: nat): (r: Addr)
    requires pages >= 1
  {
    PageVirt(pages - 1)
  }

  ghost predicate Holds(p: Process, x: Addr) {
    p.Process? && (Owns(p.tree, x) || x in p.pages)
  }

  /** A process's address space: its pages at the start of the window, writable
      as its flags say, itself everywhere else, and its break inside its heap. */
  ghost predicate ProcessOk(mem: Mem, p: Process) {
    p.Process? ==>
      && Shape(mem, p.tree) && UserClosed(mem, p.tree)
      && SpaceOk(mem, p.tree, 0, p.pages, p.flags) && (0, 256) in p.tree.pt
      && HEAP_PAGES + 2 <= |p.pages| <= WINDOW
      && NoDup(p.pages) && (forall x: Addr :: x in p.pages ==> !Owns(p.tree, x))
      && HeapBase(|p.pages|) <= p.brk <= HeapLimit(|p.pages|)
  }

  // ---------------------------------------------------------------------
  // Operations
  // ---------------------------------------------------------------------

  function Fill(mem: Mem, pages: seq<Addr>, contents: seq<seq<Word>>): (r: Mem)
    requires |pages| <= |contents|
  {
    if pages == [] then mem
    else
      var n := |pages| - 1;
      Fill(mem, pages[..n], contents)[pages[n] := contents[n]]
  }

  /** Frames for an image, with its words in them. */
  function Prepare(m: Machine, img: Image): (r: Outcome<(Machine, seq<Addr>)>)
    requires |img.contents| == img.Pages()
  {
    var (pages, pool) :- Take(m.pool, img.Pages());
    Ok((Machine(Fill(m.mem, pages, img.contents), pool), pages))
  }

  function AllFlags(img: Image): (r: seq<Flags>) { img.flags + [USER_RW] }

  /** The memory part of scheduler_create_user_elf_task. */
  function Build(m: Machine, img: Image): (r: Outcome<(Machine, Process)>)
    requires |img.contents| == img.Pages() && img.Pages() >= HEAP_PAGES + 1
  {
    var (m1, t) :- Create(m);
    var (m2, pages) :- Prepare(m1, img);
    var m3 :- MapPages(m2, t.p4, 0, pages, AllFlags(img));
    Ok((m3, Process(WithWindow(m2, t), pages, AllFlags(img), HeapBase(img.Pages()))))
  }

  /** The memory part of scheduler_exec_current_task. */
  function Rebuild(m: Machine, p: Process, img: Image): (r: Outcome<(Machine, Process)>)
    requires p.Process? && |img.contents| == img.Pages() && img.Pages() >= HEAP_PAGES + 1
  {
    var root := p.tree.p4;
    var (m1, pages) :- Prepare(m, img);
    var m2 :- UnmapPages(m1, root, 0, |p.pages|);
    var pool :- Give(m2.pool, p.pages);
    var m3 :- MapPages(m2.(pool := pool), root, 0, pages, AllFlags(img));
    Ok((m3, Process(p.tree, pages, AllFlags(img), HeapBase(img.Pages()))))
  }

  /** scheduler_destroy_user_task. */
  function Destroy(m: Machine, p: Process): (r: Outcome<Machine>) {
    if p.Nobody? then Ok(m)
    else
      var pool :- Give(m.pool, p.pages);
      FreeSpace(m.(pool := pool), p.tree.p4)
  }

  // ---------------------------------------------------------------------
  // What they do to the frames
  // ---------------------------------------------------------------------

  /** Process p became p': frames moved only between the pool and the process,
      no other frame was written, and p' is in order. */
  ghost predicate Swapped(m: Machine, p: Process, m': Machine, p': Process) {
    && PoolOk(m'.pool) && ProcessOk(m'.mem, p')
    && (forall x: Addr :: x in m.mem && !InPool(m.pool, x) && !Holds(p, x) ==> x in m'.mem && m'.mem[x] == m.mem[x])
    && (forall x: Addr :: InPool(m.pool, x) || Holds(p, x) <==> InPool(m'.pool, x) || Holds(p', x))
    && (forall x: Addr :: InPool(m'.pool, x) ==> !Holds(p', x))
    && m.pool.Free() + p.Size() == m'.pool.Free() + p'.Size()
  }

  lemma {:induction false} FillFrame(mem: Mem, pages: seq<Addr>, contents: seq<seq<Word>>)
    requires |pages| <= |contents|
    ensures forall x: Addr :: x in mem ==> x in Fill(mem, pages, contents)
    ensures forall x: Addr :: x in mem && x !in pages ==> Fill(mem, pages, contents)[x] == mem[x]
  {
    if pages != [] {
      var n := |pages| - 1;
      FillFrame(mem, pages[..n], contents);
      assert pages == pages[..n] + [pages[n]];
    }
  }

  /** Each page holds the words meant for it. */
  lemma {:induction false} FillContents(mem: Mem, pages: seq<Addr>, contents: seq<seq<Word>>, i: nat)
    requires |pages| <= |contents| && NoDup(pages) && i < |pages|
    ensures pages[i] in Fill(mem, pages, contents) && Fill(mem, pages, contents)[pages[i]] == contents[i]
  {
    var n := |pages| - 1;
    if i < n {
      FillContents(mem, pages[..n], contents, i);
    }
  }

  /** The process has the image's flags, and its frames hold the image's words. */
  ghost predicate Loaded(mem: Mem, p: Process, img: Image) {
    && p.Process? && p.flags == AllFlags(img) && |p.pages| == |img.contents| == img.Pages()
    && FramesHold(mem, p.pages, img.contents)
  }

  ghost predicate FramesHold(mem: Mem, pages: seq<Addr>, contents: seq<seq<Word>>) {
    |pages| <= |contents| && forall i :: 0 <= i < |pages| ==> pages[i] in mem && mem[pages[i]] == contents[i]
  }

  lemma Filled(mem: Mem, pages: seq<Addr>, contents: seq<seq<Word>>)
    requires |pages| <= |contents| && NoDup(pages)
    ensures FramesHold(Fill(mem, pages, contents), pages, contents)
  {
    forall i | 0 <= i < |pages|
      ensures pages[i] in Fill(mem, pages, contents) && Fill(mem, pages, contents)[pages[i]] == contents[i]
    {
      FillContents(mem, pages, contents, i);
    }
  }

  ghost predicate SameOn(a: Mem, b: Mem, pages: seq<Addr>) {
    forall x: Addr :: x in a && x in pages ==> x in b && b[x] == a[x]
  }

  /** Edits that leave the frames of the pages alone. */
  lemma StillHold(a: Mem, b: Mem, pages: seq<Addr>, contents: seq<seq<Word>>)
    requires FramesHold(a, pages, contents)
    requires SameOn(a, b, pages)
    ensures FramesHold(b, pages, contents)
  {
    forall i | 0 <= i < |pages|
      ensures pages[i] in b && b[pages[i]] == contents[i]
    {
      assert pages[i] in pages;
    }
  }

  /** Writing frames outside a tree changes nothing the tree says. */
  lemma SpaceKept(a: Mem, b: Mem, t: Tree, pages: seq<Addr>, flags: seq<Flags>)
    requires Shape(a, t) && UserClosed(a, t) && SpaceOk(a, t, 0, pages, flags) && SameTables(a, b, t)
    ensures Shape(b, t) && UserClosed(b, t) && SpaceOk(b, t, 0, pages, flags)
  {
    SameShape(a, b, t);
    ClosedKept(a, b, t);
    forall v: nat | v < SPAN
      ensures PageOk(Walk(b, t.p4, v), v, 0, pages, flags)
    {
      SameWalk(a, b, t, v);
      assert PageOk(Walk(a, t.p4, v), v, 0, pages, flags);
    }
  }

  lemma ClosedKept(a: Mem, b: Mem, t: Tree)
    requires Shape(a, t) && UserClosed(a, t) && SameTables(a, b, t)
    ensures UserClosed(b, t)
  {
    forall k, s | k in t.pt && 0 <= s < SLOTS && UserBit(Slot(b, t.pt[k], s))
      ensures UpperUser(b, t, k)
    {
      assert Owns(t, t.p4) && Owns(t, t.p3) && Owns(t, t.p2[k.0]) && Owns(t, t.pt[k]);
      assert TableOk(a, t.pt[k]);
      assert Slot(b, t.pt[k], s) == Slot(a, t.pt[k], s);
      assert UpperUser(a, t, k);
    }
  }

  /** A new address space: six frames out of the pool, everything mapped to itself. */
  lemma CreateOk(m: Machine)
    requires PoolOk(m.pool)
    ensures Create(m).Ok? <==> m.pool.Free() >= 6
    ensures Create(m).Ok? ==>
              var (m1, t) := Create(m).value;
              && m1.pool == Left(m.pool, 6) && t == NewTree(Taken(m.pool, 6))
              && TreeOk(m1, t) && SpaceOk(m1.mem, t, 0, [], []) && (0, 256) !in t.pt
              && (forall x: Addr :: Owns(t, x) <==> x in Taken(m.pool, 6))
              && (forall x: Addr :: x in m.mem && !Owns(t, x) ==> x in m1.mem && m1.mem[x] == m.mem[x])
  {
    if m.pool.Free() >= 6 {
      var frames := Taken(m.pool, 6);
      TakeMoves(m.pool, 6);
      var t := NewTree(frames);
      var b := NewMem(m.mem, t);
      NewShape(m.mem, frames);
      NewOwns(frames);
      forall v: nat | v < SPAN
        ensures PageOk(Walk(b, t.p4, v), v, 0, [], [])
      {
        NewIsIdentity(m.mem, frames, v);
      }
      NewFrame(m.mem, t);
    }
  }

  lemma NewOwns(frames: seq<Addr>)
    requires |frames| == 6
    ensures forall x: Addr :: Owns(NewTree(frames), x) <==> x in frames
  {
    assert frames == [frames[0], frames[1]] + frames[2..];
  }

  lemma NewFrame(mem: Mem, t: Tree)
    requires |t.p2| == DIRECTORIES
    ensures forall x: Addr :: x in mem && !Owns(t, x) ==> x in NewMem(mem, t) && NewMem(mem, t)[x] == mem[x]
  {
    assert forall i :: 0 <= i < DIRECTORIES ==> Owns(t, t.p2[i]);
  }

  /** Frames the allocator could have handed out. */
  predicate GoodFrame(x: Addr) { x > 0 && x % PAGE == 0 }

  ghost predicate GoodFrames(m: Machine, p: Process) {
    forall x: Addr :: InPool(m.pool, x) || Holds(p, x) ==> GoodFrame(x)
  }

  /** Taking and filling frames leaves an address space in order. */
  lemma PrepareOk(m: Machine, t: Tree, pages0: seq<Addr>, flags0: seq<Flags>, img: Image)
    requires TreeOk(m, t) && SpaceOk(m.mem, t, 0, pages0, flags0) && ImageOk(img)
    ensures Prepare(m, img).Ok? <==> m.pool.Free() >= img.Pages()
    ensures Prepare(m, img).Ok? ==>
              var (m1, pages) := Prepare(m, img).value;
              && m1.pool == Left(m.pool, img.Pages()) && pages == Taken(m.pool, img.Pages())
              && TreeOk(m1, t) && SpaceOk(m1.mem, t, 0, pages0, flags0)
              && NoDup(pages) && |pages| == img.Pages()
              && (forall x: Addr :: x in pages ==> InPool(m.pool, x) && !InPool(m1.pool, x) && !Owns(t, x))
              && (forall x: Addr :: InPool(m.pool, x) <==> x in pages || InPool(m1.pool, x))
              && (forall x: Addr :: x in m.mem && x !in pages ==> x in m1.mem && m1.mem[x] == m.mem[x])
  {
    if m.pool.Free() >= img.Pages() {
      TakeMoves(m.pool, img.Pages());
      var pages := Taken(m.pool, img.Pages());
      FillFrame(m.mem, pages, img.contents);
      SpaceKept(m.mem, Fill(m.mem, pages, img.contents), t, pages0, flags0);
    }
  }

  lemma FlagsOk(img: Image)
    requires ImageOk(img)
    ensures |AllFlags(img)| == img.Pages() <= WINDOW
    ensures forall j :: 0 <= j < |AllFlags(img)| ==> AllFlags(img)[j].present && AllFlags(img)[j].user
  {
  }

  lemma BreakOk(n: nat)
    requires n >= HEAP_PAGES + 1
    ensures HeapBase(n) <= HeapLimit(n)
  {
  }

  /** Creating a process takes 7 + n frames for n pages, and fails only for want of them. */
  lemma BuildOk(m: Machine, img: Image)
    requires PoolOk(m.pool) && GoodFrames(m, Nobody) && ImageOk(img)
    ensures Build(m, img).Ok? <==> m.pool.Free() >= 7 + img.Pages()
    ensures Build(m, img).Panic? ==> Build(m, img).fault == OutOfFrames
    ensures Build(m, img).Ok? ==>
              var (m', p) := Build(m, img).value;
              && p.Process? && Swapped(m, Nobody, m', p) && Loaded(m'.mem, p, img)
              && Thrifty(m.pool, m'.pool, 7 + img.Pages()) && |p.pages| == img.Pages()
  {
    CreateOk(m);
    if m.pool.Free() >= 6 {
      var (m1, t) := Create(m).value;
      PrepareOk(m1, t, [], [], img);
      if m1.pool.Free() >= img.Pages() {
        BuildMaps(m, m1, t, img);
        if m.pool.Free() >= 7 + img.Pages() {
          var (m2, pages) := Prepare(m1, img).value;
          Filled(m1.mem, pages, img.contents);
          StillHold(m2.mem, MapPages(m2, t.p4, 0, pages, AllFlags(img)).value.mem, pages, img.contents);
        }
      }
    }
  }

  /** A new program's break is where its four heap pages begin. */
  lemma BreakStarts(m: Machine, p: Process, img: Image)
    requires ImageOk(img) && |img.contents| == img.Pages()
    ensures Build(m, img).Ok? ==> Build(m, img).value.1.brk == 0x2000_0000 + (img.Pages() - 5) * 4096
    ensures p.Process? && Rebuild(m, p, img).Ok? ==>
              Rebuild(m, p, img).value.1.brk == 0x2000_0000 + (img.Pages() - 5) * 4096
  {
  }

  lemma BuildMaps(m: Machine, m1: Machine, t: Tree, img: Image)
    requires PoolOk(m.pool) && GoodFrames(m, Nobody) && ImageOk(img)
    requires m.pool.Free() >= 6 + img.Pages() && Create(m) == Ok((m1, t))
    ensures Prepare(m1, img).Ok?
    ensures var (m2, pages) := Prepare(m1, img).value;
            && |pages| == img.Pages()
            && var r := MapPages(m2, t.p4, 0, pages, AllFlags(img));
            && (r.Panic? ==> r.fault == OutOfFrames)
            && (r.Ok? <==> m.pool.Free() >= 7 + img.Pages())
            && (r.Ok? ==> Swapped(m, Nobody, r.value,
                                  Process(WithWindow(m2, t), pages, AllFlags(img), HeapBase(img.Pages())))
                          && Thrifty(m.pool, r.value.pool, 7 + img.Pages()) && SameOn(m2.mem, r.value.mem, pages))
  {
    TakeMoves(m.pool, 6);
    CreateOk(m);
    PrepareOk(m1, t, [], [], img);
    FlagsOk(img);
    var (m2, pages) := Prepare(m1, img).value;
    if m2.pool.Free() == 0 {
      NoTableLeft(m2, t, pages, AllFlags(img));
    } else {
      GoodPages(m, m1, pages);
      TakeIsThrifty(m.pool, 6);
      TakeIsThrifty(m1.pool, img.Pages());
      BuildMapped(m, m1, m2, t, pages, AllFlags(img));
    }
  }

  lemma BuildMapped(m: Machine, m1: Machine, m2: Machine, t: Tree, pages: seq<Addr>, flags: seq<Flags>)
    requires TreeOk(m2, t) && SpaceOk(m2.mem, t, 0, [], []) && (0, 256) !in t.pt && m2.pool.Free() > 0
    requires HEAP_PAGES + 2 <= |flags| == |pages| <= WINDOW && NoDup(pages)
    requires forall j :: 0 <= j < |pages| ==> pages[j] % PAGE == 0 && flags[j].present && flags[j].user
    requires m.pool.Free() == m2.pool.Free() + 6 + |pages|
    requires forall x: Addr :: InPool(m.pool, x) <==> Owns(t, x) || InPool(m1.pool, x)
    requires forall x: Addr :: Owns(t, x) ==> !InPool(m1.pool, x)
    requires forall x: Addr :: InPool(m1.pool, x) <==> x in pages || InPool(m2.pool, x)
    requires forall x: Addr :: x in pages ==> !InPool(m2.pool, x)
    requires forall x: Addr :: x in m.mem && !Owns(t, x) ==> x in m1.mem && m1.mem[x] == m.mem[x]
    requires forall x: Addr :: x in m1.mem && x !in pages ==> x in m2.mem && m2.mem[x] == m1.mem[x]
    ensures var r := MapPages(m2, t.p4, 0, pages, flags);
            && r.Ok? && r.value.pool == Rest(m2.pool) && SameOn(m2.mem, r.value.mem, pages)
            && Swapped(m, Nobody, r.value, Process(WithWindow(m2, t), pages, flags, HeapBase(|pages|)))
  {
    TakeNone(pages);
    TakeNone(flags);
    MapPagesOk(m2, t, 0, pages, flags);
    BreakOk(|pages|);
    var m3, t' := MapPages(m2, t.p4, 0, pages, flags).value, WithWindow(m2, t);
    BuiltFrames(m, m1, m2, m3, t, t', pages);
    BuiltSwapped(m, m3, t', pages, flags);
  }

  lemma BuiltSwapped(m: Machine, m': Machine, t: Tree, pages: seq<Addr>, flags: seq<Flags>)
    requires PoolOk(m'.pool) && |pages| >= HEAP_PAGES + 1
    requires ProcessOk(m'.mem, Process(t, pages, flags, HeapBase(|pages|)))
    requires m.pool.Free() == m'.pool.Free() + 7 + |pages|
    requires forall x: Addr :: InPool(m.pool, x) <==> InPool(m'.pool, x) || Owns(t, x) || x in pages
    requires forall x: Addr :: InPool(m'.pool, x) ==> !Owns(t, x) && x !in pages
    requires forall x: Addr :: x in m.mem && !InPool(m.pool, x) ==> x in m'.mem && m'.mem[x] == m.mem[x]
    ensures Swapped(m, Nobody, m', Process(t, pages, flags, HeapBase(|pages|)))
  {
  }

  lemma TakeNone<T>(s: seq<T>)
    ensures s[..0] == []
  {
  }

  lemma GoodPages(m: Machine, m1: Machine, pages: seq<Addr>)
    requires GoodFrames(m, Nobody) && (forall x: Addr :: InPool(m1.pool, x) ==> InPool(m.pool, x))
    requires forall x: Addr :: x in pages ==> InPool(m1.pool, x)
    ensures forall i :: 0 <= i < |pages| ==> pages[i] % PAGE == 0
  {
    forall i | 0 <= i < |pages|
      ensures GoodFrame(pages[i])
    {
      assert pages[i] in pages;
    }
  }

  /** Without a frame for the page table, the first page cannot be mapped. */
  lemma NoTableLeft(m: Machine, t: Tree, pages: seq<Addr>, flags: seq<Flags>)
    requires TreeOk(m, t) && SpaceOk(m.mem, t, 0, [], []) && (0, 256) !in t.pt && m.pool.Free() == 0
    requires |flags| == |pages| > 0
    ensures MapPages(m, t.p4, 0, pages, flags) == Panic(OutOfFrames)
  {
    WindowIndices(USER_BASE);
    PageArith(USER_BASE);
    TranslateWindow(m.mem, t, [], []);
    if Walk(m.mem, t.p4, USER_BASE).None? {
      UnmappedIsSplit(m.mem, t, USER_BASE);
    }
    SplitOk(m, map[t.p4 := t], t.p4, USER_BASE);
    assert Clear(m, t.p4, 0) == Panic(OutOfFrames);
  }

  lemma BuiltFrames(m: Machine, m1: Machine, m2: Machine, m3: Machine, t: Tree, t': Tree, pages: seq<Addr>)
    requires forall x: Addr :: InPool(m.pool, x) <==> Owns(t, x) || InPool(m1.pool, x)
    requires forall x: Addr :: Owns(t, x) ==> !InPool(m1.pool, x)
    requires forall x: Addr :: InPool(m1.pool, x) <==> x in pages || InPool(m2.pool, x)
    requires forall x: Addr :: x in pages ==> !InPool(m2.pool, x)
    requires Moves(m2, m3, t, t') && TreeOk(m3, t')
    requires forall x: Addr :: x in m.mem && !Owns(t, x) ==> x in m1.mem && m1.mem[x] == m.mem[x]
    requires forall x: Addr :: x in m1.mem && x !in pages ==> x in m2.mem && m2.mem[x] == m1.mem[x]
    ensures forall x: Addr :: InPool(m.pool, x) <==> InPool(m3.pool, x) || Owns(t', x) || x in pages
    ensures forall x: Addr :: InPool(m3.pool, x) ==> !Owns(t', x) && x !in pages
    ensures forall x: Addr :: x in pages ==> !Owns(t', x)
    ensures forall x: Addr :: x in m.mem && !InPool(m.pool, x) ==> x in m3.mem && m3.mem[x] == m.mem[x]
  {
  }

  // ---------------------------------------------------------------------
  // Exec and destruction
  // ---------------------------------------------------------------------

  /** The process is in order, apart from the pool, and its frames can be handed back. */
  ghost predicate Ready(m: Machine, p: Process) {
    && PoolOk(m.pool) && ProcessOk(m.mem, p) && GoodFrames(m, p)
    && (forall x: Addr :: InPool(m.pool, x) ==> !Holds(p, x))
    && |m.pool.recycled| + p.Size() <= RECYCLE_CAPACITY
  }

  lemma ReturnPages(pool: Pool, p: Process)
    requires PoolOk(pool) && p.Process? && NoDup(p.pages)
    requires forall x: Addr :: x in p.pages ==> !InPool(pool, x) && GoodFrame(x)
    requires |pool.recycled| + |p.pages| <= RECYCLE_CAPACITY
    ensures Give(pool, p.pages) == Ok(pool.(recycled := pool.recycled + p.pages))
    ensures PoolOk(Give(pool, p.pages).value)
    ensures forall x: Addr :: InPool(Give(pool, p.pages).value, x) <==> InPool(pool, x) || x in p.pages
  {
    forall i | 0 <= i < |p.pages|
      ensures GoodFrame(p.pages[i])
    {
      assert p.pages[i] in p.pages;
    }
    GiveMoves(pool, p.pages);
    GivenPoolOk(pool, p.pages);
  }

  /** Exec needs only the new image's frames: never "unmap missing entry", never
      "map over present entry", never a full recycle stack. */
  lemma RebuildOk(m: Machine, p: Process, img: Image)
    requires p.Process? && Ready(m, p) && ImageOk(img)
    ensures Rebuild(m, p, img).Ok? <==> m.pool.Free() >= img.Pages()
    ensures Rebuild(m, p, img).Panic? ==> Rebuild(m, p, img).fault == OutOfFrames
    ensures Rebuild(m, p, img).Ok? ==>
              var (m', p') := Rebuild(m, p, img).value;
              && Swapped(m, p, m', p') && Thrifty(m.pool, m'.pool, img.Pages()) && Loaded(m'.mem, p', img)
              && p'.Process? && p'.tree == p.tree && |p'.pages| == img.Pages() && p'.flags == AllFlags(img)
  {
    PrepareOk(m, p.tree, p.pages, p.flags, img);
    if m.pool.Free() >= img.Pages() {
      var (m1, pages) := Prepare(m, img).value;
      TakeIsThrifty(m.pool, img.Pages());
      FlagsOk(img);
      RebuildMaps(m, p, m1, pages, AllFlags(img));
      Filled(m.mem, pages, img.contents);
      StillHold(m1.mem, Rebuild(m, p, img).value.0.mem, pages, img.contents);
    }
  }

  lemma RebuildMaps(m: Machine, p: Process, m1: Machine, pages: seq<Addr>, flags: seq<Flags>)
    requires p.Process? && Ready(m, p) && |m1.pool.recycled| <= |m.pool.recycled|
    requires TreeOk(m1, p.tree) && SpaceOk(m1.mem, p.tree, 0, p.pages, p.flags)
    requires HEAP_PAGES + 2 <= |flags| == |pages| <= WINDOW && NoDup(pages)
    requires forall j :: 0 <= j < |flags| ==> flags[j].present && flags[j].user
    requires m.pool.Free() == m1.pool.Free() + |pages|
    requires forall x: Addr :: x in pages ==> InPool(m.pool, x) && !InPool(m1.pool, x) && !Owns(p.tree, x)
    requires forall x: Addr :: InPool(m.pool, x) <==> x in pages || InPool(m1.pool, x)
    requires forall x: Addr :: x in m.mem && x !in pages ==> x in m1.mem && m1.mem[x] == m.mem[x]
    ensures var u := UnmapPages(m1, p.tree.p4, 0, |p.pages|);
            && u.Ok? && Give(u.value.pool, p.pages).Ok?
            && var r := MapPages(u.value.(pool := Give(u.value.pool, p.pages).value), p.tree.p4, 0, pages, flags);
            && r.Ok? && r.value.pool.unused == m1.pool.unused && SameOn(m1.mem, r.value.mem, pages)
            && Swapped(m, p, r.value, Process(p.tree, pages, flags, HeapBase(|pages|)))
  {
    UnmapPagesOk(m1, p.tree, 0, p.pages, p.flags);
    var m2 := UnmapPages(m1, p.tree.p4, 0, |p.pages|).value;
    ReturnPages(m2.pool, p);
    var m3 := m2.(pool := Give(m2.pool, p.pages).value);
    AlignedPages(pages);
    RemapOk(m3, p.tree, pages, flags);
    var m4 := MapPages(m3, p.tree.p4, 0, pages, flags).value;
    RebuiltSwapped(m, m1, m2, m4, p, pages, flags);
  }

  lemma AlignedPages(pages: seq<Addr>)
    requires forall x: Addr :: x in pages ==> GoodFrame(x)
    ensures forall i :: 0 <= i < |pages| ==> pages[i] % PAGE == 0
  {
    forall i | 0 <= i < |pages|
      ensures GoodFrame(pages[i])
    {
      assert pages[i] in pages;
    }
  }

  /** Mapping into a window whose page table exists. */
  lemma RemapOk(m: Machine, t: Tree, pages: seq<Addr>, flags: seq<Flags>)
    requires TreeOk(m, t) && SpaceOk(m.mem, t, 0, [], []) && (0, 256) in t.pt
    requires |flags| == |pages| <= WINDOW
    requires forall j :: 0 <= j < |pages| ==> pages[j] % PAGE == 0 && flags[j].present && flags[j].user
    ensures MapPages(m, t.p4, 0, pages, flags).Ok?
    ensures var m' := MapPages(m, t.p4, 0, pages, flags).value;
            TreeOk(m', t) && Moves(m, m', t, t) && SpaceOk(m'.mem, t, 0, pages, flags) && m'.pool == m.pool
  {
    TakeNone(pages);
    TakeNone(flags);
    WindowIndices(USER_BASE);
    MapPagesOk(m, t, 0, pages, flags);
  }

  lemma RebuiltSwapped(m: Machine, m1: Machine, m2: Machine, m': Machine, p: Process, pages: seq<Addr>,
                       flags: seq<Flags>)
    requires p.Process? && Ready(m, p)
    requires TreeOk(m', p.tree) && SpaceOk(m'.mem, p.tree, 0, pages, flags)
    requires HEAP_PAGES + 2 <= |flags| == |pages| <= WINDOW && NoDup(pages)
    requires m.pool.Free() == m1.pool.Free() + |pages| && m'.pool.Free() == m1.pool.Free() + |p.pages|
    requires forall x: Addr :: x in pages ==> InPool(m.pool, x) && !InPool(m1.pool, x) && !Owns(p.tree, x)
    requires forall x: Addr :: InPool(m.pool, x) <==> x in pages || InPool(m1.pool, x)
    requires forall x: Addr :: InPool(m'.pool, x) <==> InPool(m1.pool, x) || x in p.pages
    requires forall x: Addr :: x in m.mem && x !in pages ==> x in m1.mem && m1.mem[x] == m.mem[x]
    requires forall x: Addr :: x in m1.mem && !Owns(p.tree, x) ==> x in m2.mem && m2.mem[x] == m1.mem[x]
    requires forall x: Addr :: x in m2.mem && !Owns(p.tree, x) ==> x in m'.mem && m'.mem[x] == m2.mem[x]
    ensures Swapped(m, p, m', Process(p.tree, pages, flags, HeapBase(|pages|)))
  {
    BreakOk(|pages|);
    var p' := Process(p.tree, pages, flags, HeapBase(|pages|));
    assert ProcessOk(m'.mem, p');
    assert forall x: Addr :: Holds(p', x) <==> Owns(p.tree, x) || x in pages;
    assert forall x: Addr :: Holds(p, x) <==> Owns(p.tree, x) || x in p.pages;
  }

  /** Reaping a process hands back its pages and its seven tables, each once. */
  lemma DestroyOk(m: Machine, p: Process)
    requires Ready(m, p)
    ensures Destroy(m, p).Ok? && Swapped(m, p, Destroy(m, p).value, Nobody)
    ensures Destroy(m, p).value.pool.unused == m.pool.unused
  {
    if p.Process? {
      ReturnPages(m.pool, p);
      FreeListExact(m.mem, p.tree);
      SevenFrames(m.mem, p.tree);
      ReturnTables(m, p, Give(m.pool, p.pages).value, FreeList(m.mem, p.tree.p4));
    }
  }

  lemma ReturnTables(m: Machine, p: Process, pool1: Pool, tables: seq<Addr>)
    requires p.Process? && Ready(m, p)
    requires PoolOk(pool1) && pool1 == m.pool.(recycled := m.pool.recycled + p.pages)
    requires forall x: Addr :: InPool(pool1, x) <==> InPool(m.pool, x) || x in p.pages
    requires NoDup(tables) && |tables| == 7 && forall x: Addr :: x in tables <==> Owns(p.tree, x)
    ensures Give(pool1, tables) == Ok(pool1.(recycled := pool1.recycled + tables))
    ensures Swapped(m, p, m.(pool := Give(pool1, tables).value), Nobody)
  {
    forall i | 0 <= i < |tables|
      ensures GoodFrame(tables[i])
    {
      assert tables[i] in tables && Holds(p, tables[i]);
    }
    GiveMoves(pool1, tables);
    GivenPoolOk(pool1, tables);
    var pool2 := pool1.(recycled := pool1.recycled + tables);
    EmptiedSwapped(m, p, pool2);
  }

  lemma EmptiedSwapped(m: Machine, p: Process, pool: Pool)
    requires p.Process? && PoolOk(pool) && pool.Free() == m.pool.Free() + p.Size()
    requires forall x: Addr :: InPool(pool, x) <==> InPool(m.pool, x) || x in p.pages || Owns(p.tree, x)
    ensures Swapped(m, p, m.(pool := pool), Nobody)
  {
    assert forall x: Addr :: Holds(p, x) <==> Owns(p.tree, x) || x in p.pages;
  }
}
