/**
 Address spaces as the process code uses them: creating one, mapping and
 unmapping the pages of an image in it, and freeing it, on values.
 */
module Spaces {
  import opened Base
  import opened Frames
  import opened PageTables
  import opened Refinement

  /** The user region starts at 0x20000000 and has room for 64 + 4 + 1 pages. */
  const USER_BASE: nat := 131072
  const WINDOW: nat := 69

  // ---------------------------------------------------------------------
  // Creating an address space
  // ---------------------------------------------------------------------

  /** Directory i maps its 1 GiB onto itself by 2 MiB leaves. */
  function IdentityDirectory(i: nat): (r: seq<Word>)
    ensures |r| == SLOTS
    ensures forall j :: 0 <= j < SLOTS ==> r[j] == Word((i * 512 + j) * 0x200000, BIG)
  {
    seq(SLOTS, j requires 0 <= j < SLOTS => Word((i * 512 + j) * 0x200000, BIG))
  }

  /** The tree over six frames, in the order they are allocated. */
  function NewTree(frames: seq<Addr>): (t: Tree)
    requires |frames| == 6
  {
    Tree(frames[0], frames[1], frames[2..], map[])
  }

  function NewMem(mem: Mem, t: Tree): (r: Mem)
    requires |t.p2| == DIRECTORIES
  {
    mem[t.p4 := [Word(t.p3, RW)] + Repeat(ZERO, 511)]
       [t.p3 := [Word(t.p2[0], RW), Word(t.p2[1], RW), Word(t.p2[2], RW), Word(t.p2[3], RW)] + Repeat(ZERO, 508)]
       [t.p2[0] := IdentityDirectory(0)][t.p2[1] := IdentityDirectory(1)]
       [t.p2[2] := IdentityDirectory(2)][t.p2[3] := IdentityDirectory(3)]
  }

  /** vmm_create_task_address_space, and the same tables as init_vmm builds. */
  function Create(m: Machine): (r: Outcome<(Machine, Tree)>) {
    var (frames, pool) :- Take(m.pool, 6);
    Ok((Machine(NewMem(m.mem, NewTree(frames)), pool), NewTree(frames)))
  }

  lemma NewShape(mem: Mem, frames: seq<Addr>)
    requires |frames| == 6 && NoDup(frames)
    ensures Shape(NewMem(mem, NewTree(frames)), NewTree(frames))
  {
    var t := NewTree(frames);
    var b := NewMem(mem, t);
    assert forall i :: 0 <= i < 4 ==> t.p2[i] == frames[i + 2];
    assert t.p4 !in t.p2 && t.p3 !in t.p2;
    assert Distinct(t);
    assert b[t.p4][0] == Word(t.p3, RW);
    assert Upper(b, t);
    NewLower(b, t);
  }

  lemma NewLower(b: Mem, t: Tree)
    requires |t.p2| == DIRECTORIES && t.pt == map[]
    requires forall i :: 0 <= i < DIRECTORIES ==> t.p2[i] in b && b[t.p2[i]] == IdentityDirectory(i)
    ensures Lower(b, t)
  {
    forall i, j | 0 <= i < DIRECTORIES && 0 <= j < SLOTS
      ensures BigLeaf(Slot(b, t.p2[i], j))
    {
      assert Slot(b, t.p2[i], j) == Word((i * 512 + j) * 0x200000, BIG);
    }
  }

  /** In a new address space every page maps to itself, for the supervisor only. */
  lemma NewIsIdentity(mem: Mem, frames: seq<Addr>, v: nat)
    requires |frames| == 6 && NoDup(frames) && v < SPAN
    ensures Walk(NewMem(mem, NewTree(frames)), frames[0], v) == Some(Leaf(v * PAGE, RW))
  {
    var t := NewTree(frames);
    var b := NewMem(mem, t);
    NewShape(mem, frames);
    WalkIsTreeWalk(b, t, v);
    var i, j := P3(v), P2(v);
    NewEntry(mem, frames, i, j);
    Digits(v);
    IdentityLeaf(i * 512 + j, P1(v));
  }

  lemma NewEntry(mem: Mem, frames: seq<Addr>, i: nat, j: nat)
    requires |frames| == 6 && NoDup(frames) && i < DIRECTORIES && j < SLOTS
    ensures Slot(NewMem(mem, NewTree(frames)), frames[i + 2], j) == Word((i * 512 + j) * 0x200000, BIG)
  {
    assert NewMem(mem, NewTree(frames))[frames[i + 2]] == IdentityDirectory(i);
  }

  /** The k-th page of the q-th 2 MiB leaf is page 512q + k. */
  lemma IdentityLeaf(q: nat, k: nat)
    ensures LargeLeaf(Word(q * 0x200000, BIG), k) == Leaf((q * 512 + k) * PAGE, RW)
  {
    AlignedBase(q);
  }

  lemma AlignedBase(q: nat)
    ensures q * 0x200000 % 0x200000 == 0
  {
  }

  // ---------------------------------------------------------------------
  // One tree and the pool
  // ---------------------------------------------------------------------

  /** A page table entry has the user bit only below entries that have it. */
  ghost predicate UserClosed(mem: Mem, t: Tree)
    requires |t.p2| == DIRECTORIES
  {
    forall k, s :: k in t.pt && 0 <= s < SLOTS && UserBit(Slot(mem, t.pt[k], s)) ==> UpperUser(mem, t, k)
  }

  ghost predicate UpperUser(mem: Mem, t: Tree, k: (nat, nat))
    requires |t.p2| == DIRECTORIES
  {
    && UserBit(Slot(mem, t.p4, 0))
    && UserBit(Slot(mem, t.p3, k.0))
    && (k.0 < DIRECTORIES ==> UserBit(Slot(mem, t.p2[k.0], k.1)))
  }

  /** Under UserClosed the user bit ANDed over the levels is the leaf's own. */
  lemma UserWalkIsLeaf(mem: Mem, t: Tree, v: nat)
    requires Shape(mem, t) && UserClosed(mem, t) && v < SPAN
    ensures UserWalk(mem, t.p4, v) <==> Walk(mem, t.p4, v).Some? && Walk(mem, t.p4, v).value.flags.user
  {
    var i, j := P3(v), P2(v);
    assert Link(Slot(mem, t.p3, i), t.p2[i]);
    if (i, j) in t.pt {
      assert Link(Slot(mem, t.p2[i], j), t.pt[(i, j)]);
      if UserBit(Slot(mem, t.pt[(i, j)], P1(v))) {
        assert UpperUser(mem, t, (i, j));
      }
    } else {
      assert BigLeaf(Slot(mem, t.p2[i], j));
    }
  }

  ghost predicate TreeOk(m: Machine, t: Tree) {
    && Shape(m.mem, t) && UserClosed(m.mem, t)
    && PoolOk(m.pool) && Unowned(m.pool, t)
  }

  /** Only t's frames changed, and frames moved between the pool and t alone. */
  ghost predicate Moves(m: Machine, m': Machine, t: Tree, t': Tree) {
    && t'.p4 == t.p4
    && (forall x: Addr :: x in m.mem && !Owns(t', x) ==> x in m'.mem && m'.mem[x] == m.mem[x])
    && (forall x: Addr :: Owns(t, x) ==> Owns(t', x))
    && (forall x: Addr :: InPool(m.pool, x) || Owns(t, x) <==> InPool(m'.pool, x) || Owns(t', x))
  }

  lemma MovesTwice(m: Machine, m1: Machine, m2: Machine, t: Tree, t1: Tree, t2: Tree)
    requires Moves(m, m1, t, t1) && Moves(m1, m2, t1, t2)
    ensures Moves(m, m2, t, t2)
  {
  }

  lemma SplitUserClosed(mem: Mem, t: Tree, v: nat, pt: Addr)
    requires Shape(mem, t) && UserClosed(mem, t) && v < SPAN && (P3(v), P2(v)) !in t.pt && !Owns(t, pt)
    ensures UserClosed(SplitMem(mem, t.p2[P3(v)], v, pt), SplitTree(t, v, pt))
  {
    var b, t' := SplitMem(mem, t.p2[P3(v)], v, pt), SplitTree(t, v, pt);
    assert t.p2[P3(v)] in t.p2;
    SplitSlots(mem, t.p2[P3(v)], v, pt);
    assert forall s :: 0 <= s < SLOTS ==> Slot(b, pt, s) == b[pt][s] && !UserBit(Slot(b, pt, s));
    forall k, s | k in t'.pt && 0 <= s < SLOTS && UserBit(Slot(b, t'.pt[k], s))
      ensures UpperUser(b, t', k)
    {
      if k != (P3(v), P2(v)) {
        assert Owns(t, t.pt[k]);
        assert Slot(b, t.pt[k], s) == Slot(mem, t.pt[k], s);
        assert UpperUser(mem, t, k);
        assert t.p2[k.0] in t.p2;
      }
    }
  }

  lemma SplitStep(m: Machine, t: Tree, v: nat)
    requires TreeOk(m, t) && v < SPAN
    requires (P3(v), P2(v)) in t.pt || m.pool.Free() > 0
    ensures Split(m, t.p4, v).Ok?
    ensures var (m1, pt) := Split(m, t.p4, v).value;
            var t1 := SplitTree(t, v, pt);
            && TreeOk(m1, t1) && Moves(m, m1, t, t1) && View(m1.mem, t.p4) == View(m.mem, t.p4)
            && ((P3(v), P2(v)) in t.pt ==> t1 == t && m1 == m)
            && ((P3(v), P2(v)) !in t.pt ==> Some((pt, m1.pool)) == Alloc(m.pool))
  {
    var f := map[t.p4 := t];
    SplitOk(m, f, t.p4, v);
    if (P3(v), P2(v)) in t.pt {
      SplitAgain(f, t.p4, v);
      assert f[t.p4] == t;
      assert SplitTree(t, v, t.pt[(P3(v), P2(v))]) == t;
    } else {
      FirstSplitStep(m, t, v);
    }
  }

  lemma FirstSplitStep(m: Machine, t: Tree, v: nat)
    requires TreeOk(m, t) && v < SPAN && (P3(v), P2(v)) !in t.pt && m.pool.Free() > 0
    ensures var (pt, pool) := Alloc(m.pool).value;
            var m1 := Machine(SplitMem(m.mem, t.p2[P3(v)], v, pt), pool);
            var t1 := SplitTree(t, v, pt);
            TreeOk(m1, t1) && Moves(m, m1, t, t1) && View(m1.mem, t.p4) == View(m.mem, t.p4)
  {
    SplitReworks(m, t, v);
    AllocMoves(m.pool);
    SplitUserClosed(m.mem, t, v, Top(m.pool));
    SplitOwns(t, v, Top(m.pool));
  }

  /** One write into page v's table entry, with the user bits above it raised if asked. */
  function Written(m: Machine, t: Tree, v: nat, raise: bool, e: Word): (r: Machine)
    requires (P3(v), P2(v)) in t.pt
  {
    var mem := if raise then RaiseUser(m.mem, t.p4, v) else m.mem;
    m.(mem := Put(mem, t.pt[(P3(v), P2(v))], P1(v), e))
  }

  lemma RaiseStep(m: Machine, t: Tree, v: nat)
    requires TreeOk(m, t) && v < SPAN && (P3(v), P2(v)) in t.pt
    ensures var m' := m.(mem := RaiseUser(m.mem, t.p4, v));
            && TreeOk(m', t) && Moves(m, m', t, t) && View(m'.mem, t.p4) == View(m.mem, t.p4)
            && UpperUser(m'.mem, t, (P3(v), P2(v)))
            && Slot(m'.mem, t.pt[(P3(v), P2(v))], P1(v)) == Slot(m.mem, t.pt[(P3(v), P2(v))], P1(v))
  {
    RaiseReworks(m, t, v);
    var b := RaiseUser(m.mem, t.p4, v);
    forall k, s | k in t.pt && 0 <= s < SLOTS && UserBit(Slot(b, t.pt[k], s))
      ensures UpperUser(b, t, k)
    {
      assert UserBit(Slot(m.mem, t.pt[k], s));
      assert UpperUser(m.mem, t, k);
    }
  }

  lemma LeafStep(m: Machine, t: Tree, v: nat, e: Word)
    requires TreeOk(m, t) && v < SPAN && (P3(v), P2(v)) in t.pt && (e == ZERO || Present(e))
    requires UserBit(e) ==> UpperUser(m.mem, t, (P3(v), P2(v)))
    ensures var m' := Written(m, t, v, false, e);
            && TreeOk(m', t) && Moves(m, m', t, t)
            && View(m'.mem, t.p4) == Updated(View(m.mem, t.p4), v, SmallLeaf(e))
  {
    LeafReworks(m, t, v, e);
    LeafUserClosed(m.mem, t, v, e);
  }

  lemma LeafUserClosed(mem: Mem, t: Tree, v: nat, e: Word)
    requires Shape(mem, t) && UserClosed(mem, t) && v < SPAN && (P3(v), P2(v)) in t.pt
    requires UserBit(e) ==> UpperUser(mem, t, (P3(v), P2(v)))
    ensures UserClosed(Put(mem, t.pt[(P3(v), P2(v))], P1(v), e), t)
  {
    var k0 := (P3(v), P2(v));
    var b := Put(mem, t.pt[k0], P1(v), e);
    assert TableOk(mem, t.pt[k0]);
    forall k, s | k in t.pt && 0 <= s < SLOTS && UserBit(Slot(b, t.pt[k], s))
      ensures UpperUser(b, t, k)
    {
      assert t.p2[k.0] in t.p2;
      assert k != k0 || s != P1(v) ==> Slot(b, t.pt[k], s) == Slot(mem, t.pt[k], s);
      assert UpperUser(mem, t, k);
    }
  }

  lemma WriteStep(m: Machine, t: Tree, v: nat, raise: bool, e: Word)
    requires TreeOk(m, t) && v < SPAN && (P3(v), P2(v)) in t.pt && (e == ZERO || Present(e))
    requires UserBit(e) ==> raise
    ensures var m' := Written(m, t, v, raise, e);
            && TreeOk(m', t) && Moves(m, m', t, t) && m'.pool == m.pool
            && View(m'.mem, t.p4) == Updated(View(m.mem, t.p4), v, SmallLeaf(e))
  {
    var m1 := m;
    if raise {
      RaiseStep(m, t, v);
      m1 := m.(mem := RaiseUser(m.mem, t.p4, v));
    }
    LeafStep(m1, t, v, e);
    if raise {
      MovesTwice(m, m1, Written(m, t, v, raise, e), t, t, t);
    }
  }

  /** The tree after page v's table has been made sure of. */
  function Opened(m: Machine, t: Tree, v: nat): (r: Tree) {
    if (P3(v), P2(v)) in t.pt || m.pool.Free() == 0 then t
    else SplitTree(t, v, Alloc(m.pool).value.0)
  }

  lemma PageArith(v: nat)
    ensures v * PAGE / PAGE == v && v * PAGE % PAGE == 0
  {
  }

  /** Unmapping a mapped page takes exactly that page away. */
  lemma UnmapStep(m: Machine, t: Tree, v: nat)
    requires TreeOk(m, t) && v < SPAN && v in View(m.mem, t.p4)
    requires (P3(v), P2(v)) in t.pt || m.pool.Free() > 0
    ensures Unmap(m, t.p4, v * PAGE).Ok?
    ensures var m', t' := Unmap(m, t.p4, v * PAGE).value, Opened(m, t, v);
            && TreeOk(m', t') && Moves(m, m', t, t') && (P3(v), P2(v)) in t'.pt
            && View(m'.mem, t.p4) == Updated(View(m.mem, t.p4), v, None)
            && m'.pool == (if (P3(v), P2(v)) in t.pt then m.pool else Alloc(m.pool).value.1)
  {
    PageArith(v);
    SplitStep(m, t, v);
    var (m1, pt) := Split(m, t.p4, v).value;
    var t1 := SplitTree(t, v, pt);
    assert t1 == Opened(m, t, v);
    EntryByView(m1.mem, t1, v);
    WriteStep(m1, t1, v, false, ZERO);
    MovesTwice(m, m1, Written(m1, t1, v, false, ZERO), t, t1, t1);
  }

  /** Mapping an unmapped page for the user adds exactly that page. */
  lemma MapStep(m: Machine, t: Tree, v: nat, phys: Addr, flags: Flags)
    requires TreeOk(m, t) && v < SPAN && v !in View(m.mem, t.p4)
    requires (P3(v), P2(v)) in t.pt && phys % PAGE == 0 && flags.user
    ensures Map(m, t.p4, v * PAGE, phys, flags, true).Ok?
    ensures var m' := Map(m, t.p4, v * PAGE, phys, flags, true).value;
            && TreeOk(m', t) && Moves(m, m', t, t) && m'.pool == m.pool
            && View(m'.mem, t.p4) == Updated(View(m.mem, t.p4), v, Some(Leaf(phys, flags.(present := true))))
  {
    PageArith(v);
    SplitStep(m, t, v);
    EntryByView(m.mem, t, v);
    RaiseStep(m, t, v);
    WriteStep(m, t, v, true, LeafWord(phys, flags));
  }

  // ---------------------------------------------------------------------
  // The user window
  // ---------------------------------------------------------------------

  function PageVirt(i: nat): (r: Addr) { (USER_BASE + i) * PAGE }

  /** One turn of scheduler_map_user_image_pages. */
  function MapOne(m: Machine, root: Addr, i: nat, phys: Addr, flags: Flags): (r: Outcome<Machine>) {
    var m1 :- if Translate(m.mem, root, PageVirt(i)) != 0 then Unmap(m, root, PageVirt(i)) else Ok(m);
    Map(m1, root, PageVirt(i), phys, flags, true)
  }

  function MapPages(m: Machine, root: Addr, i: nat, pages: seq<Addr>, flags: seq<Flags>): (r: Outcome<Machine>)
    requires |flags| == |pages|
    decreases |pages| - i
  {
    if i >= |pages| then Ok(m)
    else
      var m1 :- MapOne(m, root, i, pages[i], flags[i]);
      MapPages(m1, root, i + 1, pages, flags)
  }

  /** scheduler_unmap_user_image_pages from page i on. */
  function UnmapPages(m: Machine, root: Addr, i: nat, n: nat): (r: Outcome<Machine>)
    decreases n - i
  {
    if i >= n then Ok(m)
    else
      var m1 :- Unmap(m, root, PageVirt(i));
      UnmapPages(m1, root, i + 1, n)
  }

  ghost predicate PageOk(leaf: Option<Leaf>, v: nat, lo: nat, pages: seq<Addr>, flags: seq<Flags>)
    requires |flags| == |pages|
  {
    if USER_BASE + lo <= v < USER_BASE + |pages| then
      leaf == Some(Leaf(pages[v - USER_BASE], flags[v - USER_BASE]))
    else if USER_BASE <= v < USER_BASE + WINDOW then
      leaf == None || leaf == Some(Leaf(v * PAGE, RW))
    else leaf == Some(Leaf(v * PAGE, RW))
  }

  /** User pages lo, lo+1, ... map to the given frames; the rest of the window
      is unmapped or maps to itself; outside it everything maps to itself. */
  ghost predicate SpaceOk(mem: Mem, t: Tree, lo: nat, pages: seq<Addr>, flags: seq<Flags>) {
    && |flags| == |pages| <= WINDOW
    && OneTable(t)
    && (forall i :: 0 <= i < |flags| ==> flags[i].present && flags[i].user)
    && (forall v: nat :: v < SPAN ==> PageOk(Walk(mem, t.p4, v), v, lo, pages, flags))
  }

  lemma WindowIndices(v: nat)
    requires USER_BASE <= v < USER_BASE + WINDOW
    ensures P3(v) == 0 && P2(v) == 256 && v < SPAN
  {
  }

  lemma OpenedKeys(m: Machine, t: Tree, v: nat)
    requires USER_BASE <= v < USER_BASE + WINDOW && OneTable(t)
    ensures OneTable(Opened(m, t, v))
  {
    WindowIndices(v);
  }

  /** The two memories agree on every page of the root but v. */
  ghost predicate SameElsewhere(a: Mem, b: Mem, root: Addr, v: nat) {
    forall w: nat :: w < SPAN && w != v ==> Walk(b, root, w) == Walk(a, root, w)
  }

  lemma UpdatedElsewhere(a: Mem, b: Mem, root: Addr, v: nat, leaf: Option<Leaf>)
    requires v < SPAN && View(b, root) == Updated(View(a, root), v, leaf)
    ensures SameElsewhere(a, b, root, v) && Walk(b, root, v) == leaf
  {
    forall w: nat | w < SPAN
      ensures Walk(b, root, w) == if w == v then leaf else Walk(a, root, w)
    {
      assert w in View(b, root) <==> Walk(b, root, w).Some?;
      assert w in View(a, root) <==> Walk(a, root, w).Some?;
    }
  }

  /** The tree once the window's page table exists. */
  function WithWindow(m: Machine, t: Tree): (r: Tree) { Opened(m, t, USER_BASE) }

  lemma OpenedIsWindow(m: Machine, t: Tree, i: nat)
    requires i < WINDOW
    ensures Opened(m, t, USER_BASE + i) == WithWindow(m, t)
  {
    WindowIndices(USER_BASE + i);
    WindowIndices(USER_BASE);
  }

  ghost predicate OneTable(t: Tree) {
    forall k :: k in t.pt ==> k == (0, 256)
  }

  lemma UnmapWindow(m: Machine, t: Tree, i: nat)
    requires TreeOk(m, t) && OneTable(t) && i < WINDOW && Walk(m.mem, t.p4, USER_BASE + i).Some?
    requires (0, 256) in t.pt || m.pool.Free() > 0
    ensures Unmap(m, t.p4, PageVirt(i)).Ok?
    ensures var m', t' := Unmap(m, t.p4, PageVirt(i)).value, WithWindow(m, t);
            && TreeOk(m', t') && Moves(m, m', t, t') && OneTable(t') && (0, 256) in t'.pt
            && Walk(m'.mem, t.p4, USER_BASE + i).None? && SameElsewhere(m.mem, m'.mem, t.p4, USER_BASE + i)
            && m'.pool == (if (0, 256) in t.pt then m.pool else Alloc(m.pool).value.1)
            && ((0, 256) in t.pt ==> t' == t)
  {
    var v := USER_BASE + i;
    WindowIndices(v);
    OpenedIsWindow(m, t, i);
    UnmapStep(m, t, v);
    OpenedKeys(m, t, v);
    UpdatedElsewhere(m.mem, Unmap(m, t.p4, v * PAGE).value.mem, t.p4, v, None);
  }

  /** The page about to be mapped is first taken away if it maps to itself. */
  function Clear(m: Machine, root: Addr, i: nat): (r: Outcome<Machine>) {
    if Translate(m.mem, root, PageVirt(i)) != 0 then Unmap(m, root, PageVirt(i)) else Ok(m)
  }

  lemma TranslateWindow(mem: Mem, t: Tree, pages: seq<Addr>, flags: seq<Flags>)
    requires SpaceOk(mem, t, 0, pages, flags) && |pages| < WINDOW
    ensures Translate(mem, t.p4, PageVirt(|pages|)) != 0 <==> Walk(mem, t.p4, USER_BASE + |pages|).Some?
  {
    var v := USER_BASE + |pages|;
    WindowIndices(v);
    PageArith(v);
    assert PageOk(Walk(mem, t.p4, v), v, 0, pages, flags);
  }

  lemma ClearOk(m: Machine, t: Tree, pages: seq<Addr>, flags: seq<Flags>)
    requires TreeOk(m, t) && SpaceOk(m.mem, t, 0, pages, flags) && |pages| < WINDOW
    requires (0, 256) in t.pt || m.pool.Free() > 0
    ensures Clear(m, t.p4, |pages|).Ok?
    ensures var m', v, t' := Clear(m, t.p4, |pages|).value, USER_BASE + |pages|, WithWindow(m, t);
            && TreeOk(m', t') && Moves(m, m', t, t')
            && Walk(m'.mem, t.p4, v).None? && SameElsewhere(m.mem, m'.mem, t.p4, v)
            && (0, 256) in t'.pt && OneTable(t')
            && m'.pool == (if (0, 256) in t.pt then m.pool else Alloc(m.pool).value.1)
  {
    var v := USER_BASE + |pages|;
    TranslateWindow(m.mem, t, pages, flags);
    if Walk(m.mem, t.p4, v).Some? {
      UnmapWindow(m, t, |pages|);
    } else {
      WindowIndices(v);
      WindowIndices(USER_BASE);
      UnmappedIsSplit(m.mem, t, v);
    }
  }

  /** One more user page: never "map over present entry". */
  lemma MapOneOk(m: Machine, t: Tree, pages: seq<Addr>, flags: seq<Flags>, a: Addr, fl: Flags)
    requires TreeOk(m, t) && SpaceOk(m.mem, t, 0, pages, flags) && |pages| < WINDOW
    requires a % PAGE == 0 && fl.present && fl.user
    requires (0, 256) in t.pt || m.pool.Free() > 0
    ensures MapOne(m, t.p4, |pages|, a, fl).Ok?
    ensures var m', t' := MapOne(m, t.p4, |pages|, a, fl).value, WithWindow(m, t);
            && TreeOk(m', t') && Moves(m, m', t, t')
            && SpaceOk(m'.mem, t', 0, pages + [a], flags + [fl])
            && (0, 256) in t'.pt
            && m'.pool == (if (0, 256) in t.pt then m.pool else Alloc(m.pool).value.1)
  {
    var v := USER_BASE + |pages|;
    WindowIndices(v);
    var t' := WithWindow(m, t);
    ClearOk(m, t, pages, flags);
    var m1 := Clear(m, t.p4, |pages|).value;
    MapStep(m1, t', v, a, fl);
    var m' := Map(m1, t.p4, v * PAGE, a, fl, true).value;
    MovesTwice(m, m1, m', t, t', t');
    UpdatedElsewhere(m1.mem, m'.mem, t.p4, v, Some(Leaf(a, fl)));
    GrowSpace(m.mem, m'.mem, t, t', pages, flags, a, fl);
  }

  lemma UnmappedIsSplit(mem: Mem, t: Tree, v: nat)
    requires Shape(mem, t) && v < SPAN && Walk(mem, t.p4, v).None?
    ensures (P3(v), P2(v)) in t.pt
  {
    WalkIsTreeWalk(mem, t, v);
  }

  lemma GrowSpace(a: Mem, b: Mem, t: Tree, t': Tree, pages: seq<Addr>, flags: seq<Flags>, phys: Addr, fl: Flags)
    requires SpaceOk(a, t, 0, pages, flags) && |pages| < WINDOW && fl.present && fl.user
    requires t'.p4 == t.p4 && OneTable(t')
    requires SameElsewhere(a, b, t.p4, USER_BASE + |pages|)
    requires Walk(b, t.p4, USER_BASE + |pages|) == Some(Leaf(phys, fl))
    ensures SpaceOk(b, t', 0, pages + [phys], flags + [fl])
  {
    forall v: nat | v < SPAN
      ensures PageOk(Walk(b, t'.p4, v), v, 0, pages + [phys], flags + [fl])
    {
      assert PageOk(Walk(a, t.p4, v), v, 0, pages, flags);
    }
  }

  /** Mapping an image's pages succeeds from any state of the window, and gives
      exactly the pages of the image. */
  lemma {:induction false} MapPagesOk(m: Machine, t: Tree, i: nat, pages: seq<Addr>, flags: seq<Flags>)
    requires TreeOk(m, t) && |flags| == |pages| <= WINDOW && i <= |pages|
    requires SpaceOk(m.mem, t, 0, pages[..i], flags[..i])
    requires forall j :: 0 <= j < |pages| ==> pages[j] % PAGE == 0 && flags[j].present && flags[j].user
    requires (0, 256) in t.pt || (m.pool.Free() > 0 && i < |pages|)
    ensures MapPages(m, t.p4, i, pages, flags).Ok?
    ensures var m', t' := MapPages(m, t.p4, i, pages, flags).value, WithWindow(m, t);
            && TreeOk(m', t') && Moves(m, m', t, t') && SpaceOk(m'.mem, t', 0, pages, flags) && (0, 256) in t'.pt
            && m'.pool == (if (0, 256) in t.pt then m.pool else Alloc(m.pool).value.1)
    decreases |pages| - i
  {
    WindowIndices(USER_BASE);
    if i == |pages| {
      TakeAll(pages);
      TakeAll(flags);
    } else {
      TakeOneMore(pages, i);
      TakeOneMore(flags, i);
      MapOneOk(m, t, pages[..i], flags[..i], pages[i], flags[i]);
      var m1, t1 := MapOne(m, t.p4, i, pages[i], flags[i]).value, WithWindow(m, t);
      MapPagesOk(m1, t1, i + 1, pages, flags);
      MovesTwice(m, m1, MapPages(m, t.p4, i, pages, flags).value, t, t1, t1);
    }
  }

  /** Unmapping the old image's pages succeeds and empties the window of them. */
  lemma {:induction false} UnmapPagesOk(m: Machine, t: Tree, i: nat, pages: seq<Addr>, flags: seq<Flags>)
    requires TreeOk(m, t) && SpaceOk(m.mem, t, i, pages, flags) && i <= |pages| && (0, 256) in t.pt
    ensures UnmapPages(m, t.p4, i, |pages|).Ok?
    ensures var m' := UnmapPages(m, t.p4, i, |pages|).value;
            TreeOk(m', t) && Moves(m, m', t, t) && SpaceOk(m'.mem, t, 0, [], []) && m'.pool == m.pool
    decreases |pages| - i
  {
    if i == |pages| {
      EmptySpace(m.mem, t, pages, flags);
    } else {
      var v := USER_BASE + i;
      assert PageOk(Walk(m.mem, t.p4, v), v, i, pages, flags);
      UnmapWindow(m, t, i);
      var m1 := Unmap(m, t.p4, PageVirt(i)).value;
      ShrinkSpace(m.mem, m1.mem, t, i, pages, flags);
      UnmapPagesOk(m1, t, i + 1, pages, flags);
      MovesTwice(m, m1, UnmapPages(m, t.p4, i, |pages|).value, t, t, t);
    }
  }

  lemma EmptySpace(mem: Mem, t: Tree, pages: seq<Addr>, flags: seq<Flags>)
    requires SpaceOk(mem, t, |pages|, pages, flags)
    ensures SpaceOk(mem, t, 0, [], [])
  {
    forall v: nat | v < SPAN
      ensures PageOk(Walk(mem, t.p4, v), v, 0, [], [])
    {
      assert PageOk(Walk(mem, t.p4, v), v, |pages|, pages, flags);
    }
  }

  lemma ShrinkSpace(a: Mem, b: Mem, t: Tree, i: nat, pages: seq<Addr>, flags: seq<Flags>)
    requires SpaceOk(a, t, i, pages, flags) && i < |pages|
    requires SameElsewhere(a, b, t.p4, USER_BASE + i) && Walk(b, t.p4, USER_BASE + i) == None
    ensures SpaceOk(b, t, i + 1, pages, flags)
  {
    forall v: nat | v < SPAN
      ensures PageOk(Walk(b, t.p4, v), v, i + 1, pages, flags)
    {
      assert PageOk(Walk(a, t.p4, v), v, i, pages, flags);
    }
  }

  // ---------------------------------------------------------------------
  // Freeing an address space
  // ---------------------------------------------------------------------

  /** The page tables a directory points to, from entry j on. */
  function DirTables(mem: Mem, p2: Addr, j: nat): (r: seq<Addr>)
    decreases SLOTS - j, |mem|
  {
    if j >= SLOTS then []
    else
      var e := Slot(mem, p2, j);
      (if Present(e) && !Large(e) then [e.base] else []) + DirTables(mem, p2, j + 1)
  }

  /** The tables below a pointer table, from entry i on, each directory after its page tables. */
  function SpaceTables(mem: Mem, p3: Addr, i: nat): (r: seq<Addr>)
    decreases DIRECTORIES - i, |mem|
  {
    if i >= DIRECTORIES then []
    else
      var e := Slot(mem, p3, i);
      (if Present(e) then DirTables(mem, e.base, 0) + [e.base] else []) + SpaceTables(mem, p3, i + 1)
  }

  /** What vmm_free_cloned_address_space hands back, in its order. */
  function FreeList(mem: Mem, root: Addr): (r: seq<Addr>) {
    var p3 := Slot(mem, root, 0).base;
    SpaceTables(mem, p3, 0) + [p3, root]
  }

  function FreeSpace(m: Machine, root: Addr): (r: Outcome<Machine>) {
    if !Present(Slot(m.mem, root, 0)) then Panic(MissingTable) else
    var pool :- Give(m.pool, FreeList(m.mem, root));
    Ok(m.(pool := pool))
  }

  ghost predicate RowOwns(t: Tree, i: nat, j: nat, x: Addr) {
    exists s: nat :: j <= s < SLOTS && (i, s) in t.pt && t.pt[(i, s)] == x
  }

  lemma {:induction false} DirExact(mem: Mem, t: Tree, i: nat, j: nat)
    requires Shape(mem, t) && i < DIRECTORIES && j <= SLOTS
    ensures NoDup(DirTables(mem, t.p2[i], j))
    ensures forall x: Addr :: x in DirTables(mem, t.p2[i], j) <==> RowOwns(t, i, j, x)
    decreases SLOTS - j
  {
    if j < SLOTS {
      DirExact(mem, t, i, j + 1);
      var rest := DirTables(mem, t.p2[i], j + 1);
      if (i, j) in t.pt {
        assert Link(Slot(mem, t.p2[i], j), t.pt[(i, j)]);
        assert DirTables(mem, t.p2[i], j) == [t.pt[(i, j)]] + rest;
      } else {
        assert BigLeaf(Slot(mem, t.p2[i], j));
        assert DirTables(mem, t.p2[i], j) == [] + rest;
      }
      RowJoin(t, i, j, rest);
    }
  }

  lemma NoDupCons(x: Addr, rest: seq<Addr>)
    requires NoDup(rest) && x !in rest
    ensures NoDup([x] + rest) && forall y: Addr :: y in [x] + rest <==> y == x || y in rest
  {
  }

  lemma RowJoin(t: Tree, i: nat, j: nat, rest: seq<Addr>)
    requires Distinct(t) && j < SLOTS && NoDup(rest) && forall x: Addr :: x in rest <==> RowOwns(t, i, j + 1, x)
    ensures var row := (if (i, j) in t.pt then [t.pt[(i, j)]] else []) + rest;
            NoDup(row) && forall x: Addr :: x in row <==> RowOwns(t, i, j, x)
  {
    if (i, j) in t.pt {
      assert !RowOwns(t, i, j + 1, t.pt[(i, j)]);
      NoDupCons(t.pt[(i, j)], rest);
    } else {
      assert [] + rest == rest;
    }
    forall x: Addr
      ensures RowOwns(t, i, j, x) <==> ((i, j) in t.pt && x == t.pt[(i, j)]) || RowOwns(t, i, j + 1, x)
    {
      RowStep(t, i, j, x);
    }
  }

  lemma RowStep(t: Tree, i: nat, j: nat, x: Addr)
    requires j < SLOTS
    ensures RowOwns(t, i, j, x) <==> ((i, j) in t.pt && x == t.pt[(i, j)]) || RowOwns(t, i, j + 1, x)
  {
    if (i, j) in t.pt && x == t.pt[(i, j)] {
      assert RowOwns(t, i, j, x);
    }
  }

  /** Frames of the directories from i on and of the page tables below them. */
  ghost predicate BelowOwns(t: Tree, i: nat, x: Addr) {
    exists k: nat :: i <= k < |t.p2| && (x == t.p2[k] || RowOwns(t, k, 0, x))
  }

  lemma {:induction false} SpaceExact(mem: Mem, t: Tree, i: nat)
    requires Shape(mem, t) && i <= DIRECTORIES
    ensures NoDup(SpaceTables(mem, t.p3, i))
    ensures forall x: Addr :: x in SpaceTables(mem, t.p3, i) <==> BelowOwns(t, i, x)
    decreases DIRECTORIES - i
  {
    if i < DIRECTORIES {
      SpaceExact(mem, t, i + 1);
      DirExact(mem, t, i, 0);
      SpaceUnfold(mem, t, i);
      RowsJoin(t, i, DirTables(mem, t.p2[i], 0), SpaceTables(mem, t.p3, i + 1));
    }
  }

  lemma SpaceUnfold(mem: Mem, t: Tree, i: nat)
    requires |t.p2| == DIRECTORIES && Upper(mem, t) && i < DIRECTORIES
    ensures SpaceTables(mem, t.p3, i) == DirTables(mem, t.p2[i], 0) + [t.p2[i]] + SpaceTables(mem, t.p3, i + 1)
  {
    assert Link(Slot(mem, t.p3, i), t.p2[i]);
  }

  lemma RowsJoin(t: Tree, i: nat, row: seq<Addr>, rest: seq<Addr>)
    requires Distinct(t) && i < DIRECTORIES && NoDup(row) && NoDup(rest)
    requires forall x: Addr :: x in row <==> RowOwns(t, i, 0, x)
    requires forall x: Addr :: x in rest <==> BelowOwns(t, i + 1, x)
    ensures NoDup(row + [t.p2[i]] + rest)
    ensures forall x: Addr :: x in row + [t.p2[i]] + rest <==> BelowOwns(t, i, x)
  {
    RowsApart(t, i);
    NoDupThree(row, t.p2[i], rest);
    forall x: Addr
      ensures x in row + [t.p2[i]] + rest <==> BelowOwns(t, i, x)
    {
      BelowStep(t, i, x);
    }
  }

  lemma BelowStep(t: Tree, i: nat, x: Addr)
    requires i < |t.p2|
    ensures BelowOwns(t, i, x) <==> x == t.p2[i] || RowOwns(t, i, 0, x) || BelowOwns(t, i + 1, x)
  {
    assert x == t.p2[i] || RowOwns(t, i, 0, x) ==> BelowOwns(t, i, x);
  }

  lemma NoDupThree(a: seq<Addr>, x: Addr, b: seq<Addr>)
    requires NoDup(a) && NoDup(b) && x !in a && x !in b && forall y: Addr :: y in a ==> y !in b
    ensures NoDup(a + [x] + b)
  {
    assert forall i :: 0 <= i < |a| ==> a[i] in a;
    assert forall i :: 0 <= i < |b| ==> b[i] in b;
  }

  lemma RowsApart(t: Tree, i: nat)
    requires Distinct(t) && i < DIRECTORIES
    ensures !RowOwns(t, i, 0, t.p2[i]) && !BelowOwns(t, i + 1, t.p2[i])
    ensures forall x: Addr :: RowOwns(t, i, 0, x) ==> !BelowOwns(t, i + 1, x)
  {
    assert forall k :: 0 <= k < |t.p2| ==> t.p2[k] in t.p2;
  }

  /** Freeing an address space hands back exactly the frames of its tree, each once. */
  lemma FreeListExact(mem: Mem, t: Tree)
    requires Shape(mem, t)
    ensures NoDup(FreeList(mem, t.p4))
    ensures forall x: Addr :: x in FreeList(mem, t.p4) <==> Owns(t, x)
  {
    SpaceExact(mem, t, 0);
    UpperApart(t);
    EndsWith(SpaceTables(mem, t.p3, 0), t.p3, t.p4);
    forall x: Addr
      ensures Owns(t, x) <==> x == t.p4 || x == t.p3 || BelowOwns(t, 0, x)
    {
      OwnsParts(t, x);
    }
  }

  lemma EndsWith(a: seq<Addr>, x: Addr, y: Addr)
    requires NoDup(a) && x !in a && y !in a && x != y
    ensures NoDup(a + [x, y]) && forall z: Addr :: z in a + [x, y] <==> z in a || z == x || z == y
  {
    assert forall i :: 0 <= i < |a| ==> a[i] in a;
  }

  lemma OwnsParts(t: Tree, x: Addr)
    requires Distinct(t)
    ensures Owns(t, x) <==> x == t.p4 || x == t.p3 || BelowOwns(t, 0, x)
  {
    if x in t.pt.Values {
      var k :| k in t.pt && t.pt[k] == x;
      assert (k.0, k.1) == k && RowOwns(t, k.0, 0, x);
      assert BelowOwns(t, 0, x);
    }
    if x in t.p2 {
      var k :| 0 <= k < |t.p2| && t.p2[k] == x;
      assert BelowOwns(t, 0, x);
    }
  }

  lemma UpperApart(t: Tree)
    requires Distinct(t)
    ensures !BelowOwns(t, 0, t.p4) && !BelowOwns(t, 0, t.p3)
  {
    assert forall k :: 0 <= k < |t.p2| ==> t.p2[k] in t.p2;
  }

  lemma {:induction false} DirCount(mem: Mem, t: Tree, i: nat, j: nat)
    requires Shape(mem, t) && OneTable(t) && (0, 256) in t.pt && i < DIRECTORIES && j <= SLOTS
    ensures |DirTables(mem, t.p2[i], j)| == if i == 0 && j <= 256 then 1 else 0
    decreases SLOTS - j
  {
    if j < SLOTS {
      DirCount(mem, t, i, j + 1);
      if (i, j) in t.pt {
        assert Link(Slot(mem, t.p2[i], j), t.pt[(i, j)]);
      } else {
        assert BigLeaf(Slot(mem, t.p2[i], j));
      }
    }
  }

  /** A task's tree is seven frames. */
  lemma SevenFrames(mem: Mem, t: Tree)
    requires Shape(mem, t) && OneTable(t) && (0, 256) in t.pt
    ensures |FreeList(mem, t.p4)| == 7
  {
    forall i | 0 <= i < DIRECTORIES
      ensures Link(Slot(mem, t.p3, i), t.p2[i]) && |DirTables(mem, t.p2[i], 0)| == if i == 0 then 1 else 0
    {
      DirCount(mem, t, i, 0);
    }
    assert |SpaceTables(mem, t.p3, 4)| == 0;
    assert |SpaceTables(mem, t.p3, 3)| == 1;
    assert |SpaceTables(mem, t.p3, 2)| == 2;
    assert |SpaceTables(mem, t.p3, 1)| == 3;
    assert |SpaceTables(mem, t.p3, 0)| == 5;
  }
}
