/**
 Page-table trees in physical memory and the four edits on them, on values.
 The walk is the 4-level walk of section 4.5 of Intel SDM volume 3A, restricted
 to the 4 GiB that four page directories of 2 MiB entries cover.
 */
module PageTables {
  import opened Base
  import opened Frames

  // ---------------------------------------------------------------------
  // Entries
  // ---------------------------------------------------------------------

  /** The low twelve bits of an entry: bits 0, 1, 2 and 7, and the other eight. */
  datatype Flags = Flags(present: bool, writable: bool, user: bool, large: bool, rest: nat)

  /** A 64-bit entry, as its page-aligned part and its low twelve bits. */
  datatype Word = Word(base: Addr, flags: Flags)

  // The flag words the kernel uses: 0x000, 0x003, 0x083, 0x005 and 0x007.
  const NONE := Flags(false, false, false, false, 0)
  const RW := Flags(true, true, false, false, 0)
  const BIG := Flags(true, true, false, true, 0)
  const USER_RO := Flags(true, false, true, false, 0)
  const USER_RW := Flags(true, true, true, false, 0)

  const ZERO := Word(0, NONE)

  predicate Present(e: Word) { e.flags.present }
  predicate UserBit(e: Word) { e.flags.user }
  predicate Large(e: Word) { e.flags.large }

  /** e | 0x004 */
  function WithUser(e: Word): (r: Word) { e.(flags := e.flags.(user := true)) }

  /** phys | (flags & 0xFFF) | 0x001 for an aligned phys. */
  function LeafWord(phys: Addr, flags: Flags): (r: Word) { Word(phys, flags.(present := true)) }

  /** A table entry pointing at table a. */
  predicate Link(e: Word, a: Addr) { Present(e) && !Large(e) && e.base == a }

  /** A 2 MiB leaf as address-space creation writes it. */
  predicate BigLeaf(e: Word) { e.flags == BIG && e.base % 0x200000 == 0 }

  type Mem = map<Addr, seq<Word>>

  const SLOTS: nat := 512
  const DIRECTORIES: nat := 4
  /** Pages below the identity limit: DIRECTORIES * 512 * 512. */
  const SPAN: nat := 1048576

  // ---------------------------------------------------------------------
  // Tables and the walk
  // ---------------------------------------------------------------------

  predicate IsTable(mem: Mem, a: Addr) { a in mem && |mem[a]| == SLOTS }

  function Slot(mem: Mem, a: Addr, i: nat): (e: Word) {
    if IsTable(mem, a) && i < SLOTS then mem[a][i] else ZERO
  }

  function Put(mem: Mem, a: Addr, i: nat, e: Word): (r: Mem) {
    if IsTable(mem, a) && i < SLOTS then
      var words: seq<Word> := mem[a][i := e];
      mem[a := words]
    else mem
  }

  function P3(v: nat): (i: nat) ensures v < SPAN ==> i < DIRECTORIES { v / 262144 }
  function P2(v: nat): (i: nat) ensures i < SLOTS { v / 512 % 512 }
  function P1(v: nat): (i: nat) ensures i < SLOTS { v % 512 }

  lemma IndicesDetermine(v: nat, w: nat)
    requires P3(v) == P3(w) && P2(v) == P2(w) && P1(v) == P1(w)
    ensures v == w
  {
    Digits(v);
    Digits(w);
  }

  lemma Digits(v: nat)
    ensures v == P3(v) * 262144 + P2(v) * 512 + P1(v)
  {
    var a := v / 512;
    var b, s := a / 512, a % 512;
    assert v == 512 * a + P1(v) && a == 512 * b + s;
    Quotient(v, 262144, b, 512 * s + P1(v));
  }

  lemma Quotient(v: int, m: nat, q: int, r: nat)
    requires v == m * q + r && r < m
    ensures v / m == q
  {
    var d := v / m - q;
    assert m * d == r - v % m;
    assert d >= 1 ==> m * d >= m;
    assert d <= -1 ==> m * d + m <= 0;
  }

  /** What a page number maps to: a frame, and its permission flags. */
  datatype Leaf = Leaf(phys: Addr, flags: Flags)

  function SmallLeaf(e: Word): (r: Option<Leaf>) {
    if Present(e) then Some(Leaf(e.base, e.flags)) else None
  }

  function LargeBase(e: Word): (r: Addr) { e.base - e.base % 0x200000 }

  /** The j-th page of a 2 MiB leaf; the page-size bit is not a permission. */
  function LargeLeaf(e: Word, j: nat): (r: Leaf) {
    Leaf(LargeBase(e) + j * PAGE, e.flags.(large := false))
  }

  function Walk(mem: Mem, root: Addr, v: nat): (r: Option<Leaf>) {
    var e4 := Slot(mem, root, 0);
    if !Present(e4) then None else
    var e3 := Slot(mem, e4.base, P3(v));
    if !Present(e3) then None else
    var e2 := Slot(mem, e3.base, P2(v));
    if !Present(e2) then None
    else if Large(e2) then Some(LargeLeaf(e2, P1(v)))
    else SmallLeaf(Slot(mem, e2.base, P1(v)))
  }

  /** Whether ring 3 may use the page: the user bit is ANDed over the levels. */
  predicate UserWalk(mem: Mem, root: Addr, v: nat) {
    var e4 := Slot(mem, root, 0);
    var e3 := Slot(mem, e4.base, P3(v));
    var e2 := Slot(mem, e3.base, P2(v));
    && Present(e4) && UserBit(e4)
    && Present(e3) && UserBit(e3)
    && Present(e2) && UserBit(e2)
    && (Large(e2) || var e1 := Slot(mem, e2.base, P1(v)); Present(e1) && UserBit(e1))
  }

  // ---------------------------------------------------------------------
  // Operations
  // ---------------------------------------------------------------------

  datatype Machine = Machine(mem: Mem, pool: Pool)

  function SplitEntries(base: Addr): (r: seq<Word>)
    ensures |r| == SLOTS
    ensures forall j :: 0 <= j < SLOTS ==> r[j] == Word(base + j * PAGE, RW)
  {
    seq(SLOTS, j requires 0 <= j < SLOTS => Word(base + j * PAGE, RW))
  }

  /** The directory holding page v's entry. */
  function DirectoryOf(mem: Mem, root: Addr, v: nat): (r: Outcome<Addr>) {
    var e4 := Slot(mem, root, 0);
    if !Present(e4) then Panic(MissingTable) else
    var e3 := Slot(mem, e4.base, P3(v));
    if !Present(e3) then Panic(MissingTable) else Ok(e3.base)
  }

  /** The page table for page v, made from a 2 MiB leaf if need be. */
  function Split(m: Machine, root: Addr, v: nat): (r: Outcome<(Machine, Addr)>) {
    if v >= SPAN then Panic(OutsideRange) else
    var p2 :- DirectoryOf(m.mem, root, v);
    var e := Slot(m.mem, p2, P2(v));
    if !Present(e) then Panic(MissingTable)
    else if !Large(e) then Ok((m, e.base))
    else match Alloc(m.pool)
      case None => Panic(OutOfFrames)
      case Some((pt, pool)) =>
        var mem := m.mem[pt := SplitEntries(LargeBase(e))];
        Ok((Machine(Put(mem, p2, P2(v), Word(pt, RW)), pool), pt))
  }

  /** Set the user bit on the three upper entries that lead to page v. */
  function RaiseUser(mem: Mem, root: Addr, v: nat): (r: Mem) {
    var e4 := Slot(mem, root, 0);
    var mem1 := Put(mem, root, 0, WithUser(e4));
    var p3 := e4.base;
    var e3 := Slot(mem1, p3, P3(v));
    var mem2 := Put(mem1, p3, P3(v), WithUser(e3));
    var p2 := e3.base;
    Put(mem2, p2, P2(v), WithUser(Slot(mem2, p2, P2(v))))
  }

  /** `raise` tells vmm_map_page_root from vmm_map_page. */
  function Map(m: Machine, root: Addr, virt: Addr, phys: Addr, flags: Flags, raise: bool): (r: Outcome<Machine>) {
    if virt % PAGE != 0 || phys % PAGE != 0 then Panic(Unaligned) else
    var v := virt / PAGE;
    var (m1, pt) :- Split(m, root, v);
    var mem := if raise && flags.user then RaiseUser(m1.mem, root, v) else m1.mem;
    if Slot(mem, pt, P1(v)) != ZERO then Panic(MapOverPresent)
    else Ok(m1.(mem := Put(mem, pt, P1(v), LeafWord(phys, flags))))
  }

  function Unmap(m: Machine, root: Addr, virt: Addr): (r: Outcome<Machine>) {
    if virt % PAGE != 0 then Panic(Unaligned) else
    var v := virt / PAGE;
    var (m1, pt) :- Split(m, root, v);
    if Slot(m1.mem, pt, P1(v)) == ZERO then Panic(UnmapMissing)
    else Ok(m1.(mem := Put(m1.mem, pt, P1(v), ZERO)))
  }

  function Protect(m: Machine, root: Addr, virt: Addr, flags: Flags): (r: Outcome<Machine>) {
    if virt % PAGE != 0 then Panic(Unaligned) else
    var v := virt / PAGE;
    var (m1, pt) :- Split(m, root, v);
    var e := Slot(m1.mem, pt, P1(v));
    if e == ZERO then Panic(UnmapMissing)
    else Ok(m1.(mem := Put(m1.mem, pt, P1(v), LeafWord(e.base, flags))))
  }

  /** vmm_translate_root: the physical address, or 0. */
  function Translate(mem: Mem, root: Addr, virt: Addr): (r: Addr) {
    if virt / PAGE >= SPAN then 0 else
    match Walk(mem, root, virt / PAGE)
    case None => 0
    case Some(leaf) => leaf.phys + virt % PAGE
  }

  // ---------------------------------------------------------------------
  // Trees
  // ---------------------------------------------------------------------

  /** The tables reached from one root: a root, a pointer table, four
      directories, and a page table for each 2 MiB that has been split. */
  datatype Tree = Tree(p4: Addr, p3: Addr, p2: seq<Addr>, pt: map<(nat, nat), Addr>)

  ghost predicate Owns(t: Tree, a: Addr) {
    a == t.p4 || a == t.p3 || a in t.p2 || a in t.pt.Values
  }

  ghost predicate Distinct(t: Tree) {
    && |t.p2| == DIRECTORIES
    && t.p4 != t.p3 && t.p4 !in t.p2 && t.p3 !in t.p2 && NoDup(t.p2)
    && (forall k :: k in t.pt ==>
          k.0 < DIRECTORIES && k.1 < SLOTS && t.pt[k] != t.p4 && t.pt[k] != t.p3 && t.pt[k] !in t.p2)
    && (forall k, l :: k in t.pt && l in t.pt && k != l ==> t.pt[k] != t.pt[l])
  }

  ghost predicate Upper(mem: Mem, t: Tree)
    requires |t.p2| == DIRECTORIES
  {
    && IsTable(mem, t.p4) && IsTable(mem, t.p3)
    && Link(Slot(mem, t.p4, 0), t.p3)
    && (forall i :: 0 <= i < DIRECTORIES ==> IsTable(mem, t.p2[i]) && Link(Slot(mem, t.p3, i), t.p2[i]))
  }

  ghost predicate Lower(mem: Mem, t: Tree)
    requires |t.p2| == DIRECTORIES
  {
    && (forall i, j :: 0 <= i < DIRECTORIES && 0 <= j < SLOTS ==>
          if (i, j) in t.pt then Link(Slot(mem, t.p2[i], j), t.pt[(i, j)]) else BigLeaf(Slot(mem, t.p2[i], j)))
    && (forall k :: k in t.pt ==> TableOk(mem, t.pt[k]))
  }

  /** A page table's entries are zero or present. */
  ghost predicate TableOk(mem: Mem, a: Addr) {
    IsTable(mem, a) && forall j :: 0 <= j < SLOTS ==> Slot(mem, a, j) == ZERO || Present(Slot(mem, a, j))
  }

  ghost predicate Shape(mem: Mem, t: Tree) {
    && Distinct(t)
    && Upper(mem, t)
    && Lower(mem, t)
  }

  /** The walk read off a tree. */
  ghost function TreeWalk(mem: Mem, t: Tree, v: nat): (r: Option<Leaf>)
    requires Shape(mem, t) && v < SPAN
  {
    var k := (P3(v), P2(v));
    if k in t.pt then SmallLeaf(Slot(mem, t.pt[k], P1(v)))
    else Some(LargeLeaf(Slot(mem, t.p2[P3(v)], P2(v)), P1(v)))
  }

  lemma WalkIsTreeWalk(mem: Mem, t: Tree, v: nat)
    requires Shape(mem, t) && v < SPAN
    ensures Walk(mem, t.p4, v) == TreeWalk(mem, t, v)
  {
    var i, j := P3(v), P2(v);
    assert Link(Slot(mem, t.p3, i), t.p2[i]);
    if (i, j) in t.pt {
      assert Link(Slot(mem, t.p2[i], j), t.pt[(i, j)]);
    } else {
      assert BigLeaf(Slot(mem, t.p2[i], j));
    }
  }
}
