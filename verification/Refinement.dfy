/**
 The page-table edits refine edits of one abstract map per address space: a
 split changes nothing, and every other edit changes one page of one root.
 */
module Refinement {
  import opened Base
  import opened Frames
  import opened PageTables

  // ---------------------------------------------------------------------
  // What a write to one word does to a tree
  // ---------------------------------------------------------------------

  /** The tables of t hold the same words in both memories. */
  ghost predicate SameTables(a: Mem, b: Mem, t: Tree) {
    forall x: Addr :: Owns(t, x) && x in a ==> x in b && a[x] == b[x]
  }

  lemma SameShape(a: Mem, b: Mem, t: Tree)
    requires Shape(a, t) && SameTables(a, b, t)
    ensures Shape(b, t)
  {
    assert Owns(t, t.p4) && Owns(t, t.p3);
    assert forall i :: 0 <= i < DIRECTORIES ==> Owns(t, t.p2[i]);
    assert forall k :: k in t.pt ==> Owns(t, t.pt[k]);
    assert Upper(b, t);
    forall k | k in t.pt
      ensures TableOk(b, t.pt[k])
    {
      assert TableOk(a, t.pt[k]);
      assert forall j :: 0 <= j < SLOTS ==> Slot(b, t.pt[k], j) == Slot(a, t.pt[k], j);
    }
    assert Lower(b, t);
  }

  lemma SameWalk(a: Mem, b: Mem, t: Tree, v: nat)
    requires Shape(a, t) && SameTables(a, b, t) && v < SPAN
    ensures Walk(b, t.p4, v) == Walk(a, t.p4, v) && UserWalk(b, t.p4, v) == UserWalk(a, t.p4, v)
  {
    var i, j := P3(v), P2(v);
    assert Owns(t, t.p4) && Owns(t, t.p3) && Owns(t, t.p2[i]);
    assert Link(Slot(a, t.p3, i), t.p2[i]);
    if (i, j) in t.pt {
      assert Owns(t, t.pt[(i, j)]);
      assert Link(Slot(a, t.p2[i], j), t.pt[(i, j)]);
      assert TableOk(a, t.pt[(i, j)]);
    } else {
      assert BigLeaf(Slot(a, t.p2[i], j));
    }
  }

  /** Writing a legal word into a page table keeps the shape and changes the
      walk of the one page the word stands for. */
  lemma LeafWrite(mem: Mem, t: Tree, k: (nat, nat), s: nat, e: Word)
    requires Shape(mem, t) && k in t.pt && s < SLOTS && (e == ZERO || Present(e))
    ensures Shape(Put(mem, t.pt[k], s, e), t)
    ensures forall v :: 0 <= v < SPAN ==>
              Walk(Put(mem, t.pt[k], s, e), t.p4, v)
              == if P3(v) == k.0 && P2(v) == k.1 && P1(v) == s then SmallLeaf(e) else Walk(mem, t.p4, v)
  {
    var b := Put(mem, t.pt[k], s, e);
    assert TableOk(mem, t.pt[k]);
    assert forall x, i :: x != t.pt[k] ==> Slot(b, x, i) == Slot(mem, x, i);
    forall l | l in t.pt
      ensures TableOk(b, t.pt[l])
    {
      assert TableOk(mem, t.pt[l]);
      assert forall j :: 0 <= j < SLOTS ==>
          Slot(b, t.pt[l], j) == if l == k && j == s then e else Slot(mem, t.pt[l], j);
    }
    assert Upper(b, t) && Lower(b, t);
    forall v | 0 <= v < SPAN
      ensures Walk(b, t.p4, v)
           == if P3(v) == k.0 && P2(v) == k.1 && P1(v) == s then SmallLeaf(e) else Walk(mem, t.p4, v)
    {
      WalkIsTreeWalk(mem, t, v);
      WalkIsTreeWalk(b, t, v);
    }
  }

  /** Setting the user bit of an upper entry keeps the shape and every walk. */
  lemma UpperWrite(mem: Mem, t: Tree, a: Addr, s: nat)
    requires Shape(mem, t) && UpperSlot(t, a, s)
    ensures Shape(Put(mem, a, s, WithUser(Slot(mem, a, s))), t)
    ensures View(Put(mem, a, s, WithUser(Slot(mem, a, s))), t.p4) == View(mem, t.p4)
  {
    var b := Put(mem, a, s, WithUser(Slot(mem, a, s)));
    assert forall x, i :: x != a || i != s ==> Slot(b, x, i) == Slot(mem, x, i);
    UpperWriteShape(mem, b, t, a, s);
    forall v | 0 <= v < SPAN
      ensures Walk(b, t.p4, v) == Walk(mem, t.p4, v)
    {
      WalkIsTreeWalk(mem, t, v);
      WalkIsTreeWalk(b, t, v);
    }
  }

  /** An entry that leads to another table. */
  ghost predicate UpperSlot(t: Tree, a: Addr, s: nat) {
    || (a == t.p4 && s == 0)
    || (a == t.p3 && s < DIRECTORIES)
    || exists i :: 0 <= i < |t.p2| && a == t.p2[i] && (i, s) in t.pt
  }

  lemma UpperWriteShape(mem: Mem, b: Mem, t: Tree, a: Addr, s: nat)
    requires Shape(mem, t) && UpperSlot(t, a, s)
    requires b == Put(mem, a, s, WithUser(Slot(mem, a, s)))
    requires forall x, i :: x != a || i != s ==> Slot(b, x, i) == Slot(mem, x, i)
    ensures Shape(b, t)
  {
    forall l | l in t.pt
      ensures TableOk(b, t.pt[l])
    {
      assert TableOk(mem, t.pt[l]);
      assert forall j :: 0 <= j < SLOTS ==> Slot(b, t.pt[l], j) == Slot(mem, t.pt[l], j);
    }
    assert Upper(b, t);
    assert Lower(b, t);
  }

  // ---------------------------------------------------------------------
  // Splitting a 2 MiB leaf
  // ---------------------------------------------------------------------

  /** The 512 small leaves a split writes agree with the large leaf they
      replace exactly when its flags are those of 0x083; the frames always do. */
  lemma SplitKeepsFlagsIff(e: Word, j: nat)
    requires Present(e) && Large(e) && j < SLOTS
    ensures SmallLeaf(SplitEntries(LargeBase(e))[j]).Some?
    ensures SmallLeaf(SplitEntries(LargeBase(e))[j]).value.phys == LargeLeaf(e, j).phys
    ensures SmallLeaf(SplitEntries(LargeBase(e))[j]) == Some(LargeLeaf(e, j)) <==> e.flags == BIG
  {
  }

  /** Memory and tree after page v's 2 MiB leaf became the page table `pt`. */
  function SplitMem(mem: Mem, p2: Addr, v: nat, pt: Addr): (r: Mem) {
    Put(mem[pt := SplitEntries(LargeBase(Slot(mem, p2, P2(v))))], p2, P2(v), Word(pt, RW))
  }

  function SplitTree(t: Tree, v: nat, pt: Addr): (r: Tree) {
    t.(pt := t.pt[(P3(v), P2(v)) := pt])
  }

  lemma SplitShape(mem: Mem, t: Tree, v: nat, pt: Addr)
    requires Shape(mem, t) && v < SPAN && (P3(v), P2(v)) !in t.pt && !Owns(t, pt)
    ensures Shape(SplitMem(mem, t.p2[P3(v)], v, pt), SplitTree(t, v, pt))
  {
    var i, j := P3(v), P2(v);
    var b := SplitMem(mem, t.p2[i], v, pt);
    assert forall l :: l in t.pt ==> Owns(t, t.pt[l]);
    SplitDistinct(t, v, pt);
    assert IsTable(mem, t.p2[i]) && t.p2[i] != pt;
    SplitSlots(mem, t.p2[i], v, pt);
    assert Upper(b, t) by {
      assert forall k :: 0 <= k < DIRECTORIES ==> t.p2[k] in t.p2 && Link(Slot(mem, t.p3, k), t.p2[k]);
    }
    SplitLower(mem, b, t, v, pt);
  }

  lemma SplitSlots(mem: Mem, p2: Addr, v: nat, pt: Addr)
    requires IsTable(mem, p2) && p2 != pt
    ensures var b := SplitMem(mem, p2, v, pt);
            && (forall x: Addr, s: nat :: x != pt && (x != p2 || s != P2(v)) ==> Slot(b, x, s) == Slot(mem, x, s))
            && (forall x: Addr :: IsTable(mem, x) ==> IsTable(b, x))
            && IsTable(b, pt) && b[pt] == SplitEntries(LargeBase(Slot(mem, p2, P2(v))))
            && Slot(b, p2, P2(v)) == Word(pt, RW)
  {
  }

  lemma SplitDistinct(t: Tree, v: nat, pt: Addr)
    requires Distinct(t) && v < SPAN && (P3(v), P2(v)) !in t.pt && !Owns(t, pt)
    ensures Distinct(SplitTree(t, v, pt))
  {
    var t' := SplitTree(t, v, pt);
    assert forall l :: l in t.pt ==> Owns(t, t.pt[l]);
    assert forall l :: l in t'.pt ==> t'.pt[l] == if l == (P3(v), P2(v)) then pt else t.pt[l];
  }

  lemma SplitLower(mem: Mem, b: Mem, t: Tree, v: nat, pt: Addr)
    requires Distinct(t) && Lower(mem, t) && v < SPAN && (P3(v), P2(v)) !in t.pt && !Owns(t, pt)
    requires forall x: Addr, s: nat :: x != pt && (x != t.p2[P3(v)] || s != P2(v)) ==> Slot(b, x, s) == Slot(mem, x, s)
    requires forall x: Addr :: IsTable(mem, x) ==> IsTable(b, x)
    requires IsTable(b, pt) && b[pt] == SplitEntries(LargeBase(Slot(mem, t.p2[P3(v)], P2(v))))
    requires Slot(b, t.p2[P3(v)], P2(v)) == Word(pt, RW)
    ensures Lower(b, SplitTree(t, v, pt))
  {
    var t' := SplitTree(t, v, pt);
    assert forall k :: 0 <= k < DIRECTORIES ==> t.p2[k] in t.p2;
    forall l | l in t'.pt
      ensures TableOk(b, t'.pt[l])
    {
      if l != (P3(v), P2(v)) {
        assert TableOk(mem, t.pt[l]) && Owns(t, t.pt[l]);
        assert t.p2[P3(v)] in t.p2;
        assert forall s :: 0 <= s < SLOTS ==> Slot(b, t.pt[l], s) == Slot(mem, t.pt[l], s);
      }
    }
    forall i, j | 0 <= i < DIRECTORIES && 0 <= j < SLOTS
      ensures if (i, j) in t'.pt then Link(Slot(b, t.p2[i], j), t'.pt[(i, j)]) else BigLeaf(Slot(b, t.p2[i], j))
    {
      if (i, j) != (P3(v), P2(v)) {
        assert Slot(b, t.p2[i], j) == Slot(mem, t.p2[i], j);
      }
    }
  }

  lemma SplitWalk(mem: Mem, t: Tree, v: nat, pt: Addr, w: nat)
    requires Shape(mem, t) && v < SPAN && (P3(v), P2(v)) !in t.pt && !Owns(t, pt) && w < SPAN
    ensures Walk(SplitMem(mem, t.p2[P3(v)], v, pt), t.p4, w) == Walk(mem, t.p4, w)
  {
    SplitShape(mem, t, v, pt);
    WalkIsTreeWalk(mem, t, w);
    WalkIsTreeWalk(SplitMem(mem, t.p2[P3(v)], v, pt), SplitTree(t, v, pt), w);
    if P3(w) == P3(v) && P2(w) == P2(v) {
      SplitWalkInside(mem, t, v, pt, w);
    } else {
      SplitWalkOutside(mem, t, v, pt, w);
    }
  }

  /** A page of the split 2 MiB. */
  lemma SplitWalkInside(mem: Mem, t: Tree, v: nat, pt: Addr, w: nat)
    requires Shape(mem, t) && v < SPAN && (P3(v), P2(v)) !in t.pt && !Owns(t, pt) && w < SPAN
    requires P3(w) == P3(v) && P2(w) == P2(v)
    ensures SmallLeaf(Slot(SplitMem(mem, t.p2[P3(v)], v, pt), pt, P1(w)))
         == Some(LargeLeaf(Slot(mem, t.p2[P3(w)], P2(w)), P1(w)))
  {
    var i, j := P3(v), P2(v);
    assert BigLeaf(Slot(mem, t.p2[i], j));
    assert t.p2[i] != pt by { assert Owns(t, t.p2[i]); }
    SplitKeepsFlagsIff(Slot(mem, t.p2[i], j), P1(w));
    assert Slot(SplitMem(mem, t.p2[i], v, pt), pt, P1(w)) == SplitEntries(LargeBase(Slot(mem, t.p2[i], j)))[P1(w)];
  }

  /** Any other page. */
  lemma SplitWalkOutside(mem: Mem, t: Tree, v: nat, pt: Addr, w: nat)
    requires Shape(mem, t) && v < SPAN && (P3(v), P2(v)) !in t.pt && !Owns(t, pt) && w < SPAN
    requires P3(w) != P3(v) || P2(w) != P2(v)
    ensures var b := SplitMem(mem, t.p2[P3(v)], v, pt);
            && Slot(b, t.p2[P3(w)], P2(w)) == Slot(mem, t.p2[P3(w)], P2(w))
            && ((P3(w), P2(w)) in t.pt ==>
                      Slot(b, t.pt[(P3(w), P2(w))], P1(w)) == Slot(mem, t.pt[(P3(w), P2(w))], P1(w)))
  {
    assert Owns(t, t.p2[P3(w)]);
    assert (P3(w), P2(w)) in t.pt ==> Owns(t, t.pt[(P3(w), P2(w))]);
    assert P3(w) != P3(v) ==> t.p2[P3(w)] != t.p2[P3(v)];
  }

  // ---------------------------------------------------------------------
  // Many address spaces
  // ---------------------------------------------------------------------

  type Forest = map<Addr, Tree>

  ghost predicate Apart(t: Tree, u: Tree) {
    forall a: Addr :: Owns(t, a) ==> !Owns(u, a)
  }

  ghost predicate ForestOk(mem: Mem, f: Forest) {
    && (forall r :: r in f ==> f[r].p4 == r && Shape(mem, f[r]))
    && (forall r, s :: r in f && s in f && r != s ==> Apart(f[r], f[s]))
  }

  ghost predicate Unowned(p: Pool, t: Tree) {
    forall a: Addr :: InPool(p, a) ==> !Owns(t, a)
  }

  /** The trees have their shape and share no frame with each other or the pool. */
  ghost predicate MachineOk(m: Machine, f: Forest) {
    ForestOk(m.mem, f) && PoolOk(m.pool) && forall r :: r in f ==> Unowned(m.pool, f[r])
  }

  /** The address space of a root as a map from pages to leaves. */
  ghost function View(mem: Mem, root: Addr): (s: imap<nat, Leaf>) {
    imap v: nat | v < SPAN && Walk(mem, root, v).Some? :: Walk(mem, root, v).value
  }

  /** A tree whose tables kept their words keeps its shape and its view. */
  lemma SameView(a: Mem, b: Mem, t: Tree)
    requires Shape(a, t) && SameTables(a, b, t)
    ensures Shape(b, t) && View(b, t.p4) == View(a, t.p4)
  {
    SameShape(a, b, t);
    forall v: nat | v < SPAN
      ensures Walk(b, t.p4, v) == Walk(a, t.p4, v)
    {
      SameWalk(a, b, t, v);
    }
  }

  // ---------------------------------------------------------------------
  // Edits
  // ---------------------------------------------------------------------

  ghost predicate OthersKept(a: Mem, b: Mem, f: Forest, root: Addr) {
    forall r :: r in f && r != root ==> View(b, r) == View(a, r)
  }

  /** Memory and pool after tree t of m's forest was changed into t', a tree
      over t's frames and frames taken from the pool. */
  ghost predicate Reworked(m: Machine, m': Machine, t: Tree, t': Tree) {
    && t'.p4 == t.p4 && Shape(m'.mem, t')
    && (forall x: Addr :: x in m.mem && !Owns(t', x) ==> x in m'.mem && m'.mem[x] == m.mem[x])
    && (forall x: Addr :: Owns(t', x) ==> Owns(t, x) || InPool(m.pool, x))
    && PoolOk(m'.pool) && (forall x: Addr :: InPool(m'.pool, x) ==> InPool(m.pool, x)) && Unowned(m'.pool, t')
  }

  /** Reworking one tree leaves the other address spaces alone. */
  lemma ReworkOthers(m: Machine, f: Forest, root: Addr, m': Machine, t: Tree)
    requires MachineOk(m, f) && root in f && Reworked(m, m', f[root], t)
    ensures OthersKept(m.mem, m'.mem, f, root)
    ensures forall r :: r in f && r != root ==> Apart(f[r], t) && Apart(t, f[r]) && Shape(m'.mem, f[r])
  {
    forall r | r in f && r != root
      ensures Apart(f[r], t) && Apart(t, f[r]) && Shape(m'.mem, f[r]) && View(m'.mem, r) == View(m.mem, r)
    {
      KeepTree(m.mem, m'.mem, f[r], f[root], t, m.pool);
    }
  }

  lemma ReworkMachine(m: Machine, f: Forest, root: Addr, m': Machine, t: Tree)
    requires MachineOk(m, f) && root in f && Reworked(m, m', f[root], t)
    ensures MachineOk(m', f[root := t])
  {
    ReworkOthers(m, f, root, m', t);
    ReplacedPool(m.pool, m'.pool, f, f[root := t], root);
    ReplacedForest(m'.mem, f, root, t);
  }

  lemma ReplacedPool(p: Pool, p': Pool, f: Forest, f': Forest, root: Addr)
    requires forall r :: r in f ==> Unowned(p, f[r])
    requires root in f' && f' == f[root := f'[root]] && Unowned(p', f'[root])
    requires forall x: Addr :: InPool(p', x) ==> InPool(p, x)
    ensures forall r :: r in f' ==> Unowned(p', f'[r])
  {
    forall r | r in f'
      ensures Unowned(p', f'[r])
    {
      assert r != root ==> Unowned(p, f[r]);
    }
  }

  lemma ReplacedForest(mem: Mem, f: Forest, root: Addr, t: Tree)
    requires t.p4 == root && Shape(mem, t)
    requires forall r :: r in f && r != root ==> f[r].p4 == r && Shape(mem, f[r]) && Apart(f[r], t) && Apart(t, f[r])
    requires forall r, s :: r in f && s in f && r != s ==> Apart(f[r], f[s])
    ensures ForestOk(mem, f[root := t])
  {
  }

  lemma KeepTree(a: Mem, b: Mem, u: Tree, t0: Tree, t: Tree, p: Pool)
    requires Shape(a, u) && Apart(u, t0) && Unowned(p, u)
    requires forall x: Addr :: x in a && !Owns(t, x) ==> x in b && b[x] == a[x]
    requires forall x: Addr :: Owns(t, x) ==> Owns(t0, x) || InPool(p, x)
    ensures Apart(u, t) && Apart(t, u) && Shape(b, u) && View(b, u.p4) == View(a, u.p4)
  {
    assert Apart(u, t);
    assert SameTables(a, b, u);
    SameView(a, b, u);
  }

  lemma SplitOk(m: Machine, f: Forest, root: Addr, v: nat)
    requires MachineOk(m, f) && root in f && v < SPAN
    ensures (P3(v), P2(v)) in f[root].pt ==> Split(m, root, v) == Ok((m, f[root].pt[(P3(v), P2(v))]))
    ensures (P3(v), P2(v)) !in f[root].pt && m.pool.Free() > 0 ==>
              var (pt, pool) := Alloc(m.pool).value;
              Split(m, root, v) == Ok((Machine(SplitMem(m.mem, f[root].p2[P3(v)], v, pt), pool), pt))
    ensures (P3(v), P2(v)) !in f[root].pt && m.pool.Free() == 0 ==> Split(m, root, v) == Panic(OutOfFrames)
  {
    var t, i, j := f[root], P3(v), P2(v);
    assert Link(Slot(m.mem, t.p3, i), t.p2[i]);
    if (i, j) in t.pt {
      assert Link(Slot(m.mem, t.p2[i], j), t.pt[(i, j)]);
    } else {
      assert BigLeaf(Slot(m.mem, t.p2[i], j));
    }
  }

  /** The tree of page v's root after a split that returned table pt. */
  lemma SplitReworks(m: Machine, t: Tree, v: nat)
    requires Shape(m.mem, t) && v < SPAN && PoolOk(m.pool) && Unowned(m.pool, t)
    requires (P3(v), P2(v)) !in t.pt && m.pool.Free() > 0
    ensures var (pt, pool) := Alloc(m.pool).value;
            var m' := Machine(SplitMem(m.mem, t.p2[P3(v)], v, pt), pool);
            Reworked(m, m', t, SplitTree(t, v, pt)) && View(m'.mem, t.p4) == View(m.mem, t.p4)
  {
    var (pt, pool) := Alloc(m.pool).value;
    AllocMoves(m.pool);
    SplitShape(m.mem, t, v, pt);
    SplitOwns(t, v, pt);
    assert t.p2[P3(v)] in t.p2;
    var b := SplitMem(m.mem, t.p2[P3(v)], v, pt);
    forall w: nat | w < SPAN
      ensures Walk(b, t.p4, w) == Walk(m.mem, t.p4, w)
    {
      SplitWalk(m.mem, t, v, pt, w);
    }
  }

  /** The forest after a split of page v's 2 MiB that returned table pt. */
  function SplitForest(f: Forest, root: Addr, v: nat, pt: Addr): (r: Forest)
    requires root in f
  {
    f[root := SplitTree(f[root], v, pt)]
  }

  /** A split succeeds unless it needs a frame and there is none, and it
      changes no page of any address space. */
  lemma SplitRefines(m: Machine, f: Forest, root: Addr, v: nat)
    requires MachineOk(m, f) && root in f && v < SPAN
    ensures Split(m, root, v).Ok? <==> (P3(v), P2(v)) in f[root].pt || m.pool.Free() > 0
    ensures Split(m, root, v).Ok? ==>
              var (m', pt) := Split(m, root, v).value;
              && MachineOk(m', SplitForest(f, root, v, pt))
              && OthersKept(m.mem, m'.mem, f, root) && View(m'.mem, root) == View(m.mem, root)
  {
    SplitOk(m, f, root, v);
    var t := f[root];
    if (P3(v), P2(v)) in t.pt {
      SplitAgain(f, root, v);
    } else if m.pool.Free() > 0 {
      SplitReworks(m, t, v);
      var (m', pt) := Split(m, root, v).value;
      ReworkOthers(m, f, root, m', SplitTree(t, v, pt));
      ReworkMachine(m, f, root, m', SplitTree(t, v, pt));
    }
  }

  lemma SplitAgain(f: Forest, root: Addr, v: nat)
    requires root in f && (P3(v), P2(v)) in f[root].pt
    ensures SplitForest(f, root, v, f[root].pt[(P3(v), P2(v))]) == f
  {
    var t, k := f[root], (P3(v), P2(v));
    assert t.pt[k := t.pt[k]] == t.pt;
    assert f[root := t] == f;
  }

  lemma SplitOwns(t: Tree, v: nat, pt: Addr)
    requires (P3(v), P2(v)) !in t.pt
    ensures forall x: Addr :: Owns(SplitTree(t, v, pt), x) <==> Owns(t, x) || x == pt
  {
    var t' := SplitTree(t, v, pt);
    forall x: Addr
      ensures x in t'.pt.Values <==> x in t.pt.Values || x == pt
    {
      assert t'.pt[(P3(v), P2(v))] == pt;
      if x in t.pt.Values {
        var k :| k in t.pt && t.pt[k] == x;
        assert t'.pt[k] == x;
      }
    }
  }

  /** A view with page v mapped to `leaf`, or not mapped. */
  ghost function Updated(view: imap<nat, Leaf>, v: nat, leaf: Option<Leaf>): (r: imap<nat, Leaf>) {
    match leaf
    case Some(l) => view[v := l]
    case None => imap w | w in view && w != v :: view[w]
  }

  /** Writing a word into page v's table entry changes page v only. */
  lemma LeafReworks(m: Machine, t: Tree, v: nat, e: Word)
    requires Shape(m.mem, t) && v < SPAN && (P3(v), P2(v)) in t.pt && (e == ZERO || Present(e))
    requires PoolOk(m.pool) && Unowned(m.pool, t)
    ensures var m' := m.(mem := Put(m.mem, t.pt[(P3(v), P2(v))], P1(v), e));
            Reworked(m, m', t, t) && View(m'.mem, t.p4) == Updated(View(m.mem, t.p4), v, SmallLeaf(e))
  {
    var k := (P3(v), P2(v));
    var b := Put(m.mem, t.pt[k], P1(v), e);
    LeafWrite(m.mem, t, k, P1(v), e);
    assert Owns(t, t.pt[k]);
    forall w: nat | w < SPAN
      ensures Walk(b, t.p4, w) == if w == v then SmallLeaf(e) else Walk(m.mem, t.p4, w)
    {
      if P3(w) == P3(v) && P2(w) == P2(v) && P1(w) == P1(v) {
        IndicesDetermine(v, w);
      }
    }
    UpdatedView(m.mem, b, t.p4, v, SmallLeaf(e));
  }

  lemma UpdatedView(a: Mem, b: Mem, root: Addr, v: nat, leaf: Option<Leaf>)
    requires v < SPAN
    requires forall w: nat :: w < SPAN ==> Walk(b, root, w) == if w == v then leaf else Walk(a, root, w)
    ensures View(b, root) == Updated(View(a, root), v, leaf)
  {
  }

  /** Raising the user bit towards a page that has a page table changes no page. */
  lemma RaiseReworks(m: Machine, t: Tree, v: nat)
    requires Shape(m.mem, t) && v < SPAN && (P3(v), P2(v)) in t.pt && PoolOk(m.pool) && Unowned(m.pool, t)
    ensures var m' := m.(mem := RaiseUser(m.mem, t.p4, v));
            Reworked(m, m', t, t) && View(m'.mem, t.p4) == View(m.mem, t.p4)
    ensures forall k, s :: k in t.pt ==> Slot(RaiseUser(m.mem, t.p4, v), t.pt[k], s) == Slot(m.mem, t.pt[k], s)
    ensures var b := RaiseUser(m.mem, t.p4, v);
            && UserBit(Slot(b, t.p4, 0)) && UserBit(Slot(b, t.p3, P3(v))) && UserBit(Slot(b, t.p2[P3(v)], P2(v)))
            && (forall x: Addr, s: nat :: UserBit(Slot(m.mem, x, s)) ==> UserBit(Slot(b, x, s)))
  {
    var i, j := P3(v), P2(v);
    var mem0 := m.mem;
    var mem1 := Put(mem0, t.p4, 0, WithUser(Slot(mem0, t.p4, 0)));
    UpperWrite(mem0, t, t.p4, 0);
    assert Slot(mem0, t.p4, 0).base == t.p3;
    var mem2 := Put(mem1, t.p3, i, WithUser(Slot(mem1, t.p3, i)));
    UpperWrite(mem1, t, t.p3, i);
    assert Link(Slot(mem1, t.p3, i), t.p2[i]);
    var mem3 := Put(mem2, t.p2[i], j, WithUser(Slot(mem2, t.p2[i], j)));
    UpperWrite(mem2, t, t.p2[i], j);
    assert mem3 == RaiseUser(mem0, t.p4, v);
    assert t.p2[i] in t.p2;
    RaisedSlots(mem0, mem1, t.p4, 0);
    RaisedSlots(mem1, mem2, t.p3, i);
    RaisedSlots(mem2, mem3, t.p2[i], j);
    assert View(mem3, t.p4) == View(mem0, t.p4);
  }

  lemma RaisedSlots(a: Mem, b: Mem, x: Addr, s: nat)
    requires IsTable(a, x) && s < SLOTS && b == Put(a, x, s, WithUser(Slot(a, x, s)))
    ensures b.Keys == a.Keys && UserBit(Slot(b, x, s)) && IsTable(b, x)
    ensures forall y: Addr :: y in a && y != x ==> b[y] == a[y]
    ensures forall y: Addr, i: nat :: Slot(b, y, i) == if y == x && i == s then WithUser(Slot(a, y, i))
             else Slot(a, y, i)
  {
  }

  // ---------------------------------------------------------------------
  // Every edit, every sequence of edits
  // ---------------------------------------------------------------------

  datatype Edit =
    | SplitEdit(root: Addr, virt: Addr)
    | MapEdit(root: Addr, virt: Addr, phys: Addr, flags: Flags, raise: bool)
    | UnmapEdit(root: Addr, virt: Addr)
    | ProtectEdit(root: Addr, virt: Addr, newFlags: Flags)

  function Apply(m: Machine, e: Edit): (r: Outcome<Machine>) {
    match e
    case SplitEdit(root, virt) => (var (m', _) :- Split(m, root, virt / PAGE); Ok(m'))
    case MapEdit(root, virt, phys, flags, raise) => Map(m, root, virt, phys, flags, raise)
    case UnmapEdit(root, virt) => Unmap(m, root, virt)
    case ProtectEdit(root, virt, flags) => Protect(m, root, virt, flags)
  }

  /** When the edit makes sense on the abstract address space. */
  ghost predicate Allowed(view: imap<nat, Leaf>, e: Edit) {
    && e.virt / PAGE < SPAN
    && (e.SplitEdit? || e.virt % PAGE == 0)
    && (e.MapEdit? ==> e.phys % PAGE == 0 && e.virt / PAGE !in view)
    && (e.UnmapEdit? || e.ProtectEdit? ==> e.virt / PAGE in view)
  }

  /** The edit on the abstract address space. */
  ghost function Effect(view: imap<nat, Leaf>, e: Edit): (r: imap<nat, Leaf>)
    requires Allowed(view, e)
  {
    match e
    case SplitEdit(_, _) => view
    case MapEdit(_, virt, phys, flags, _) => Updated(view, virt / PAGE, Some(Leaf(phys, flags.(present := true))))
    case UnmapEdit(_, virt) => Updated(view, virt / PAGE, None)
    case ProtectEdit(_, virt, flags) =>
      Updated(view, virt / PAGE, Some(Leaf(view[virt / PAGE].phys, flags.(present := true))))
  }

  /** The word page v's table entry holds, as its view tells it. */
  lemma EntryByView(mem: Mem, t: Tree, v: nat)
    requires Shape(mem, t) && v < SPAN && (P3(v), P2(v)) in t.pt
    ensures var e := Slot(mem, t.pt[(P3(v), P2(v))], P1(v));
            && (e == ZERO <==> v !in View(mem, t.p4))
            && (v in View(mem, t.p4) ==> View(mem, t.p4)[v] == Leaf(e.base, e.flags))
  {
    WalkIsTreeWalk(mem, t, v);
    assert TableOk(mem, t.pt[(P3(v), P2(v))]);
  }

  /** After its split, an edit is one write into a page table (with the user
      bits raised above it first), and so refines the abstract edit. */
  lemma WriteRefines(m: Machine, f: Forest, root: Addr, v: nat, raise: bool, e: Word) returns (m': Machine)
    requires MachineOk(m, f) && root in f && v < SPAN && (P3(v), P2(v)) in f[root].pt
    requires e == ZERO || Present(e)
    ensures var mem := if raise then RaiseUser(m.mem, root, v) else m.mem;
            && Slot(mem, f[root].pt[(P3(v), P2(v))], P1(v)) == Slot(m.mem, f[root].pt[(P3(v), P2(v))], P1(v))
            && m' == m.(mem := Put(mem, f[root].pt[(P3(v), P2(v))], P1(v), e))
    ensures MachineOk(m', f) && OthersKept(m.mem, m'.mem, f, root)
    ensures View(m'.mem, root) == Updated(View(m.mem, root), v, SmallLeaf(e))
  {
    var t := f[root];
    var m1 := m;
    assert f[root := t] == f;
    if raise {
      RaiseReworks(m, t, v);
      m1 := m.(mem := RaiseUser(m.mem, root, v));
      ReworkOthers(m, f, root, m1, t);
      ReworkMachine(m, f, root, m1, t);
    }
    LeafReworks(m1, t, v, e);
    m' := m1.(mem := Put(m1.mem, t.pt[(P3(v), P2(v))], P1(v), e));
    ReworkOthers(m1, f, root, m', t);
    ReworkMachine(m1, f, root, m', t);
  }

  /** Whether the edit must make a page table first. */
  ghost predicate NeedsFrame(f: Forest, e: Edit) {
    e.root in f && (P3(e.virt / PAGE), P2(e.virt / PAGE)) !in f[e.root].pt
  }

  ghost predicate Refined(m: Machine, f: Forest, e: Edit, m': Machine, f': Forest)
    requires e.root in f
  {
    && MachineOk(m', f') && f'.Keys == f.Keys
    && OthersKept(m.mem, m'.mem, f, e.root)
    && Allowed(View(m.mem, e.root), e)
    && View(m'.mem, e.root) == Effect(View(m.mem, e.root), e)
  }

  /** Whether the edit sets the user bits above its page. */
  predicate Raises(e: Edit) { e.MapEdit? && e.raise && e.flags.user }

  /** Whether the edit panics on finding `word` in its page's table entry. */
  predicate Refuses(e: Edit, word: Word) {
    if e.MapEdit? then word != ZERO else word == ZERO
  }

  /** What the edit writes over `word`. */
  function NewWord(e: Edit, word: Word): (r: Word)
    requires !e.SplitEdit?
  {
    match e
    case MapEdit(_, _, phys, flags, _) => LeafWord(phys, flags)
    case UnmapEdit(_, _) => ZERO
    case ProtectEdit(_, _, flags) => LeafWord(word.base, flags)
  }

  /** The part of an edit that follows its split: one write into a page table. */
  ghost predicate Finishes(m: Machine, pt: Addr, e: Edit, r: Outcome<Machine>) {
    var v := e.virt / PAGE;
    if e.SplitEdit? then r == Ok(m) else
    var mem := if Raises(e) then RaiseUser(m.mem, e.root, v) else m.mem;
    var word := Slot(mem, pt, P1(v));
    if Refuses(e, word) then r.Panic? else r == Ok(m.(mem := Put(mem, pt, P1(v), NewWord(e, word))))
  }

  predicate Aligned(e: Edit) {
    (e.SplitEdit? || e.virt % PAGE == 0) && (e.MapEdit? ==> e.phys % PAGE == 0)
  }

  lemma ApplyFinishes(m: Machine, e: Edit)
    ensures !Aligned(e) ==> Apply(m, e).Panic?
    ensures Aligned(e) && Split(m, e.root, e.virt / PAGE).Panic? ==> Apply(m, e).Panic?
    ensures Aligned(e) && Split(m, e.root, e.virt / PAGE).Ok? ==>
              var (m1, pt) := Split(m, e.root, e.virt / PAGE).value;
              Finishes(m1, pt, e, Apply(m, e))
  {
  }

  lemma FinishRefines(m: Machine, f: Forest, e: Edit, r: Outcome<Machine>)
    requires MachineOk(m, f) && e.root in f && Aligned(e) && e.virt / PAGE < SPAN && !NeedsFrame(f, e)
    requires Finishes(m, f[e.root].pt[(P3(e.virt / PAGE), P2(e.virt / PAGE))], e, r)
    ensures r.Ok? <==> Allowed(View(m.mem, e.root), e)
    ensures r.Ok? ==> Refined(m, f, e, r.value, f)
  {
    var v, t := e.virt / PAGE, f[e.root];
    var word := Slot(m.mem, t.pt[(P3(v), P2(v))], P1(v));
    EntryByView(m.mem, t, v);
    AllowedByWord(View(m.mem, e.root), e, word);
    if !e.SplitEdit? {
      var m' := WriteRefines(m, f, e.root, v, Raises(e), NewWord(e, word));
      assert r.Ok? ==> r.value == m';
    }
  }

  lemma AllowedByWord(view: imap<nat, Leaf>, e: Edit, word: Word)
    requires Aligned(e) && e.virt / PAGE < SPAN
    requires word == ZERO <==> e.virt / PAGE !in view
    requires e.virt / PAGE in view ==> view[e.virt / PAGE] == Leaf(word.base, word.flags)
    ensures Allowed(view, e) <==> e.SplitEdit? || !Refuses(e, word)
    ensures Allowed(view, e) && !e.SplitEdit? ==>
              Effect(view, e) == Updated(view, e.virt / PAGE, SmallLeaf(NewWord(e, word)))
  {
  }

  /** An edit succeeds exactly when it is allowed on the abstract address space
      and a frame is left if it needs one; then it has its abstract effect on
      the named root and none on any other. */
  lemma EditRefines(m: Machine, f: Forest, e: Edit) returns (f': Forest)
    requires MachineOk(m, f) && e.root in f
    ensures Apply(m, e).Ok? <==> Allowed(View(m.mem, e.root), e) && (NeedsFrame(f, e) ==> m.pool.Free() > 0)
    ensures Apply(m, e).Ok? ==> Refined(m, f, e, Apply(m, e).value, f')
  {
    f' := f;
    ApplyFinishes(m, e);
    if e.virt / PAGE < SPAN && Aligned(e) {
      SplitRefines(m, f, e.root, e.virt / PAGE);
      f' := EditFromSplit(m, f, e, Split(m, e.root, e.virt / PAGE), Apply(m, e));
    }
  }

  /** The edit, given what its split came to. */
  lemma EditFromSplit(m: Machine, f: Forest, e: Edit, split: Outcome<(Machine, Addr)>, r: Outcome<Machine>)
      returns (f': Forest)
    requires e.root in f && e.virt / PAGE < SPAN && Aligned(e)
    requires split.Ok? <==> !NeedsFrame(f, e) || m.pool.Free() > 0
    requires split.Ok? ==>
               && MachineOk(split.value.0, SplitForest(f, e.root, e.virt / PAGE, split.value.1))
               && OthersKept(m.mem, split.value.0.mem, f, e.root)
               && View(split.value.0.mem, e.root) == View(m.mem, e.root)
               && Finishes(split.value.0, split.value.1, e, r)
    requires split.Panic? ==> r.Panic?
    ensures r.Ok? <==> Allowed(View(m.mem, e.root), e) && (NeedsFrame(f, e) ==> m.pool.Free() > 0)
    ensures r.Ok? ==> Refined(m, f, e, r.value, f')
  {
    f' := f;
    if split.Ok? {
      f' := SplitForest(f, e.root, e.virt / PAGE, split.value.1);
      EditAfterSplit(m, f, e, split.value.0, f', r);
    }
  }

  lemma EditAfterSplit(m: Machine, f: Forest, e: Edit, m1: Machine, f1: Forest, r: Outcome<Machine>)
    requires e.root in f && e.virt / PAGE < SPAN && Aligned(e)
    requires MachineOk(m1, f1) && f1.Keys == f.Keys && !NeedsFrame(f1, e)
    requires OthersKept(m.mem, m1.mem, f, e.root) && View(m1.mem, e.root) == View(m.mem, e.root)
    requires Finishes(m1, f1[e.root].pt[(P3(e.virt / PAGE), P2(e.virt / PAGE))], e, r)
    ensures r.Ok? <==> Allowed(View(m.mem, e.root), e)
    ensures r.Ok? ==> Refined(m, f, e, r.value, f1)
  {
    FinishRefines(m1, f1, e, r);
    if r.Ok? {
      KeptTwice(m.mem, m1.mem, r.value.mem, f, f1, e.root);
    }
  }

  lemma KeptTwice(a: Mem, b: Mem, c: Mem, f: Forest, f': Forest, root: Addr)
    requires f'.Keys == f.Keys && OthersKept(a, b, f, root) && OthersKept(b, c, f', root)
    ensures OthersKept(a, c, f, root)
  {
    assert forall r :: r in f ==> r in f'.Keys;
  }

  function ApplyAll(m: Machine, edits: seq<Edit>): (r: Outcome<Machine>) {
    if edits == [] then Ok(m)
    else
      var m1 :- ApplyAll(m, edits[..|edits| - 1]);
      Apply(m1, edits[|edits| - 1])
  }

  type Spaces = map<Addr, imap<nat, Leaf>>

  ghost function Views(mem: Mem, f: Forest): (r: Spaces) {
    map r | r in f :: View(mem, r)
  }

  /** The same edits on the abstract address spaces; an edit that is not
      allowed stops the run. */
  ghost function EffectAll(spaces: Spaces, edits: seq<Edit>): (r: Option<Spaces>) {
    if edits == [] then Some(spaces)
    else
      var n := |edits| - 1;
      match EffectAll(spaces, edits[..n])
      case None => None
      case Some(s) =>
        var e := edits[n];
        if e.root in s && Allowed(s[e.root], e) then Some(s[e.root := Effect(s[e.root], e)]) else None
  }

  /** For any sequence of edits over any number of roots, the table walk is the
      abstract map. */
  lemma {:induction false} EditsRefine(m: Machine, f: Forest, edits: seq<Edit>) returns (f': Forest)
    requires MachineOk(m, f)
    requires forall i :: 0 <= i < |edits| ==> edits[i].root in f
    requires ApplyAll(m, edits).Ok?
    ensures MachineOk(ApplyAll(m, edits).value, f') && f'.Keys == f.Keys
    ensures EffectAll(Views(m.mem, f), edits) == Some(Views(ApplyAll(m, edits).value.mem, f'))
  {
    if edits == [] {
      f' := f;
    } else {
      var n := |edits| - 1;
      var e := edits[n];
      var f1 := EditsRefine(m, f, edits[..n]);
      var m1 := ApplyAll(m, edits[..n]).value;
      assert e.root in f1.Keys;
      f' := EditRefines(m1, f1, e);
      ViewsStep(m1.mem, f1, Apply(m1, e).value.mem, f', e.root);
      assert Views(m1.mem, f1)[e.root] == View(m1.mem, e.root);
    }
  }

  lemma ViewsStep(a: Mem, f: Forest, b: Mem, f': Forest, root: Addr)
    requires root in f && f'.Keys == f.Keys && OthersKept(a, b, f, root)
    ensures Views(b, f') == Views(a, f)[root := View(b, root)]
  {
    assert forall r :: r in f <==> r in f'.Keys;
  }
}
