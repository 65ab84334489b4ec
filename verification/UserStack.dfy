/**
 The stack page a program starts with: the strings of envp and argv at the top,
 below them the two null-terminated pointer vectors, and argc at the stack
 pointer, as in section 3.4.1 of the System V AMD64 psABI.
 */
module UserStack {
  import opened Base
  import opened Bytes
  import opened UserMemory

  const STACK: nat := 4096

  /** The bytes the strings take, with their NULs. */
  function Size(strings: seq<seq<byte>>): (n: nat) {
    if strings == [] then 0 else |strings[0]| + 1 + Size(strings[1..])
  }

  /** Where the strings end and the vectors begin, going down. */
  function VectorTop(args: seq<seq<byte>>, envs: seq<seq<byte>>): (n: int) {
    var bottom := STACK - Size(envs) - Size(args);
    bottom - bottom % 16
  }

  /** The offset of the stack pointer in the page. */
  function Start(args: seq<seq<byte>>, envs: seq<seq<byte>>): (n: int) {
    VectorTop(args, envs) - 8 * (|args| + |envs| + 3)
  }

  predicate Fits(args: seq<seq<byte>>, envs: seq<seq<byte>>) { Start(args, envs) >= 0 }

  lemma {:induction false} SizeBound(strings: seq<seq<byte>>, longest: nat)
    requires forall i :: 0 <= i < |strings| ==> |strings[i]| < longest
    ensures Size(strings) <= longest * |strings|
    decreases |strings|
  {
    if strings != [] {
      SizeBound(strings[1..], longest);
      assert longest * |strings| == longest + longest * |strings[1..]|;
    }
  }

  /** Vectors the copy routines let through always fit the page. */
  lemma CopiedVectorsFit(args: seq<seq<byte>>, envs: seq<seq<byte>>)
    requires VectorOk(args) && VectorOk(envs)
    ensures Fits(args, envs)
  {
    SizeBound(args, 64);
    SizeBound(envs, 64);
  }

  lemma Multiple(x: int, q: int, m: nat, r: nat)
    requires x == m * q + r && r < m
    ensures x % m == r
  {
    var d := x / m - q;
    assert m * d == r - x % m;
    assert d >= 1 ==> m * d >= m;
    assert d <= -1 ==> m * d + m <= 0;
  }

  lemma Halves(q: int, r: int)
    requires r == 0 || r == 1
    ensures (16 * q - 8 * r) % 16 == 0 <==> r == 0
    ensures (16 * q - 8 * r) % 8 == 0
  {
    var x := 16 * q - 8 * r;
    Multiple(x, 2 * q - r, 8, 0);
    if r == 0 {
      Multiple(x, q, 16, 0);
    } else {
      Multiple(x, q - 1, 16, 8);
    }
  }

  lemma DownAligned(base: int, bottom: int, n: nat)
    requires base % 16 == 0
    ensures (base + (bottom - bottom % 16 - 8 * (n + 3))) % 16 == 0 <==> n % 2 == 1
    ensures (base + (bottom - bottom % 16 - 8 * (n + 3))) % 8 == 0
  {
    var b, t, h, r := base / 16, bottom / 16, (n + 3) / 2, (n + 3) % 2;
    assert base == 16 * b && bottom - bottom % 16 == 16 * t && n + 3 == 2 * h + r;
    Halves(b + t - h, r);
    assert r == 0 <==> n % 2 == 1;
    assert base + (bottom - bottom % 16 - 8 * (n + 3)) == 16 * (b + t - h) - 8 * r;
  }

  /** The stack pointer is 16-byte aligned exactly when argc + envc is odd. */
  lemma AlignedIff(base: nat, args: seq<seq<byte>>, envs: seq<seq<byte>>)
    requires base % 16 == 0
    ensures (base + Start(args, envs)) % 16 == 0 <==> (|args| + |envs|) % 2 == 1
    ensures (base + Start(args, envs)) % 8 == 0
  {
    DownAligned(base, STACK - Size(envs) - Size(args), |args| + |envs|);
  }

  // ---------------------------------------------------------------------
  // Reading a vector as a program does
  // ---------------------------------------------------------------------

  /** The strings whose addresses stand at `at` up to a null pointer, the page being at `base`. */
  function ReadVector(mem: seq<byte>, base: nat, at: nat): (r: Option<seq<seq<byte>>>)
    decreases |mem| - at
  {
    if at + 8 > |mem| then None
    else
      var p := WordAt(mem, at);
      if p == 0 then Some([])
      else if p < base then None
      else match StringAt(mem, p - base)
        case None => None
        case Some(s) =>
          match ReadVector(mem, base, at + 8)
          case None => None
          case Some(rest) => Some([s] + rest)
  }

  /** One entry of a vector: its word is the address of its string. */
  ghost predicate EntryLaid(mem: seq<byte>, base: nat, at: nat, off: nat, s: seq<byte>) {
    at + 8 <= |mem| && WordAt(mem, at) == base + off && Stands(mem, off, s)
  }

  ghost predicate Laid(mem: seq<byte>, base: nat, at: nat, offs: seq<nat>, strings: seq<seq<byte>>) {
    && |offs| == |strings|
    && (forall j {:trigger offs[j]} :: 0 <= j < |strings| ==> EntryLaid(mem, base, at + 8 * j, offs[j], strings[j]))
    && at + 8 * |strings| + 8 <= |mem| && WordAt(mem, at + 8 * |strings|) == 0
  }

  lemma {:induction false} ReadBack(mem: seq<byte>, base: nat, at: nat, offs: seq<nat>, strings: seq<seq<byte>>, j: nat)
    requires Laid(mem, base, at, offs, strings) && base > 0 && j <= |strings|
    requires forall i :: 0 <= i < |strings| ==> NoNul(strings[i])
    ensures ReadVector(mem, base, at + 8 * j) == Some(strings[j..])
    decreases |strings| - j
  {
    if j < |strings| {
      ReadBack(mem, base, at, offs, strings, j + 1);
      assert EntryLaid(mem, base, at + 8 * j, offs[j], strings[j]);
      StringStands(mem, offs[j], strings[j]);
      assert strings[j..] == [strings[j]] + strings[j + 1..];
    }
  }

  /** The finished page: argc, then argv, then envp. */
  ghost predicate StackOk(mem: seq<byte>, base: nat, args: seq<seq<byte>>, envs: seq<seq<byte>>,
                          argOffs: seq<nat>, envOffs: seq<nat>) {
    var rsp := Start(args, envs);
    && rsp >= 0 && rsp + 8 <= |mem| && WordAt(mem, rsp) == |args|
    && Laid(mem, base, rsp + 8, argOffs, args)
    && Laid(mem, base, rsp + 16 + 8 * |args|, envOffs, envs)
  }

  lemma ReadsWhole(mem: seq<byte>, base: nat, at: nat, offs: seq<nat>, strings: seq<seq<byte>>)
    requires Laid(mem, base, at, offs, strings) && base > 0 && VectorOk(strings)
    ensures ReadVector(mem, base, at) == Some(strings)
  {
    ReadBack(mem, base, at, offs, strings, 0);
    assert strings[0..] == strings;
  }

  /** A program that starts at argc finds exactly the vectors that were passed. */
  lemma StackReadsBack(mem: seq<byte>, base: nat, args: seq<seq<byte>>, envs: seq<seq<byte>>, argOffs: seq<nat>,
                       envOffs: seq<nat>)
    requires StackOk(mem, base, args, envs, argOffs, envOffs) && base > 0 && VectorOk(args) && VectorOk(envs)
    ensures var rsp := Start(args, envs);
            && WordAt(mem, rsp) == |args|
            && ReadVector(mem, base, rsp + 8) == Some(args)
            && ReadVector(mem, base, rsp + 16 + 8 * |args|) == Some(envs)
  {
    var rsp := Start(args, envs);
    var argv, envp := rsp + 8, rsp + 16 + 8 * |args|;
    ReadsWhole(mem, base, argv, argOffs, args);
    ReadsWhole(mem, base, envp, envOffs, envs);
  }

  // ---------------------------------------------------------------------
  // Building it in place
  // ---------------------------------------------------------------------

  /** Nothing outside [lo, hi) differs. */
  ghost predicate SameOutside(a: seq<byte>, b: seq<byte>, lo: int, hi: int) {
    |a| == |b| && forall k :: 0 <= k < |a| && !(lo <= k < hi) ==> a[k] == b[k]
  }

  lemma StandsKept(a: seq<byte>, b: seq<byte>, lo: int, hi: int, at: nat, s: seq<byte>)
    requires Stands(a, at, s) && SameOutside(a, b, lo, hi) && (at + |s| < lo || hi <= at)
    ensures Stands(b, at, s)
  {
    assert a[at..at + |s|] == b[at..at + |s|];
  }

  lemma WordKept(a: seq<byte>, b: seq<byte>, lo: int, hi: int, at: nat)
    requires at + 8 <= |a| && SameOutside(a, b, lo, hi) && (at + 8 <= lo || hi <= at)
    ensures at + 8 <= |b| && WordAt(b, at) == WordAt(a, at)
  {
    assert a[at..at + 8] == b[at..at + 8];
  }

  lemma LaidKept(a: seq<byte>, b: seq<byte>, lo: int, hi: int, base: nat, at: nat, offs: seq<nat>,
                 strings: seq<seq<byte>>)
    requires Laid(a, base, at, offs, strings) && SameOutside(a, b, lo, hi) && hi <= at
    requires forall j :: 0 <= j < |offs| ==> hi <= offs[j]
    ensures Laid(b, base, at, offs, strings)
  {
    forall j | 0 <= j < |strings|
      ensures EntryLaid(b, base, at + 8 * j, offs[j], strings[j])
    {
      assert EntryLaid(a, base, at + 8 * j, offs[j], strings[j]);
      WordKept(a, b, lo, hi, at + 8 * j);
      StandsKept(a, b, lo, hi, offs[j], strings[j]);
    }
    WordKept(a, b, lo, hi, at + 8 * |strings|);
  }

  /** scheduler_copy_stack_string */
  method PlaceString(page: array<byte>, top: nat, s: seq<byte>) returns (off: nat)
    requires |s| + 1 <= top <= page.Length
    modifies page
    ensures off == top - |s| - 1 && Stands(page[..], off, s)
    ensures SameOutside(old(page[..]), page[..], off, top)
  {
    off := top - (|s| + 1);
    var copied := 0;
    while copied < |s|
      invariant 0 <= copied <= |s|
      invariant forall k :: 0 <= k < copied ==> page[off + k] == s[k]
      invariant forall k :: 0 <= k < page.Length && !(off <= k < top) ==> page[k] == old(page[k])
    {
      page[off + copied] := s[copied];
      copied := copied + 1;
    }
    page[off + |s|] := 0;
    assert page[off..off + |s|] == s;
  }

  /** The strings stand in order at the offsets, all in [bottom, top). */
  ghost predicate AllStand(mem: seq<byte>, offs: seq<nat>, strings: seq<seq<byte>>, bottom: int, top: int) {
    && |offs| == |strings|
    && forall j {:trigger offs[j]} :: 0 <= j < |offs| ==>
              Stands(mem, offs[j], strings[j]) && bottom <= offs[j] && offs[j] + |strings[j]| < top
  }

  lemma AllStandKept(a: seq<byte>, b: seq<byte>, lo: int, hi: int, offs: seq<nat>, strings: seq<seq<byte>>,
                     bottom: int, top: int)
    requires AllStand(a, offs, strings, bottom, top) && SameOutside(a, b, lo, hi) && hi <= bottom
    ensures AllStand(b, offs, strings, bottom, top)
  {
    forall j | 0 <= j < |offs|
      ensures Stands(b, offs[j], strings[j])
    {
      StandsKept(a, b, lo, hi, offs[j], strings[j]);
    }
  }

  lemma AllStandGrows(mem: seq<byte>, offs: seq<nat>, strings: seq<seq<byte>>, bottom: int, top: int, off: nat,
                      s: seq<byte>)
    requires AllStand(mem, offs, strings, bottom, top) && Stands(mem, off, s) && off + |s| + 1 == bottom <= top
    ensures AllStand(mem, [off] + offs, [s] + strings, off, top)
  {
  }

  /** The strings, last first, downwards from top. */
  method PlaceStrings(page: array<byte>, top: nat, strings: seq<seq<byte>>) returns (offs: seq<nat>, bottom: nat)
    requires Size(strings) <= top <= page.Length
    modifies page
    ensures bottom == top - Size(strings)
    ensures AllStand(page[..], offs, strings, bottom, top)
    ensures SameOutside(old(page[..]), page[..], bottom, top)
  {
    var i := |strings|;
    offs, bottom := [], top;
    assert strings[i..] == [] && strings[..i] == strings;
    while i > 0
      invariant 0 <= i <= |strings| && bottom <= top && bottom == top - Size(strings[i..])
      invariant Size(strings) == Size(strings[..i]) + Size(strings[i..])
      invariant AllStand(page[..], offs, strings[i..], bottom, top)
      invariant SameOutside(old(page[..]), page[..], bottom, top)
    {
      SizeSplit(strings, i);
      i := i - 1;
      ghost var before, above := page[..], bottom;
      bottom := PlaceString(page, bottom, strings[i]);
      AllStandKept(before, page[..], bottom, above, offs, strings[i + 1..], above, top);
      AllStandGrows(page[..], offs, strings[i + 1..], above, top, bottom, strings[i]);
      assert strings[i..] == [strings[i]] + strings[i + 1..];
      offs := [bottom] + offs;
    }
    assert strings[0..] == strings;
  }

  lemma {:induction false} SizeAppend(a: seq<seq<byte>>, b: seq<seq<byte>>)
    ensures Size(a + b) == Size(a) + Size(b)
    decreases |a|
  {
    if a == [] {
      assert a + b == b;
    } else {
      assert (a + b)[1..] == a[1..] + b;
      SizeAppend(a[1..], b);
    }
  }

  lemma SizeSplit(strings: seq<seq<byte>>, i: nat)
    requires 0 < i <= |strings|
    ensures Size(strings) == Size(strings[..i - 1]) + Size(strings[i - 1..])
    ensures Size(strings[i - 1..]) == |strings[i - 1]| + 1 + Size(strings[i..])
  {
    SizeAppend(strings[..i - 1], strings[i - 1..]);
    assert strings == strings[..i - 1] + strings[i - 1..];
    assert strings[i - 1..][1..] == strings[i..];
  }

  /** store_qword */
  method StoreWord(page: array<byte>, at: nat, x: nat)
    requires at + 8 <= page.Length && x < TWO64
    modifies page
    ensures WordAt(page[..], at) == x
    ensures SameOutside(old(page[..]), page[..], at, at + 8)
  {
    var bytes := Encode(x, 8);
    var i := 0;
    while i < 8
      invariant 0 <= i <= 8
      invariant forall k :: 0 <= k < i ==> page[at + k] == bytes[k]
      invariant forall k :: 0 <= k < page.Length && !(at <= k < at + 8) ==> page[k] == old(page[k])
    {
      page[at + i] := bytes[i];
      i := i + 1;
    }
    assert page[..][at..at + 8] == bytes;
    Power8();
    DecodeEncode(x, 8);
  }

  ghost predicate WordsStand(mem: seq<byte>, base: nat, at: nat, offs: seq<nat>, n: nat) {
    n <= |offs| && forall j {:trigger offs[j]} :: 0 <= j < n ==>
              at + 8 * j + 8 <= |mem| && WordAt(mem, at + 8 * j) == base + offs[j]
  }

  lemma WordsKept(a: seq<byte>, b: seq<byte>, base: nat, at: nat, offs: seq<nat>, n: nat)
    requires WordsStand(a, base, at, offs, n) && SameOutside(a, b, at + 8 * n, at + 8 * n + 8)
    ensures WordsStand(b, base, at, offs, n)
  {
    forall j | 0 <= j < n
      ensures at + 8 * j + 8 <= |b| && WordAt(b, at + 8 * j) == base + offs[j]
    {
      var off := offs[j];
      WordKept(a, b, at + 8 * n, at + 8 * n + 8, at + 8 * j);
    }
  }

  lemma SameOutsideTrans(a: seq<byte>, b: seq<byte>, c: seq<byte>, lo: int, mid: int, hi: int)
    requires SameOutside(a, b, lo, mid) && SameOutside(b, c, mid, hi) && lo <= mid <= hi
    ensures SameOutside(a, c, lo, hi)
  {
  }

  /** A pointer vector and its null word. */
  method PlaceVector(page: array<byte>, at: nat, base: nat, offs: seq<nat>)
    requires at % 8 == 0 && at + 8 * |offs| + 8 <= page.Length
    requires forall j :: 0 <= j < |offs| ==> base + offs[j] < TWO64
    modifies page
    ensures WordsStand(page[..], base, at, offs, |offs|) && WordAt(page[..], at + 8 * |offs|) == 0
    ensures SameOutside(old(page[..]), page[..], at, at + 8 * |offs| + 8)
  {
    var i := 0;
    while i < |offs|
      invariant 0 <= i <= |offs|
      invariant WordsStand(page[..], base, at, offs, i)
      invariant SameOutside(old(page[..]), page[..], at, at + 8 * i)
    {
      ghost var before := page[..];
      StoreWord(page, at + 8 * i, base + offs[i]);
      WordsKept(before, page[..], base, at, offs, i);
      SameOutsideTrans(old(page[..]), before, page[..], at, at + 8 * i, at + 8 * i + 8);
      i := i + 1;
    }
    ghost var before := page[..];
    StoreWord(page, at + 8 * i, 0);
    WordsKept(before, page[..], base, at, offs, i);
    SameOutsideTrans(old(page[..]), before, page[..], at, at + 8 * i, at + 8 * i + 8);
  }

  lemma LaidFrom(mem: seq<byte>, base: nat, at: nat, offs: seq<nat>, strings: seq<seq<byte>>, bottom: int, top: int)
    requires AllStand(mem, offs, strings, bottom, top) && WordsStand(mem, base, at, offs, |offs|)
    requires at + 8 * |offs| + 8 <= |mem| && WordAt(mem, at + 8 * |offs|) == 0
    ensures Laid(mem, base, at, offs, strings)
  {
    forall j | 0 <= j < |strings|
      ensures EntryLaid(mem, base, at + 8 * j, offs[j], strings[j])
    {
      assert Stands(mem, offs[j], strings[j]);
    }
  }

  /** One vector, below strings that stand already: what is at or above its end is kept. */
  method LayVector(page: array<byte>, at: nat, base: nat, offs: seq<nat>, ghost strings: seq<seq<byte>>,
                   ghost bottom: int, ghost top: int)
    requires at % 8 == 0 && at + 8 * |offs| + 8 <= page.Length && at + 8 * |offs| + 8 <= bottom
    requires base + page.Length <= TWO64 && AllStand(page[..], offs, strings, bottom, top)
    modifies page
    ensures Laid(page[..], base, at, offs, strings)
    ensures SameOutside(old(page[..]), page[..], at, at + 8 * |offs| + 8)
  {
    assert forall j :: 0 <= j < |offs| ==> Stands(page[..], offs[j], strings[j]);
    PlaceVector(page, at, base, offs);
    AllStandKept(old(page[..]), page[..], at, at + 8 * |offs| + 8, offs, strings, bottom, top);
    LaidFrom(page[..], base, at, offs, strings, bottom, top);
  }

  /** The strings of both vectors, those of envp on top. */
  method PlaceBoth(page: array<byte>, args: seq<seq<byte>>, envs: seq<seq<byte>>)
      returns (argOffs: seq<nat>, envOffs: seq<nat>, bottom: nat)
    requires page.Length == STACK && Size(args) + Size(envs) <= STACK
    modifies page
    ensures bottom == STACK - Size(envs) - Size(args)
    ensures AllStand(page[..], argOffs, args, bottom, STACK) && AllStand(page[..], envOffs, envs, bottom, STACK)
  {
    var envBottom: nat;
    envOffs, envBottom := PlaceStrings(page, STACK, envs);
    ghost var before := page[..];
    argOffs, bottom := PlaceStrings(page, envBottom, args);
    AllStandKept(before, page[..], bottom, envBottom, envOffs, envs, envBottom, STACK);
  }

  /** Both vectors and argc, downwards from an aligned offset below the strings. */
  method LayBoth(page: array<byte>, base: nat, top: nat, argOffs: seq<nat>, envOffs: seq<nat>,
                 ghost args: seq<seq<byte>>, ghost envs: seq<seq<byte>>, ghost bottom: int)
      returns (off: nat)
    requires page.Length == STACK && base + STACK <= TWO64 && top % 8 == 0 && top <= bottom
    requires 8 * (|argOffs| + |envOffs| + 3) <= top <= STACK
    requires AllStand(page[..], argOffs, args, bottom, STACK) && AllStand(page[..], envOffs, envs, bottom, STACK)
    modifies page
    ensures off == top - 8 * (|argOffs| + |envOffs| + 3)
    ensures WordAt(page[..], off) == |args|
    ensures Laid(page[..], base, off + 8, argOffs, args) && Laid(page[..], base, off + 16 + 8 * |args|, envOffs, envs)
  {
    var envAt := top - (|envOffs| + 1) * 8;
    ghost var mem0 := page[..];
    LayVector(page, envAt, base, envOffs, envs, bottom, STACK);
    ghost var mem1 := page[..];
    AllStandKept(mem0, mem1, envAt, top, argOffs, args, bottom, STACK);
    var argAt := envAt - (|argOffs| + 1) * 8;
    LayVector(page, argAt, base, argOffs, args, bottom, STACK);
    ghost var mem2 := page[..];
    LaidKept(mem1, mem2, argAt, envAt, base, envAt, envOffs, envs);
    off := argAt - 8;
    StoreWord(page, off, |argOffs|);
    LaidKept(mem2, page[..], off, argAt, base, argAt, argOffs, args);
    LaidKept(mem2, page[..], off, argAt, base, envAt, envOffs, envs);
  }

  lemma Floor16(x: int)
    ensures (x - x % 16) % 8 == 0 && x - x % 16 <= x
  {
    assert x - x % 16 == 8 * (2 * (x / 16));
  }

  lemma RoomBelow(args: seq<seq<byte>>, envs: seq<seq<byte>>)
    requires Fits(args, envs)
    ensures Size(args) + Size(envs) <= STACK
    ensures var bottom, top := STACK - Size(envs) - Size(args), VectorTop(args, envs);
            && top == bottom - bottom % 16 && top % 8 == 0 && 8 * (|args| + |envs| + 3) <= top <= bottom
            && Start(args, envs) == top - 8 * (|args| + |envs| + 3)
  {
    Floor16(STACK - Size(envs) - Size(args));
  }

  lemma StackFrom(mem: seq<byte>, base: nat, off: nat, args: seq<seq<byte>>, envs: seq<seq<byte>>,
                  argOffs: seq<nat>, envOffs: seq<nat>)
    requires off == Start(args, envs) && off + 8 <= |mem| && WordAt(mem, off) == |args|
    requires Laid(mem, base, off + 8, argOffs, args) && Laid(mem, base, off + 16 + 8 * |args|, envOffs, envs)
    ensures StackOk(mem, base, args, envs, argOffs, envOffs)
  {
  }

  /**
   scheduler_build_user_initial_stack, on a page seen at address `base`. The
   registers it returns are the stack pointer, argc, argv and envp.
   */
  method BuildStack(page: array<byte>, base: nat, args: seq<seq<byte>>, envs: seq<seq<byte>>)
      returns (rsp: nat, argc: nat, argv: nat, envp: nat, ghost argOffs: seq<nat>, ghost envOffs: seq<nat>)
    requires page.Length == STACK && Fits(args, envs) && base + STACK <= TWO64
    modifies page
    ensures rsp == base + Start(args, envs) && argc == |args| && argv == rsp + 8 && envp == argv + 8 * |args| + 8
    ensures StackOk(page[..], base, args, envs, argOffs, envOffs)
  {
    RoomBelow(args, envs);
    var argPlaces, envPlaces, bottom := PlaceBoth(page, args, envs);
    var off := LayBoth(page, base, bottom - bottom % 16, argPlaces, envPlaces, args, envs, bottom);
    rsp, argc := base + off, |args|;
    argv := rsp + 8;
    envp := argv + 8 * |args| + 8;
    argOffs, envOffs := argPlaces, envPlaces;
    StackFrom(page[..], base, off, args, envs, argPlaces, envPlaces);
  }

  // ---------------------------------------------------------------------
  // Passing the vectors on
  // ---------------------------------------------------------------------

  /** The page is the last of the window's bytes. */
  ghost predicate OnTop(w: Window, bytes: seq<byte>, page: seq<byte>) {
    && WindowOk(w) && |bytes| == w.limit - w.base && |page| == w.limit - w.heapLimit
    && bytes[w.heapLimit - w.base..] == page
  }

  lemma TopWord(w: Window, bytes: seq<byte>, page: seq<byte>, at: nat)
    requires OnTop(w, bytes, page) && at + 8 <= |page| && WordAt(page, at) < TWO63
    ensures EntryAt(w, bytes, w.heapLimit + at) == Some(WordAt(page, at))
  {
    var shift := w.heapLimit - w.base;
    assert page[at..at + 8] == bytes[shift + at..shift + at + 8];
    AcceptsIff(w, w.heapLimit + at, 8);
  }

  lemma TopString(w: Window, bytes: seq<byte>, page: seq<byte>, at: nat, s: seq<byte>)
    requires OnTop(w, bytes, page) && Stands(page, at, s) && NoNul(s) && |s| < MAX_STRING
    ensures CopiedString(w, bytes, w.heapLimit + at) == Some(s)
  {
    var shift := w.heapLimit - w.base;
    assert bytes[shift + at..shift + at + |s|] == page[at..at + |s|];
    StringStands(bytes, shift + at, s);
    AcceptsIff(w, w.heapLimit + at, |s| + 1);
  }

  lemma TopEntry(w: Window, bytes: seq<byte>, page: seq<byte>, at: nat, j: nat, off: nat, s: seq<byte>)
    requires OnTop(w, bytes, page) && EntryLaid(page, w.heapLimit, at + 8 * j, off, s) && NoNul(s) && |s| < MAX_STRING
    ensures CopiedEntry(w, bytes, w.heapLimit + at, j) == Some(Some(s))
  {
    TopWord(w, bytes, page, at + 8 * j);
    TopString(w, bytes, page, off, s);
  }

  lemma {:induction false} CopyBack(w: Window, bytes: seq<byte>, page: seq<byte>, at: nat, offs: seq<nat>,
                                    strings: seq<seq<byte>>, j: nat)
    requires OnTop(w, bytes, page) && Laid(page, w.heapLimit, at, offs, strings) && VectorOk(strings) && j <= |strings|
    ensures CopiedFrom(w, bytes, w.heapLimit + at, j) == Some(strings[j..])
    decreases |strings| - j
  {
    if j < |strings| {
      CopyBack(w, bytes, page, at, offs, strings, j + 1);
      TopEntry(w, bytes, page, at, j, offs[j], strings[j]);
      assert strings[j..] == [strings[j]] + strings[j + 1..];
    } else {
      TopWord(w, bytes, page, at + 8 * j);
      assert strings[j..] == [];
    }
  }

  lemma CopyWhole(w: Window, bytes: seq<byte>, page: seq<byte>, at: nat, offs: seq<nat>, strings: seq<seq<byte>>)
    requires OnTop(w, bytes, page) && Laid(page, w.heapLimit, at, offs, strings) && VectorOk(strings)
    requires (w.heapLimit + at) % 8 == 0
    ensures CopiedVector(w, bytes, w.heapLimit + at) == Some(strings)
  {
    CopyBack(w, bytes, page, at, offs, strings, 0);
    assert strings[0..] == strings;
  }

  lemma VectorsAligned(base: nat, args: seq<seq<byte>>, envs: seq<seq<byte>>)
    requires base % 16 == 0
    ensures (base + (Start(args, envs) + 8)) % 8 == 0 && (base + (Start(args, envs) + 16 + 8 * |args|)) % 8 == 0
  {
    AlignedIff(base, args, envs);
    var x := base + Start(args, envs);
    Multiple(x + 8, x / 8 + 1, 8, 0);
    Multiple(x + 16 + 8 * |args|, x / 8 + 2 + |args|, 8, 0);
  }

  lemma ArgvIsLaid(mem: seq<byte>, base: nat, args: seq<seq<byte>>, envs: seq<seq<byte>>, argOffs: seq<nat>,
                   envOffs: seq<nat>, argv: int)
    requires StackOk(mem, base, args, envs, argOffs, envOffs) && base % 16 == 0 && argv == Start(args, envs) + 8
    ensures argv >= 0 && Laid(mem, base, argv, argOffs, args) && (base + argv) % 8 == 0
  {
    VectorsAligned(base, args, envs);
  }

  lemma EnvpIsLaid(mem: seq<byte>, base: nat, args: seq<seq<byte>>, envs: seq<seq<byte>>, argOffs: seq<nat>,
                   envOffs: seq<nat>, envp: int)
    requires StackOk(mem, base, args, envs, argOffs, envOffs) && base % 16 == 0
             && envp == Start(args, envs) + 16 + 8 * |args|
    ensures envp >= 0 && Laid(mem, base, envp, envOffs, envs) && (base + envp) % 8 == 0
  {
    VectorsAligned(base, args, envs);
  }

  /** A program that passes its own argv to exec passes on exactly the arguments it was started with. */
  lemma ArgvPassedOn(w: Window, bytes: seq<byte>, page: seq<byte>, args: seq<seq<byte>>, envs: seq<seq<byte>>,
                     argOffs: seq<nat>, envOffs: seq<nat>, argv: int)
    requires OnTop(w, bytes, page) && w.heapLimit % 16 == 0 && VectorOk(args)
    requires StackOk(page, w.heapLimit, args, envs, argOffs, envOffs) && argv == Start(args, envs) + 8
    ensures CopiedVector(w, bytes, w.heapLimit + argv) == Some(args)
  {
    ArgvIsLaid(page, w.heapLimit, args, envs, argOffs, envOffs, argv);
    CopyWhole(w, bytes, page, argv, argOffs, args);
  }

  /** And the same for its envp. */
  lemma EnvpPassedOn(w: Window, bytes: seq<byte>, page: seq<byte>, args: seq<seq<byte>>, envs: seq<seq<byte>>,
                     argOffs: seq<nat>, envOffs: seq<nat>, envp: int)
    requires OnTop(w, bytes, page) && w.heapLimit % 16 == 0 && VectorOk(envs)
    requires StackOk(page, w.heapLimit, args, envs, argOffs, envOffs) && envp == Start(args, envs) + 16 + 8 * |args|
    ensures CopiedVector(w, bytes, w.heapLimit + envp) == Some(envs)
  {
    EnvpIsLaid(page, w.heapLimit, args, envs, argOffs, envOffs, envp);
    CopyWhole(w, bytes, page, envp, envOffs, envs);
  }
}
