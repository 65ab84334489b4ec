/**
 Which user buffers the system calls accept, why every accepted byte is the
 caller's own, and how strings and vectors are copied out of user memory.
 */
module UserMemory {
  import opened Base
  import opened Bytes
  import Elf
  import Frames
  import PageTables
  import Spaces
  import Processes
  import Kernel
  import KernelSafety
  import KernelRuns
  import Vfs

  /** The five addresses a task's slot records about its window. */
  datatype Window = Window(base: int, limit: int, heapBase: int, heapLimit: int, brk: int)

  /** syscall_validate_user_buffer, with the 64-bit sum of pointer and length. */
  predicate Accepts(w: Window, ptr: int, length: int) {
    && !(w.base == 0 || w.limit <= w.base)
    && !(length < 0)
    && !(ptr == 0 && length != 0)
    && !(ptr < w.base)
    && var end := Elf.Wrap(ptr + length);
       && !(end < ptr || end > w.limit)
       && (end <= w.heapBase || ptr >= w.heapLimit || (ptr >= w.heapBase && end <= w.brk))
  }

  predicate WindowOk(w: Window) {
    0 < w.base <= w.heapBase <= w.brk <= w.heapLimit < w.limit < TWO63
  }

  /** length bytes from ptr lie in [lo, hi). */
  predicate Within(ptr: int, length: int, lo: int, hi: int) { lo <= ptr && ptr + length <= hi }

  /** A buffer is accepted exactly when it lies wholly in the image, wholly in
      the heap below the break, or wholly in the stack; no sum wraps into acceptance. */
  lemma AcceptsIff(w: Window, ptr: int, length: int)
    requires WindowOk(w) && I64(ptr) && I64(length)
    ensures Accepts(w, ptr, length) <==>
              && length >= 0
              && (|| Within(ptr, length, w.base, w.heapBase)
                  || Within(ptr, length, w.heapBase, w.brk)
                  || Within(ptr, length, w.heapLimit, w.limit))
  {
    if length >= 0 && ptr >= w.base && ptr + length >= TWO63 {
      assert Elf.Wrap(ptr + length) == ptr + length - TWO64 < ptr;
    }
  }

  /** Part of an accepted buffer, from its start, is accepted. */
  lemma AcceptsShorter(w: Window, ptr: int, length: int, shorter: int)
    requires WindowOk(w) && I64(ptr) && I64(length) && 0 <= shorter <= length && Accepts(w, ptr, length)
    ensures Accepts(w, ptr, shorter)
  {
    AcceptsIff(w, ptr, length);
    AcceptsIff(w, ptr, shorter);
  }

  // ---------------------------------------------------------------------
  // Accepted bytes are the task's own
  // ---------------------------------------------------------------------

  /** What install and exec record for a process. */
  function WindowOf(p: Processes.Process): (w: Window)
    requires p.Process? && |p.pages| >= Processes.HEAP_PAGES + 1
  {
    Window(Spaces.PageVirt(0), Spaces.PageVirt(|p.pages|), Processes.HeapBase(|p.pages|),
        Processes.HeapLimit(|p.pages|), p.brk)
  }

  lemma WindowOfOk(mem: PageTables.Mem, p: Processes.Process)
    requires p.Process? && Processes.ProcessOk(mem, p)
    ensures WindowOk(WindowOf(p))
    ensures WindowOf(p).base == 0x2000_0000 && WindowOf(p).limit <= 0x2000_0000 + 69 * 4096
  {
  }

  /** length bytes from ptr lie in the image's pages, in the heap below the break,
      or in the last page, of a process of n pages: the image is all but the four
      heap pages and the stack page, and the window starts at 512 MiB. */
  predicate InProcess(pages: nat, brk: int, ptr: int, length: int) {
    var heap, stack := 0x2000_0000 + (pages - 5) * 4096, 0x2000_0000 + (pages - 1) * 4096;
    || Within(ptr, length, 0x2000_0000, heap)
    || Within(ptr, length, heap, brk)
    || Within(ptr, length, stack, stack + 4096)
  }

  /** Which buffers of a process are accepted, in terms of its pages and its break. */
  lemma AcceptsExactly(mem: PageTables.Mem, p: Processes.Process, ptr: int, length: int)
    requires p.Process? && Processes.ProcessOk(mem, p) && I64(ptr) && I64(length)
    ensures Accepts(WindowOf(p), ptr, length) <==> length >= 0 && InProcess(|p.pages|, p.brk, ptr, length)
  {
    WindowOfOk(mem, p);
    AcceptsIff(WindowOf(p), ptr, length);
  }

  /** Every byte of an accepted buffer is one ring 3 may use, in a frame of the task's own page array. */
  lemma AcceptedIsOwn(mem: PageTables.Mem, p: Processes.Process, ptr: int, length: int, a: int)
    requires p.Process? && Processes.ProcessOk(mem, p) && I64(ptr) && I64(length)
    requires Accepts(WindowOf(p), ptr, length) && ptr <= a < ptr + length
    ensures var v := a / 4096;
            && 0 <= v < PageTables.SPAN && PageTables.UserWalk(mem, p.tree.p4, v)
            && 0 <= v - Spaces.USER_BASE < |p.pages| == |p.flags|
            && PageTables.Walk(mem, p.tree.p4, v)
                == Some(PageTables.Leaf(p.pages[v - Spaces.USER_BASE], p.flags[v - Spaces.USER_BASE]))
  {
    WindowOfOk(mem, p);
    AcceptsIff(WindowOf(p), ptr, length);
    var v := a / 4096;
    assert 0x2000_0000 <= a < (Spaces.USER_BASE + |p.pages|) * 4096;
    KernelSafety.UserReach(mem, p, v);
  }

  lemma ProcessInEveryRun(pool: Frames.Pool, vfs: Vfs.Vfs, states: seq<Kernel.Kernel>, steps: seq<Kernel.Step>,
                          n: nat, id: nat)
    requires KernelRuns.BootRun(pool, vfs, states, steps, n)
    requires id < |states[n].procs|
    ensures Processes.ProcessOk(states[n].m.mem, states[n].procs[id])
  {
    KernelRuns.InvInRun(pool, vfs, states, steps, n);
  }

  /** In every state of every run from boot: a process's break is inside its
      heap, exactly the buffers inside its image, its heap below the break and
      its stack are accepted, and accepted bytes are its own. */
  lemma AcceptedIsOwnInEveryRun(pool: Frames.Pool, vfs: Vfs.Vfs, states: seq<Kernel.Kernel>, steps: seq<Kernel.Step>,
                                n: nat, id: nat, ptr: int, length: int, a: int)
    requires KernelRuns.BootRun(pool, vfs, states, steps, n)
    requires id < |states[n].procs| && states[n].procs[id].Process? && I64(ptr) && I64(length)
    ensures var p, mem := states[n].procs[id], states[n].m.mem;
            && |p.pages| >= Processes.HEAP_PAGES + 1
            && 0x2000_0000 + (|p.pages| - 5) * 4096 <= p.brk <= 0x2000_0000 + (|p.pages| - 1) * 4096
            && (Accepts(WindowOf(p), ptr, length) <==> length >= 0 && InProcess(|p.pages|, p.brk, ptr, length))
            && (Accepts(WindowOf(p), ptr, length) && ptr <= a < ptr + length ==>
                  var i := a / 4096 - Spaces.USER_BASE;
                  && 0 <= i < |p.pages| == |p.flags| && PageTables.UserWalk(mem, p.tree.p4, a / 4096)
                  && PageTables.Walk(mem, p.tree.p4, a / 4096) == Some(PageTables.Leaf(p.pages[i], p.flags[i])))
  {
    ProcessInEveryRun(pool, vfs, states, steps, n, id);
    var p, mem := states[n].procs[id], states[n].m.mem;
    AcceptsExactly(mem, p, ptr, length);
    if Accepts(WindowOf(p), ptr, length) && ptr <= a < ptr + length {
      AcceptedIsOwn(mem, p, ptr, length, a);
    }
  }

  // ---------------------------------------------------------------------
  // Copying strings and vectors out of user memory
  // ---------------------------------------------------------------------

  const MAX_STRING: nat := 64
  const MAX_STRINGS: nat := 8

  /** The string at ptr, if it is shorter than 64 bytes and accepted with its NUL.
      `bytes` are the bytes of the window. */
  function CopiedString(w: Window, bytes: seq<byte>, ptr: int): (r: Option<seq<byte>>) {
    if ptr < w.base then None
    else match StringAt(bytes, ptr - w.base)
      case None => None
      case Some(s) => if |s| < MAX_STRING && Accepts(w, ptr, |s| + 1) then Some(s) else None
  }

  lemma {:induction false} LateNul(bytes: seq<byte>, at: nat, n: nat)
    requires at + n <= |bytes| && forall k :: at <= k < at + n ==> bytes[k] != 0
    ensures StringAt(bytes, at).Some? ==> |StringAt(bytes, at).value| >= n
    decreases n
  {
    if n > 0 {
      LateNul(bytes, at + 1, n - 1);
    }
  }

  lemma TooLong(w: Window, bytes: seq<byte>, ptr: int, n: nat)
    requires WindowOk(w) && I64(ptr) && ptr >= w.base && |bytes| == w.limit - w.base && ptr - w.base + n <= |bytes|
    requires forall k :: ptr - w.base <= k < ptr - w.base + n ==> bytes[k] != 0
    requires n >= MAX_STRING || !Accepts(w, ptr, n + 1)
    ensures CopiedString(w, bytes, ptr) == None
  {
    LateNul(bytes, ptr - w.base, n);
    var r := StringAt(bytes, ptr - w.base);
    if r.Some? && |r.value| < MAX_STRING && Accepts(w, ptr, |r.value| + 1) {
      AcceptsShorter(w, ptr, |r.value| + 1, n + 1);
    }
  }

  /** syscall_copy_user_cstring: every byte is read only after the buffer that ends with it was accepted. */
  method CopyUserString(w: Window, bytes: seq<byte>, ptr: int) returns (r: Option<seq<byte>>)
    requires WindowOk(w) && |bytes| == w.limit - w.base && I64(ptr)
    ensures r == CopiedString(w, bytes, ptr)
  {
    if ptr == 0 {
      return None;
    }
    var n := 0;
    while n < MAX_STRING
      invariant 0 <= n <= MAX_STRING
      invariant n > 0 ==> ptr >= w.base && ptr - w.base + n <= |bytes|
      invariant n > 0 ==> forall k :: ptr - w.base <= k < ptr - w.base + n ==> bytes[k] != 0
    {
      AcceptsIff(w, ptr, n + 1);
      if !Accepts(w, ptr, n + 1) {
        if w.base <= ptr <= w.limit {
          TooLong(w, bytes, ptr, n);
        } else if ptr > w.limit {
          assert StringAt(bytes, ptr - w.base).None?;
        }
        return None;
      }
      var at := ptr - w.base;
      if bytes[at + n] == 0 {
        var s := CopyBytes(bytes, at, n);
        FoundString(w, bytes, ptr, s);
        return Some(s);
      }
      n := n + 1;
    }
    TooLong(w, bytes, ptr, n);
    return None;
  }

  lemma FoundString(w: Window, bytes: seq<byte>, ptr: int, s: seq<byte>)
    requires ptr >= w.base && |s| < MAX_STRING && Accepts(w, ptr, |s| + 1)
    requires ptr - w.base + |s| < |bytes| && s == bytes[ptr - w.base..ptr - w.base + |s|]
             && bytes[ptr - w.base + |s|] == 0
    requires forall k :: ptr - w.base <= k < ptr - w.base + |s| ==> bytes[k] != 0
    ensures CopiedString(w, bytes, ptr) == Some(s)
  {
    StringStands(bytes, ptr - w.base, s);
  }

  /** The entry of the vector's array, a signed 64-bit pointer, if it may be read. */
  function EntryAt(w: Window, bytes: seq<byte>, at: int): (r: Option<int>) {
    var o := at - w.base;
    if Accepts(w, at, 8) && 0 <= o && o + 8 <= |bytes| then Some(Elf.Wrap(WordAt(bytes, o))) else None
  }

  /** The string entry `count` points at: None if it cannot be copied, Some(None) for a null entry. */
  function CopiedEntry(w: Window, bytes: seq<byte>, array0: int, count: nat): (r: Option<Option<seq<byte>>>) {
    match EntryAt(w, bytes, Elf.Wrap(array0 + count * 8))
    case None => None
    case Some(entry) =>
      if entry == 0 then Some(None)
      else match CopiedString(w, bytes, entry)
        case None => None
        case Some(s) => Some(Some(s))
  }

  /** The strings of the vector from entry `count` on, up to a null entry among the first nine. */
  function CopiedFrom(w: Window, bytes: seq<byte>, array0: int, count: nat): (r: Option<seq<seq<byte>>>)
    decreases MAX_STRINGS - count, |bytes|
  {
    match CopiedEntry(w, bytes, array0, count)
    case None => None
    case Some(None) => Some([])
    case Some(Some(s)) =>
      if count >= MAX_STRINGS then None
      else match CopiedFrom(w, bytes, array0, count + 1)
        case None => None
        case Some(rest) => Some([s] + rest)
  }

  function CopiedVector(w: Window, bytes: seq<byte>, array0: int): (r: Option<seq<seq<byte>>>) {
    if array0 == 0 || array0 % 8 != 0 then None else CopiedFrom(w, bytes, array0, 0)
  }

  /** What exec passes on: at most eight strings, each under 64 bytes and without a NUL. */
  ghost predicate VectorOk(strings: seq<seq<byte>>) {
    |strings| <= MAX_STRINGS && forall i :: 0 <= i < |strings| ==> |strings[i]| < MAX_STRING && NoNul(strings[i])
  }

  lemma VectorGrows(s: seq<byte>, rest: seq<seq<byte>>)
    requires VectorOk(rest) && |rest| < MAX_STRINGS && |s| < MAX_STRING && NoNul(s)
    ensures VectorOk([s] + rest)
  {
  }

  lemma CopiedStringOk(w: Window, bytes: seq<byte>, ptr: int)
    requires CopiedString(w, bytes, ptr).Some?
    ensures |CopiedString(w, bytes, ptr).value| < MAX_STRING && NoNul(CopiedString(w, bytes, ptr).value)
  {
    StringIsThere(bytes, ptr - w.base);
  }

  lemma {:induction false} CopiedFromOk(w: Window, bytes: seq<byte>, array0: int, count: nat)
    requires count <= MAX_STRINGS && CopiedFrom(w, bytes, array0, count).Some?
    ensures |CopiedFrom(w, bytes, array0, count).value| <= MAX_STRINGS - count
    ensures VectorOk(CopiedFrom(w, bytes, array0, count).value)
    decreases MAX_STRINGS - count
  {
    var entry := CopiedEntry(w, bytes, array0, count).value;
    if entry.Some? {
      CopiedStringOk(w, bytes, EntryAt(w, bytes, Elf.Wrap(array0 + count * 8)).value);
      CopiedFromOk(w, bytes, array0, count + 1);
      VectorGrows(entry.value, CopiedFrom(w, bytes, array0, count + 1).value);
    }
  }

  /** The strings so far, then those of the rest. */
  function Followed(done: seq<seq<byte>>, rest: Option<seq<seq<byte>>>): (r: Option<seq<seq<byte>>>) {
    match rest case None => None case Some(v) => Some(done + v)
  }

  lemma FollowedStep(done: seq<seq<byte>>, s: seq<byte>, rest: Option<seq<seq<byte>>>)
    ensures Followed(done, match rest case None => None case Some(v) => Some([s] + v)) == Followed(done + [s], rest)
  {
    if rest.Some? {
      assert done + ([s] + rest.value) == done + [s] + rest.value;
    }
  }

  lemma FollowedEnd(done: seq<seq<byte>>)
    ensures Followed(done, Some([])) == Some(done)
  {
    assert done + [] == done;
  }

  lemma FollowedStart(rest: Option<seq<seq<byte>>>)
    ensures Followed([], rest) == rest
  {
    if rest.Some? {
      assert [] + rest.value == rest.value;
    }
  }

  method ReadEntry(w: Window, bytes: seq<byte>, at: int) returns (r: Option<int>)
    requires WindowOk(w) && |bytes| == w.limit - w.base && I64(at)
    ensures r == EntryAt(w, bytes, at)
    ensures r.Some? ==> I64(r.value)
  {
    AcceptsIff(w, at, 8);
    if !Accepts(w, at, 8) {
      return None;
    }
    return Some(Elf.Wrap(WordAt(bytes, at - w.base)));
  }

  method CopyEntry(w: Window, bytes: seq<byte>, array0: int, count: nat) returns (r: Option<Option<seq<byte>>>)
    requires WindowOk(w) && |bytes| == w.limit - w.base
    ensures r == CopiedEntry(w, bytes, array0, count)
  {
    var entry := ReadEntry(w, bytes, Elf.Wrap(array0 + count * 8));
    if entry.None? {
      return None;
    }
    if entry.value == 0 {
      return Some(None);
    }
    var s := CopyUserString(w, bytes, entry.value);
    if s.None? {
      return None;
    }
    return Some(s);
  }

  /** syscall_copy_user_exec_vector */
  method CopyUserVector(w: Window, bytes: seq<byte>, array0: int) returns (r: Option<seq<seq<byte>>>)
    requires WindowOk(w) && |bytes| == w.limit - w.base && I64(array0)
    ensures r == CopiedVector(w, bytes, array0)
  {
    if array0 == 0 || array0 % 8 != 0 {
      return None;
    }
    var done: seq<seq<byte>> := [];
    var count := 0;
    FollowedStart(CopiedFrom(w, bytes, array0, 0));
    while count < MAX_STRINGS
      invariant 0 <= count <= MAX_STRINGS
      invariant CopiedVector(w, bytes, array0) == Followed(done, CopiedFrom(w, bytes, array0, count))
    {
      var entry := CopyEntry(w, bytes, array0, count);
      if entry.None? {
        return None;
      }
      if entry.value.None? {
        FollowedEnd(done);
        return Some(done);
      }
      FollowedStep(done, entry.value.value, CopiedFrom(w, bytes, array0, count + 1));
      done := done + [entry.value.value];
      count := count + 1;
    }
    var entry := CopyEntry(w, bytes, array0, count);
    if entry != Some(None) {
      return None;
    }
    FollowedEnd(done);
    return Some(done);
  }

  /** Whatever the copy returns keeps the limits. */
  lemma CopiedVectorOk(w: Window, bytes: seq<byte>, array0: int)
    requires CopiedVector(w, bytes, array0).Some?
    ensures VectorOk(CopiedVector(w, bytes, array0).value)
  {
    CopiedFromOk(w, bytes, array0, 0);
  }

  // ---------------------------------------------------------------------
  // What is copied, said without the order of the copying
  // ---------------------------------------------------------------------

  /** The word at address `at` may be read and is x. */
  ghost predicate WordThere(w: Window, bytes: seq<byte>, at: int, x: nat) {
    Accepts(w, at, 8) && 0 <= at - w.base && at - w.base + 8 <= |bytes| && WordAt(bytes, at - w.base) == x
  }

  /** The string and its NUL stand at address `at`, may be read, and are short enough. */
  ghost predicate StringThere(w: Window, bytes: seq<byte>, at: int, s: seq<byte>) {
    w.base <= at && Stands(bytes, at - w.base, s) && NoNul(s) && |s| < 64 && Accepts(w, at, |s| + 1)
  }

  /** An aligned array of at most eight pointers to these strings, and a null pointer. */
  ghost predicate VectorThere(w: Window, bytes: seq<byte>, array0: int, v: seq<seq<byte>>) {
    && array0 != 0 && array0 % 8 == 0 && |v| <= 8
    && (forall i :: 0 <= i < |v| ==> PointerThere(w, bytes, array0 + 8 * i, v[i]))
    && WordThere(w, bytes, array0 + 8 * |v|, 0)
  }

  ghost predicate PointerThere(w: Window, bytes: seq<byte>, at: int, s: seq<byte>) {
    exists x: nat :: WordThere(w, bytes, at, x) && x != 0 && StringThere(w, bytes, x, s)
  }

  lemma CopiedStringIff(w: Window, bytes: seq<byte>, ptr: int, s: seq<byte>)
    requires WindowOk(w)
    ensures CopiedString(w, bytes, ptr) == Some(s) <==> StringThere(w, bytes, ptr, s)
  {
    if ptr >= w.base {
      if StringAt(bytes, ptr - w.base).Some? {
        StringIsThere(bytes, ptr - w.base);
      }
      if NoNul(s) && Stands(bytes, ptr - w.base, s) {
        StringStands(bytes, ptr - w.base, s);
      }
    }
  }

  lemma {:induction false} DecodeBound(s: seq<byte>)
    ensures Decode(s) < Power(|s|)
  {
    if s != [] {
      DecodeBound(s[1..]);
    }
  }

  /** What is read at the entry's address, wrapped or not. */
  lemma EntryRead(w: Window, bytes: seq<byte>, array0: int, count: nat)
    requires WindowOk(w) && I64(array0) && count <= MAX_STRINGS
    ensures var at := array0 + 8 * count;
            EntryAt(w, bytes, Elf.Wrap(array0 + count * 8))
            == if Accepts(w, at, 8) && 0 <= at - w.base && at - w.base + 8 <= |bytes|
               then Some(Elf.Wrap(WordAt(bytes, at - w.base))) else None
  {
    var at := array0 + 8 * count;
    if at >= TWO63 {
      assert Elf.Wrap(at) == at - TWO64 < w.base;
      assert !Accepts(w, at, 8);
    }
  }

  /** A word and the signed pointer it stands for. */
  lemma PointerRead(w: Window, bytes: seq<byte>, o: nat, s: seq<byte>)
    requires WindowOk(w) && o + 8 <= |bytes|
    ensures var x := WordAt(bytes, o);
            && (Elf.Wrap(x) == 0 <==> x == 0)
            && (CopiedString(w, bytes, Elf.Wrap(x)) == Some(s) <==> StringThere(w, bytes, x, s))
  {
    var x := WordAt(bytes, o);
    DecodeBound(bytes[o..o + 8]);
    Power8();
    CopiedStringIff(w, bytes, Elf.Wrap(x), s);
    if x >= TWO63 {
      assert Elf.Wrap(x) == x - TWO64 < w.base;
    }
  }

  lemma NullIff(w: Window, bytes: seq<byte>, array0: int, count: nat)
    requires WindowOk(w) && I64(array0) && count <= MAX_STRINGS
    ensures CopiedEntry(w, bytes, array0, count) == Some(None) <==> WordThere(w, bytes, array0 + 8 * count, 0)
  {
    var at := array0 + 8 * count;
    EntryRead(w, bytes, array0, count);
    if 0 <= at - w.base && at - w.base + 8 <= |bytes| {
      PointerRead(w, bytes, at - w.base, []);
    }
  }

  lemma EntryIff(w: Window, bytes: seq<byte>, array0: int, count: nat, s: seq<byte>)
    requires WindowOk(w) && I64(array0) && count <= MAX_STRINGS
    ensures CopiedEntry(w, bytes, array0, count) == Some(Some(s)) <==>
              PointerThere(w, bytes, array0 + 8 * count, s)
  {
    var at := array0 + 8 * count;
    EntryRead(w, bytes, array0, count);
    if 0 <= at - w.base && at - w.base + 8 <= |bytes| {
      PointerRead(w, bytes, at - w.base, s);
    }
  }

  /** The same from entry `count` on. */
  ghost predicate VectorFrom(w: Window, bytes: seq<byte>, array0: int, count: nat, v: seq<seq<byte>>) {
    && count + |v| <= MAX_STRINGS
    && (forall i :: 0 <= i < |v| ==> PointerThere(w, bytes, array0 + 8 * (count + i), v[i]))
    && WordThere(w, bytes, array0 + 8 * (count + |v|), 0)
  }

  lemma VectorFromStep(w: Window, bytes: seq<byte>, array0: int, count: nat, v: seq<seq<byte>>)
    requires v != []
    ensures VectorFrom(w, bytes, array0, count, v) <==>
              && count < MAX_STRINGS && PointerThere(w, bytes, array0 + 8 * count, v[0])
              && VectorFrom(w, bytes, array0, count + 1, v[1..])
  {
    if count < MAX_STRINGS && PointerThere(w, bytes, array0 + 8 * count, v[0])
       && VectorFrom(w, bytes, array0, count + 1, v[1..]) {
      forall i | 0 <= i < |v|
        ensures PointerThere(w, bytes, array0 + 8 * (count + i), v[i])
      {
        if i > 0 {
          assert PointerThere(w, bytes, array0 + 8 * (count + 1 + (i - 1)), v[1..][i - 1]);
        }
      }
    }
    if VectorFrom(w, bytes, array0, count, v) {
      assert PointerThere(w, bytes, array0 + 8 * (count + 0), v[0]);
      forall i | 0 <= i < |v[1..]|
        ensures PointerThere(w, bytes, array0 + 8 * (count + 1 + i), v[1..][i])
      {
        assert PointerThere(w, bytes, array0 + 8 * (count + (i + 1)), v[i + 1]);
      }
    }
  }

  /** The same entry by entry. */
  ghost predicate VectorAt(w: Window, bytes: seq<byte>, array0: int, count: nat, v: seq<seq<byte>>)
    decreases |v|
  {
    if v == [] then count <= MAX_STRINGS && WordThere(w, bytes, array0 + 8 * count, 0)
    else
      && count < MAX_STRINGS && PointerThere(w, bytes, array0 + 8 * count, v[0])
      && VectorAt(w, bytes, array0, count + 1, v[1..])
  }

  lemma {:induction false} VectorAtIff(w: Window, bytes: seq<byte>, array0: int, count: nat, v: seq<seq<byte>>)
    requires count <= MAX_STRINGS
    ensures VectorAt(w, bytes, array0, count, v) <==> VectorFrom(w, bytes, array0, count, v)
    decreases |v|
  {
    if v == [] {
      VectorFromEnd(w, bytes, array0, count);
    } else {
      VectorFromStep(w, bytes, array0, count, v);
      if count < MAX_STRINGS {
        VectorAtIff(w, bytes, array0, count + 1, v[1..]);
      }
    }
  }

  lemma LastEntryIff(w: Window, bytes: seq<byte>, array0: int, count: nat)
    requires WindowOk(w) && I64(array0) && count <= MAX_STRINGS
    ensures CopiedFrom(w, bytes, array0, count) == Some([]) <==> VectorAt(w, bytes, array0, count, [])
  {
    NullIff(w, bytes, array0, count);
    CopiedFromEnd(w, bytes, array0, count);
  }

  lemma {:induction false} CopiedIsThere(w: Window, bytes: seq<byte>, array0: int, count: nat, v: seq<seq<byte>>)
    requires WindowOk(w) && I64(array0) && count <= MAX_STRINGS && CopiedFrom(w, bytes, array0, count) == Some(v)
    ensures VectorAt(w, bytes, array0, count, v)
    decreases |v|
  {
    if v == [] {
      LastEntryIff(w, bytes, array0, count);
    } else {
      CopiedFromStep(w, bytes, array0, count, v);
      EntryIff(w, bytes, array0, count, v[0]);
      CopiedIsThere(w, bytes, array0, count + 1, v[1..]);
    }
  }

  lemma {:induction false} ThereIsCopied(w: Window, bytes: seq<byte>, array0: int, count: nat, v: seq<seq<byte>>)
    requires WindowOk(w) && I64(array0) && count <= MAX_STRINGS && VectorAt(w, bytes, array0, count, v)
    ensures CopiedFrom(w, bytes, array0, count) == Some(v)
    decreases |v|
  {
    if v == [] {
      LastEntryIff(w, bytes, array0, count);
    } else {
      EntryIff(w, bytes, array0, count, v[0]);
      ThereIsCopied(w, bytes, array0, count + 1, v[1..]);
      CopiedFromStep(w, bytes, array0, count, v);
    }
  }

  lemma VectorFromEnd(w: Window, bytes: seq<byte>, array0: int, count: nat)
    requires count <= MAX_STRINGS
    ensures VectorFrom(w, bytes, array0, count, []) <==> WordThere(w, bytes, array0 + 8 * count, 0)
  {
  }

  lemma CopiedFromEnd(w: Window, bytes: seq<byte>, array0: int, count: nat)
    ensures CopiedFrom(w, bytes, array0, count) == Some([]) <==> CopiedEntry(w, bytes, array0, count) == Some(None)
  {
  }

  lemma CopiedFromStep(w: Window, bytes: seq<byte>, array0: int, count: nat, v: seq<seq<byte>>)
    requires v != []
    ensures CopiedFrom(w, bytes, array0, count) == Some(v) <==>
              && count < MAX_STRINGS && CopiedEntry(w, bytes, array0, count) == Some(Some(v[0]))
              && CopiedFrom(w, bytes, array0, count + 1) == Some(v[1..])
  {
    assert v == [v[0]] + v[1..];
  }

  /** The copy returns v exactly when an aligned, readable array of at most eight
      pointers, ended by a null, points at v's strings, each readable and short. */
  lemma CopiedVectorIff(w: Window, bytes: seq<byte>, array0: int, v: seq<seq<byte>>)
    requires WindowOk(w) && I64(array0)
    ensures CopiedVector(w, bytes, array0) == Some(v) <==> VectorThere(w, bytes, array0, v)
  {
    if CopiedFrom(w, bytes, array0, 0) == Some(v) {
      CopiedIsThere(w, bytes, array0, 0, v);
    }
    if VectorAt(w, bytes, array0, 0, v) {
      ThereIsCopied(w, bytes, array0, 0, v);
    }
    VectorAtIff(w, bytes, array0, 0, v);
    assert VectorFrom(w, bytes, array0, 0, v) <==>
             && |v| <= 8 && (forall i :: 0 <= i < |v| ==> PointerThere(w, bytes, array0 + 8 * i, v[i]))
             && WordThere(w, bytes, array0 + 8 * |v|, 0);
  }
}
