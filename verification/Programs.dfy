/**
 From an executable's bytes to what ring 3 sees: the words of its pages, and the
 theorem that a spawn or an exec puts every byte and every permission in place.
 */
module Programs {
  import opened Base
  import opened Bytes
  import opened PageTables
  import opened Loader
  import Elf
  import Frames
  import Spaces
  import Processes
  import Kernel
  import KernelSafety
  import KernelRuns
  import V = Vfs

  // ---------------------------------------------------------------------
  // Bytes and words
  // ---------------------------------------------------------------------

  /** A 64-bit number as the page tables see it. */
  function WordOf(x: nat): (w: Word) {
    var low := x % 4096;
    var rest := low / 8 % 16 + 16 * (low / 256);
    Word(x - low, Flags(low % 2 == 1, low / 2 % 2 == 1, low / 4 % 2 == 1, low / 128 % 2 == 1, rest))
  }

  function Bit(b: bool): (n: nat) { if b then 1 else 0 }

  function ValueOf(w: Word): (x: nat) {
    w.base + Bit(w.flags.present) + 2 * Bit(w.flags.writable) + 4 * Bit(w.flags.user) + 128 * Bit(w.flags.large)
      + 8 * (w.flags.rest % 16) + 256 * (w.flags.rest / 16)
  }

  lemma LowBits(low: nat)
    requires low < 4096
    ensures low == low % 2 + 2 * (low / 2 % 2) + 4 * (low / 4 % 2) + 8 * (low / 8 % 16)
                   + 128 * (low / 128 % 2) + 256 * (low / 256)
  {
    var a := low / 2;
    var b := a / 2;
    var c := b / 2;
    var d := c / 16;
    assert low == 2 * a + low % 2 && a == 2 * b + a % 2 && b == 2 * c + b % 2 && c == 16 * d + c % 16;
    assert b == low / 4 && c == low / 8 && d == low / 128;
    assert d == 2 * (d / 2) + d % 2 && d / 2 == low / 256;
  }

  lemma RestParts(a: nat, b: nat)
    requires a < 16
    ensures (a + 16 * b) % 16 == a && (a + 16 * b) / 16 == b
  {
    Quotient(a + 16 * b, 16, b, a);
  }

  lemma BitOf(n: nat)
    ensures Bit(n % 2 == 1) == n % 2
  {
  }

  /** Nothing is lost in seeing a number as a page-table word. */
  lemma ValueOfWord(x: nat)
    ensures ValueOf(WordOf(x)) == x
  {
    var low := x % 4096;
    LowBits(low);
    BitOf(low);
    BitOf(low / 2);
    BitOf(low / 4);
    BitOf(low / 128);
    RestParts(low / 8 % 16, low / 256);
  }

  /** The words of a page of bytes. */
  function PageWords(bytes: seq<byte>): (words: seq<Word>)
    requires |bytes| == 4096
    ensures |words| == SLOTS
  {
    seq(SLOTS, j requires 0 <= j < SLOTS => WordOf(WordAt(bytes, 8 * j)))
  }

  /** The byte at an offset of a frame. */
  function FrameByte(words: seq<Word>, o: nat): (b: byte)
    requires |words| == SLOTS && o < 4096
  {
    ValueOf(words[o / 8]) / Power(o % 8) % 256
  }

  lemma {:induction false} DecodeDigit(s: seq<byte>, k: nat)
    requires k < |s|
    ensures Decode(s) / Power(k) % 256 == s[k]
  {
    if k > 0 {
      DecodeDigit(s[1..], k - 1);
      DigitShift(s[0], Decode(s[1..]), Power(k - 1));
    }
  }

  lemma DigitShift(low: nat, high: nat, p: nat)
    requires low < 256 && p > 0
    ensures (low + 256 * high) / (256 * p) == high / p
  {
    var q, r := high / p, high % p;
    assert high == p * q + r;
    assert low + 256 * high == 256 * p * q + (low + 256 * r);
    assert low + 256 * r < 256 * p by {
      assert r + 1 <= p;
    }
    Quotient(low + 256 * high, 256 * p, q, low + 256 * r);
  }

  /** A page's words hold its bytes. */
  lemma FrameByteIs(bytes: seq<byte>, o: nat)
    requires |bytes| == 4096 && o < 4096
    ensures FrameByte(PageWords(bytes), o) == bytes[o]
  {
    var j := o / 8;
    ValueOfWord(WordAt(bytes, 8 * j));
    DecodeDigit(bytes[8 * j..8 * j + 8], o % 8);
  }

  // ---------------------------------------------------------------------
  // Programs
  // ---------------------------------------------------------------------

  function ProgramPage(image: seq<byte>, segs: seq<Elf.Segment>, p: int): (bytes: seq<byte>)
    ensures |bytes| == 4096
  {
    seq<byte>(4096, o => LoadedByte(image, segs, p * 4096 + o))
  }

  /** Every page of a program, the stack page last. */
  function ProgramWords(image: seq<byte>, segs: seq<Elf.Segment>, stack: seq<byte>): (r: seq<seq<Word>>)
    requires Elf.PageCount(segs) >= 0 && |stack| == 4096
    ensures |r| == Elf.PageCount(segs) + Processes.HEAP_PAGES + 1 && forall i :: 0 <= i < |r| ==> |r[i]| == SLOTS
  {
    seq(Elf.PageCount(segs) + Processes.HEAP_PAGES, p => PageWords(ProgramPage(image, segs, p))) + [PageWords(stack)]
  }

  /** What scheduler_install_user_image makes of an executable and its initial stack. */
  function Program(image: seq<byte>, stack: seq<byte>): (img: Processes.Image)
    requires Elf.PageCount(Elf.Segments(image)) >= 0 && |stack| == 4096
  {
    AsImage(Elf.Segments(image), ProgramWords(image, Elf.Segments(image), stack))
  }

  /** The byte a program's page i has at offset o. */
  function ProgramByte(image: seq<byte>, segs: seq<Elf.Segment>, stack: seq<byte>, i: nat, o: nat): (b: byte)
    requires |stack| == 4096 && o < 4096
  {
    if i < Elf.PageCount(segs) + Processes.HEAP_PAGES then LoadedByte(image, segs, i * 4096 + o) else stack[o]
  }

  lemma ProgramWordsHold(image: seq<byte>, segs: seq<Elf.Segment>, stack: seq<byte>, i: nat, o: nat)
    requires Elf.PageCount(segs) >= 0 && |stack| == 4096
             && i < Elf.PageCount(segs) + Processes.HEAP_PAGES + 1 && o < 4096
    ensures FrameByte(ProgramWords(image, segs, stack)[i], o) == ProgramByte(image, segs, stack, i, o)
  {
    if i < Elf.PageCount(segs) + Processes.HEAP_PAGES {
      FrameByteIs(ProgramPage(image, segs, i), o);
    } else {
      FrameByteIs(stack, o);
    }
  }

  /** The flags of the program's page i, the stack page being writable. */
  lemma ProgramFlags(segs: seq<Elf.Segment>, contents: seq<seq<Word>>, i: nat)
    requires Elf.PageCount(segs) >= 0 && i < Elf.PageCount(segs) + Processes.HEAP_PAGES + 1
    ensures Processes.AllFlags(AsImage(segs, contents))[i] == LoadedFlags(segs, Elf.PageCount(segs), i)
  {
  }

  /** The frame holds the byte, and ring 3 reaches it with the permission the loader decided on. */
  ghost predicate InPlace(mem: Mem, p: Processes.Process, image: seq<byte>, stack: seq<byte>, i: nat, o: nat)
    requires |stack| == 4096 && o < 4096
  {
    var segs := Elf.Segments(image);
    && p.Process? && i < |p.pages| && p.pages[i] in mem && |mem[p.pages[i]]| == SLOTS
    && FrameByte(mem[p.pages[i]], o) == ProgramByte(image, segs, stack, i, o)
    && UserWalk(mem, p.tree.p4, Spaces.USER_BASE + i)
    && Walk(mem, p.tree.p4, Spaces.USER_BASE + i) == Some(Leaf(p.pages[i], LoadedFlags(segs, Elf.PageCount(segs), i)))
  }

  lemma LoadedInPlace(mem: Mem, p: Processes.Process, image: seq<byte>, stack: seq<byte>, i: nat, o: nat)
    requires Elf.Accepted(image) && LoadFault(image).None? && |stack| == 4096 && o < 4096
             && i < Elf.PageCount(Elf.Segments(image)) + Processes.HEAP_PAGES + 1
    requires Processes.ProcessOk(mem, p) && Processes.Loaded(mem, p, Program(image, stack))
    ensures InPlace(mem, p, image, stack, i, o)
  {
    var segs := Elf.Segments(image);
    var words := ProgramWords(image, segs, stack);
    ProgramWordsHold(image, segs, stack, i, o);
    ProgramFlags(segs, words, i);
    PageHeld(mem, p, Program(image, stack), i);
  }

  /** Page i of a loaded process: its frame, its words and its flags. */
  lemma PageHeld(mem: Mem, p: Processes.Process, img: Processes.Image, i: nat)
    requires p.Process? && Processes.ProcessOk(mem, p) && Processes.Loaded(mem, p, img) && i < |p.pages|
    ensures p.pages[i] in mem && mem[p.pages[i]] == img.contents[i]
    ensures UserWalk(mem, p.tree.p4, Spaces.USER_BASE + i)
    ensures Walk(mem, p.tree.p4, Spaces.USER_BASE + i) == Some(Leaf(p.pages[i], Processes.AllFlags(img)[i]))
  {
    KernelSafety.UserReach(mem, p, Spaces.USER_BASE + i);
  }

  /** In every run from boot, right after a spawn or an exec, the process has the program's flags and contents. */
  lemma ProgramLoaded(pool: Frames.Pool, vfs: V.Vfs, states: seq<Kernel.Kernel>, steps: seq<Kernel.Step>, n: nat)
    requires n < |steps| && KernelRuns.BootRun(pool, vfs, states, steps, n + 1)
    requires steps[n].Spawn? || (steps[n].Exec? && states[n].procs[states[n].s.current].Process?)
    ensures var k, id := states[n + 1], KernelSafety.ProgramSlot(states[n], steps[n]);
            && id < |k.procs| && Processes.ProcessOk(k.m.mem, k.procs[id])
            && Processes.Loaded(k.m.mem, k.procs[id], steps[n].img)
  {
    KernelRuns.InvInRun(pool, vfs, states, steps, n);
    KernelRuns.InvInRun(pool, vfs, states, steps, n + 1);
    KernelRuns.RunStep(states, steps, n);
    KernelSafety.StepLoads(states[n], pool.unused + pool.recycled, 7, steps[n]);
  }

  /** In every run from boot, right after a spawn or an exec of an accepted
      executable that loads: each byte of each page, file, heap and stack, is in the frame
      that ring 3 reaches at its address, writable as the loader decided. */
  lemma ProgramInPlace(pool: Frames.Pool, vfs: V.Vfs, states: seq<Kernel.Kernel>, steps: seq<Kernel.Step>, n: nat,
                       image: seq<byte>, stack: seq<byte>, i: nat, o: nat)
    requires n < |steps| && KernelRuns.BootRun(pool, vfs, states, steps, n + 1)
    requires Elf.Accepted(image) && LoadFault(image).None? && |stack| == 4096 && o < 4096
             && i < Elf.PageCount(Elf.Segments(image)) + Processes.HEAP_PAGES + 1
    requires || steps[n] == Kernel.Spawn(Program(image, stack))
             || (steps[n] == Kernel.Exec(Program(image, stack)) && states[n].procs[states[n].s.current].Process?)
    ensures var id := KernelSafety.ProgramSlot(states[n], steps[n]);
            id < |states[n + 1].procs| && InPlace(states[n + 1].m.mem, states[n + 1].procs[id], image, stack, i, o)
  {
    ProgramLoaded(pool, vfs, states, steps, n);
    var id := KernelSafety.ProgramSlot(states[n], steps[n]);
    LoadedInPlace(states[n + 1].m.mem, states[n + 1].procs[id], image, stack, i, o);
  }

  /** The address a program starts at is in its window exactly when e_entry is not
      negative, and then what ring 3 reaches there is the byte the loader put. */
  lemma EntryReached(pool: Frames.Pool, vfs: V.Vfs, states: seq<Kernel.Kernel>, steps: seq<Kernel.Step>, n: nat,
                     image: seq<byte>, stack: seq<byte>)
    requires n < |steps| && KernelRuns.BootRun(pool, vfs, states, steps, n + 1)
    requires Elf.Accepted(image) && LoadFault(image).None? && |stack| == 4096
    requires || steps[n] == Kernel.Spawn(Program(image, stack))
             || (steps[n] == Kernel.Exec(Program(image, stack)) && states[n].procs[states[n].s.current].Process?)
    ensures var k, id := states[n + 1], KernelSafety.ProgramSlot(states[n], steps[n]);
            var entry := Elf.HeaderWord(image, 24);
            && id < |k.procs| && k.procs[id].Process?
            && (0x20000 <= (0x2000_0000 + entry) / 4096 < 0x20000 + |k.procs[id].pages| <==> entry >= 0)
            && (entry >= 0 ==> InPlace(k.m.mem, k.procs[id], image, stack, entry / 4096, entry % 4096))
  {
    var entry := Elf.HeaderWord(image, 24);
    Elf.EntryInside(image);
    ProgramLoaded(pool, vfs, states, steps, n);
    if entry >= 0 {
      EntryPage(entry, Elf.PageCount(Elf.Segments(image)));
      ProgramInPlace(pool, vfs, states, steps, n, image, stack, entry / 4096, entry % 4096);
    }
  }

  lemma EntryPage(entry: nat, pages: int)
    requires entry < pages * 4096
    ensures entry / 4096 < pages
  {
  }
}
