/**
 System calls as a program makes them, with buffers in its own memory: what the
 kernel reads through the caller's page tables are the bytes of the caller's own
 frames, and a buffer that is not the caller's is refused.
 */
module UserCalls {
  import opened Base
  import opened Frames
  import opened PageTables
  import opened Processes
  import opened Kernel
  import opened UserMemory
  import Programs
  import Calls
  import KernelRuns
  import V = Vfs

  /** The byte of a frame; frames that were never written read as zero. */
  function ByteOf(mem: Mem, frame: Addr, o: nat): (b: byte)
    requires o < 4096
  {
    if frame in mem && |mem[frame]| == SLOTS then Programs.FrameByte(mem[frame], o) else 0
  }

  /** What is read at a virtual address under a root. */
  function ByteAt(mem: Mem, root: Addr, a: nat): (b: byte) {
    match Walk(mem, root, a / 4096)
    case None => 0
    case Some(leaf) => ByteOf(mem, leaf.phys, a % 4096)
  }

  function UserBytes(mem: Mem, root: Addr, ptr: nat, length: nat): (r: seq<byte>)
    ensures |r| == length
  {
    seq<byte>(length, i requires i >= 0 => ByteAt(mem, root, ptr + i))
  }

  /** The check of a buffer and the step with what it holds; None for -1. */
  ghost function Checked(k: Kernel, ptr: int, length: int): (r: Option<seq<byte>>)
    requires Sized(k)
  {
    var p := k.procs[k.s.current];
    if p.Nobody? || |p.pages| < HEAP_PAGES + 1 || !Accepts(WindowOf(p), ptr, length) || ptr < 0 || length < 0 then None
    else Some(UserBytes(k.m.mem, p.tree.p4, ptr, length))
  }

  /** syscall_write_user_buffer: the new state and the result. */
  ghost function WriteCall(k: Kernel, fd: nat, ptr: int, length: int, junk: nat -> byte): (r: (Outcome<Kernel>, int))
    requires Sized(k)
  {
    match Checked(k, ptr, length)
    case None => (Ok(k), -1)
    case Some(data) => (Next(k, Write(fd, data, junk)), Calls.WriteResult(k, fd, data, junk))
  }

  /** Byte i of the buffer is in the process's own frame for that address. */
  ghost predicate OwnBytes(mem: Mem, p: Process, ptr: int, data: seq<byte>)
    requires p.Process?
  {
    forall i :: 0 <= i < |data| ==> OwnByte(mem, p, ptr + i, data[i])
  }

  ghost predicate OwnByte(mem: Mem, p: Process, a: int, b: byte)
    requires p.Process?
  {
    0x20000 <= a / 4096 < 0x20000 + |p.pages| && b == ByteOf(mem, p.pages[a / 4096 - 0x20000], a % 4096)
  }

  lemma OneByteOwn(mem: Mem, p: Process, ptr: int, length: int, a: nat)
    requires p.Process? && ProcessOk(mem, p) && I64(ptr) && I64(length) && Accepts(WindowOf(p), ptr, length)
    requires ptr <= a < ptr + length
    ensures OwnByte(mem, p, a, ByteAt(mem, p.tree.p4, a))
  {
    AcceptedIsOwn(mem, p, ptr, length, a);
  }

  lemma UserBytesOwn(mem: Mem, p: Process, ptr: nat, length: nat)
    requires p.Process? && ProcessOk(mem, p) && I64(ptr) && I64(length) && Accepts(WindowOf(p), ptr, length)
    ensures OwnBytes(mem, p, ptr, UserBytes(mem, p.tree.p4, ptr, length))
  {
    var data := UserBytes(mem, p.tree.p4, ptr, length);
    forall i | 0 <= i < length
      ensures OwnByte(mem, p, ptr + i, data[i])
    {
      OneByteOwn(mem, p, ptr, length, ptr + i);
    }
  }

  /** A buffer is taken exactly when it lies in the caller's image, heap or stack. */
  lemma CheckedIff(k: Kernel, ptr: int, length: int)
    requires Sized(k) && ProcessOk(k.m.mem, k.procs[k.s.current]) && I64(ptr) && I64(length)
    ensures var p := k.procs[k.s.current];
            && (p.Nobody? ==> Checked(k, ptr, length).None?)
            && (p.Process? ==>
                  (Checked(k, ptr, length).Some? <==> length >= 0 && InProcess(|p.pages|, p.brk, ptr, length)))
  {
    var p := k.procs[k.s.current];
    if p.Process? {
      AcceptsExactly(k.m.mem, p, ptr, length);
    }
  }

  /** And then its bytes are those of the caller's own frames. */
  lemma CheckedOwn(k: Kernel, ptr: int, length: int)
    requires Sized(k) && ProcessOk(k.m.mem, k.procs[k.s.current]) && I64(ptr) && I64(length)
    requires Checked(k, ptr, length).Some?
    ensures var p, data := k.procs[k.s.current], Checked(k, ptr, length).value;
            p.Process? && |data| == length && OwnBytes(k.m.mem, p, ptr, data)
  {
    UserBytesOwn(k.m.mem, k.procs[k.s.current], ptr, length);
  }

  /** In every run from boot: a program's write of `length` bytes at ptr is refused
      unless they lie in its image, its heap below the break or its stack, and
      otherwise writes just the bytes its own frames hold there, through the
      descriptor in the slot it names. */
  lemma WriteCallDoes(pool: Pool, vfs: V.Vfs, states: seq<Kernel>, steps: seq<Step>, n: nat,
                      fd: nat, ptr: int, length: int, junk: nat -> byte)
    requires KernelRuns.BootRun(pool, vfs, states, steps, n) && I64(ptr) && I64(length)
    requires states[n].procs[states[n].s.current].Process?
    ensures var k := states[n];
            var p, r := k.procs[k.s.current], WriteCall(k, fd, ptr, length, junk);
            if length >= 0 && InProcess(|p.pages|, p.brk, ptr, length) then
              exists data :: |data| == length && OwnBytes(k.m.mem, p, ptr, data) && Calls.TablesOk(k) && r.0.Ok?
                             && Calls.WriteDone(k, fd, data, r.0.value, r.1)
            else r == (Ok(k), -1)
  {
    var k := states[n];
    KernelRuns.InvInRun(pool, vfs, states, steps, n);
    Calls.InvParts(k, pool.unused + pool.recycled, 7);
    CheckedIff(k, ptr, length);
    if Checked(k, ptr, length).Some? {
      CheckedOwn(k, ptr, length);
      Calls.WriteDoes(k, fd, Checked(k, ptr, length).value, junk);
    }
  }
}
