/**
 Shared vocabulary: optional values, outcomes that may be a kernel panic,
 and facts about duplicate-free sequences.
 */
module Base {

  type byte = x: int | 0 <= x < 256

  const TWO63: int := 0x8000_0000_0000_0000
  const TWO64: int := 0x1_0000_0000_0000_0000

  /** A signed 64-bit number. */
  predicate I64(x: int) { -TWO63 <= x < TWO63 }

  datatype Option<+T> = None | Some(value: T)

  /** The reasons for which the modelled code calls `panic`. */
  datatype Fault =
    | QueueFull            // "scheduler ready queue full"
    | TableFull            // "scheduler task table full"
    | IdleExit             // "cannot exit idle task"
    | OutOfFrames          // every "... alloc failed"
    | RecycleFull          // "pmm recycle stack full"
    | BadFree              // "cannot free null/unaligned page"
    | BadMemoryMap         // "pmm requires a boot memory map", "pmm found no usable regions"
    | RegionsFull          // "pmm region table full"
    | Unaligned            // "vmm ... requires 4k alignment"
    | OutsideRange         // "vmm root address outside bootstrap range"
    | MissingTable         // "vmm root missing p3 / p2 entry"
    | MapOverPresent       // "vmm root map over present entry"
    | UnmapMissing         // "vmm root unmap/protect missing entry"
    | RegionAccess         // panic_region_access
    | BadPageCount         // "user image page count invalid"
    | InvalidElf           // "scheduler invalid user elf"
    | MissingSegment       // "missing user elf ..."
    | BadImage             // "initramfs ..." checks
    | NodesFull            // "vfs node table full"
    | NoDescriptor         // "task fd alloc failed"

  /** A kernel operation either completes or panics, which ends the machine. */
  datatype Outcome<+T> = Ok(value: T) | Panic(fault: Fault)
  {
    predicate IsFailure() { Panic? }
    function PropagateFailure<U>(): Outcome<U>
      requires Panic?
    {
      Panic(fault)
    }
    function Extract(): T
      requires Ok?
    {
      value
    }
  }

  function Repeat<T>(x: T, n: nat): (r: seq<T>)
    ensures |r| == n && forall i :: 0 <= i < n ==> r[i] == x
  {
    seq(n, _ => x)
  }

  ghost predicate NoDup<T>(s: seq<T>) {
    forall i, j :: 0 <= i < j < |s| ==> s[i] != s[j]
  }

  /** A duplicate-free sequence of numbers below n has at most n entries. */
  lemma {:induction false} PigeonHole(s: seq<nat>, n: nat)
    requires NoDup(s)
    requires forall i :: 0 <= i < |s| ==> s[i] < n
    ensures |s| <= n
    decreases n
  {
    if s == [] {
      return;
    }
    assert 0 <= s[0] < n;
    if k :| 0 <= k < |s| && s[k] == n - 1 {
      var rest := s[..k] + s[k + 1..];
      assert forall i :: 0 <= i < |rest| ==> rest[i] == s[if i < k then i else i + 1];
      PigeonHole(rest, n - 1);
    } else {
      PigeonHole(s, n - 1);
    }
  }

  lemma TakeOneMore<T>(s: seq<T>, i: nat)
    requires i < |s|
    ensures s[..i] + [s[i]] == s[..i + 1]
  {
  }

  lemma TakeAll<T>(s: seq<T>)
    ensures s[..|s|] == s
  {
  }
}
