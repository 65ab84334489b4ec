# Kernel resource model

A Dafny model of the resource core of a small x86-64 kernel written in a
compiled Python dialect: physical frames, page tables, the scheduler, process
memory, executables, the initial stack, descriptors and the file system. Every
part exists twice. A value form (functions on datatypes) says what an operation
does, panics included; an in-place form (classes, arrays and loops, as in the
code) is proved to take exactly that step. The theorems are about the value
forms and about all their runs.

`dafny verify dfyconfig.toml` checks the whole project.

## Map

| files | what they model |
|---|---|
| `Frames`, `Pmm` | the page allocator: region cursor and recycle stack |
| `PageTables`, `Refinement`, `Vmm` | 4-level tables (section 4.5 of Intel SDM volume 3A), 2 MiB splits, and the refinement to an abstract page map |
| `Spaces`, `Processes` | address spaces, and the memory of a process through spawn, exec and reaping |
| `Sched`, `SchedSafety`, `Waiting`, `Parents`, `Scheduler` | ready queue, task table, waitpid as a program counter, parent links |
| `Descriptors`, `FdTable`, `OpenFiles` | the 32 descriptors, the tasks' four slots each, and the system calls that open and close |
| `Kernel`, `KernelSafety`, `KernelRuns`, `KernelTasks` | all of these as one machine, boot, and the theorems over every run, those about tasks included |
| `Calls`, `Isolation` | what each call does to the whole machine and what it leaves alone, and that tasks keep out of each other's way in every run |
| `Elf`, `ElfFormat`, `ElfReader`, `Loader`, `ElfWitnesses` | validation and loading of executables (System V gABI, chapter 5), the format as a linker writes it, and executables that go wrong |
| `Programs`, `ExecCalls` | from an executable's bytes to what ring 3 sees after a spawn or an exec, and those system calls from the path on |
| `UserMemory`, `UserCalls`, `UserStack` | user buffers, calls that pass them, exec vectors, and the initial stack (section 3.4.1 of the System V AMD64 psABI) |
| `Paths`, `Normalizer`, `Initramfs`, `VfsBoot`, `BootFiles` | paths, the initial image, and the files boot leaves |
| `Vfs`, `Names`, `FileCalls`, `VfsRuns`, `Truncation`, `Listing`, `FileSystem` | files and directories, what names mean and what each operation does |
| `Base`, `Bytes` | outcomes with panics, little-endian numbers, NUL-terminated strings |

## How it is modelled

- A panic is the terminal outcome `Panic(fault)`. Where the code can panic the
  lemmas say exactly when; where it cannot they say that the outcome is `Ok`.
- The kernel is not preempted, since the timer preempts ring 3 only. A system
  call is one step, except waitpid, whose two loops yield: a waiting task has a
  program counter, and each turn of its loop is a step of its own.
- Integers are unbounded except where the 64-bit width matters: header fields
  of executables, user pointers, image records and file offsets are signed
  64-bit numbers, and their sums wrap explicitly. Words of the stack and of the
  image are little-endian bytes.
- A page-table word is its page-aligned part and its low twelve bits; memory is
  a map from frame addresses to 512 words. The kernel reaches tables by identity
  address, so it is assumed that frames lie below 4 GiB and outside the user
  window; `FramesReachable` shows what that gives.
- History that the code does not keep (which incarnation a slot holds, which
  exit codes were handed out, how many buffer bytes were ever allocated) is
  carried in extra fields that no operation reads.
- Clocks, the console, what a fresh allocation holds, what the memory map says
  and which files boot leaves are parameters.

## Where the code falls short of what one would expect

Each of these is a lemma with a concrete failing input or family, beside one that
says exactly when the property does hold.

- An exit hands its children to task 1 even when slot 1 is empty or below the
  exiting task, and a task can be reaped while its slot is still somebody's
  parent. A run keeps the parent links a tree exactly when it has no such exit
  and no such reap (`Parents.RunIsTreeIff`). In the run of `Parents.TreeCanBreak`
  every exit is safe and the tree is lost at the reap. As long as task 1 does not
  exit, `Parents.RunIsTree` holds.
- `..` met two or more components deep leaves its slash behind
  (`Paths.DeepDotDot`, `Paths.NormalizesIff`).
- wait(-1) finds the caller itself when it is its own parent. Idle is, and so it
  can wait for nobody and poll without end once task 1 is gone
  (`Waiting.WaitCanSpin`, `Waiting.WaitsAloneIff`); while task 1 lives nobody can
  (`Waiting.WaitAnyHasChild`).
- The executable check can itself panic on a program header outside the image
  (`ElfWitnesses.ValidationCanPanic`, `Elf.ValidatePanicsIff`), and accepts
  negative fields on which the loader panics
  (`ElfWitnesses.AcceptedButNotLoadable`, `Loader.LoadsIff`).
- A segment whose end wraps passes the overlap check and may load: it can then
  overwrite another segment's bytes, and its own pages keep the wrong flags
  (`ElfWitnesses.AcceptedButOverlapping`). `Elf.PagesApartIff`,
  `Loader.WritableIff` and `Loader.CoveredOnceIff` say exactly when not.
- The initial stack pointer is 16-byte aligned only when argc + envc is odd
  (`UserStack.AlignedIff`).
- A write that starts beyond the end of a file exposes stale bytes
  (`Truncation.StaleBytesRun`, `VfsRuns.WriteOverlaysIff`).
- Splitting a 2 MiB page keeps its flags only when they are 0x083
  (`Refinement.SplitKeepsFlagsIff`); the kernel makes no others.
- An image of exactly 32 files passes the count check and then panics on /tmp
  (`VfsBoot.ParsePacked`).

## Model

| member | source | states |
|---|---|---|
| `Frames.MapRegionsExact` | src/kernel/kmemory.py:73-122 | the frames the allocator starts with are exactly the whole conventional-memory pages (UEFI type 7) above 1 MiB and outside the kernel image |
| `Frames.MapRegionsDistinct` | src/kernel/kmemory.py:73-122 | when map entries do not overlap, no frame is listed twice |
| `Frames.TakeMoves` | src/kernel/kmemory.py:125-158 | n allocations hand out n distinct frames, and those and what is left make up the pool |
| `Frames.TakeIsThrifty` | src/kernel/kmemory.py:125-158 | a frame is used for the first time only when the recycle stack is empty |
| `Frames.GiveMoves` | src/kernel/kmemory.py:161-175 | handing back aligned non-null frames succeeds while the 2048-entry stack has room, and conserves them |
| `Pmm.Allocator.Add` | src/kernel/kmemory.py:54-70 | a range shorter than a page is ignored, a full region table is a panic, otherwise the region is appended and counted |
| `Pmm.Allocator.AddEntry` | src/kernel/kmemory.py:93-117 | one memory-map entry appends exactly its regions, and panics exactly when they do not fit the table |
| `Pmm.Allocator.Init` | src/kernel/kmemory.py:73-122 | the loop over the boot memory map succeeds exactly when it finds between 1 and 64 regions, and then the free frames are those of the specification |
| `Pmm.Allocator.AllocPage` | src/kernel/kmemory.py:125-158 | the cursor and stack code returns the frame the pool specifies, and 0 exactly when the pool is empty |
| `Pmm.Allocator.FreePage` | src/kernel/kmemory.py:161-175 | pushes the frame, and panics for exactly the specified reasons |
| `PageTables.IndicesDetermine` | src/kernel/kmemory.py:263-273 | two page numbers with the same three indices are the same page |
| `Refinement.SplitKeepsFlagsIff` | src/kernel/kmemory.py:436-442 | a split keeps a page's flags exactly when the 2 MiB leaf had flags 0x083 |
| `Refinement.SplitRefines` | src/kernel/kmemory.py:419-477 | a split succeeds unless it needs a frame and there is none, and changes no translation of any address space |
| `Refinement.EditRefines` | src/kernel/kmemory.py:419-624 | split, map, unmap and protect succeed exactly when allowed on the abstract page map and a frame is left if one is needed; then exactly the named page of exactly the named root changes, to the stated frame and flags |
| `Refinement.EditsRefine` | src/kernel/kmemory.py:419-624 | any sequence of edits over any number of roots does to the walks what it does to the abstract maps |
| `Spaces.NewIsIdentity` | src/kernel/kmemory.py:294-324 | in a new address space every page below 4 GiB maps to itself, supervisor and writable |
| `Spaces.UserWalkIsLeaf` | src/kernel/kmemory.py:561-582 | the user bit ANDed over the four levels is the leaf's own user bit |
| `Spaces.UnmapStep` | src/kernel/kmemory.py:585-596 | an unmap of a mapped page clears that page only, taking a frame only for a first split |
| `Spaces.MapStep` | src/kernel/kmemory.py:561-582 | a map onto a cleared page sets that page only and keeps the tree in order |
| `Spaces.MapPagesOk` | src/kernel/ksched.py:811-827 | mapping an image never meets "map over present entry", maps page i to frame i, and needs at most one frame |
| `Spaces.UnmapPagesOk` | src/kernel/ksched.py:830-835 | unmapping an image's pages never meets a missing entry and leaves the rest of the space alone |
| `Spaces.FreeListExact` | src/kernel/kmemory.py:371-388 | freeing an address space hands back exactly the frames of its table tree, each once |
| `Spaces.SevenFrames` | src/kernel/kmemory.py:371-388 | a process's table tree has exactly seven frames |
| `Vmm.Mmu.SplitLargePage` | src/kernel/kmemory.py:449-477 | the loop that fills the new page table, in place, takes the specified step, panics included |
| `Vmm.Mmu.TranslateRoot` | src/kernel/kmemory.py:525-545 | the branches over large and small pages return the walk's address, or 0, and panic only without a pointer table |
| `Vmm.Mmu.MapPage` | src/kernel/kmemory.py:548-582 | in place: split, user bits raised on three levels, leaf written; panics as specified |
| `Vmm.Mmu.UnmapPage` | src/kernel/kmemory.py:585-609 | in place: split, entry cleared; panics as specified |
| `Vmm.Mmu.ProtectPage` | src/kernel/kmemory.py:612-624 | in place: split, flags replaced and the frame kept; panics as specified |
| `Vmm.Mmu.CreateAddressSpace` | src/kernel/kmemory.py:294-324 | the nested loops build, from six frames, exactly the specified tables and touch no other frame |
| `Vmm.Mmu.FreeAddressSpace` | src/kernel/kmemory.py:371-388 | the nested loops hand back the specified list of frames in order, or panic as it does |
| `Vmm.Mmu.MapUserImagePages` | src/kernel/ksched.py:811-827 | the loop with its translate, unmap and map turns, then the stack page, is the specified mapping |
| `Vmm.Mmu.UnmapUserImagePages` | src/kernel/ksched.py:830-835 | the loop is the specified unmapping |
| `Vmm.Mmu.ReleaseUserPages` | src/kernel/ksched.py:838-844 | the loop hands back the non-zero entries in order, or panics as the allocator does |
| `Vmm.NonZeroAll` | src/kernel/ksched.py:838-844 | of a process's pages, all of them frames, none is passed over |
| `Processes.BuildOk` | src/kernel/ksched.py:982-1011 | creating a process of n pages takes 7 + n frames, fails only for want of them, and yields a process in order with the image's flags and contents |
| `Processes.RebuildOk` | src/kernel/ksched.py:1014-1061 | exec needs only the new image's frames, never panics for another reason, and leaves the process in order with the new image's flags and contents |
| `Processes.DestroyOk` | src/kernel/ksched.py:949-962 | reaping never panics and returns all of the process's frames, each once |
| `Processes.FillContents` | src/kernel/ksched.py:775-806 | frame i of an image holds the words of page i |
| `KernelSafety.SpawnKeeps` | src/kernel/ksched.py:982-1011 | for a loaded image, spawn panics exactly when the task table is full or 7 + n frames are not left, and otherwise keeps ownership, counts, spaces and descriptors in order |
| `KernelSafety.ExecKeeps` | src/kernel/ksched.py:1014-1061 | for a loaded image, exec panics exactly when its frames are not left, and otherwise keeps the invariant and leaves tasks, descriptors, files and every other process alone |
| `KernelSafety.StepLoads` | src/kernel/ksched.py:982-1061 | right after a spawn or an exec the process has the image's flags and its frames hold the image's contents |
| `KernelSafety.PollKeeps` | src/kernel/ksched.py:1269-1295 | reaping never panics and keeps the invariant |
| `KernelSafety.BrkKeeps` | src/kernel/ksched.py:1242-1253 | the break stays between heap base and heap limit |
| `KernelSafety.DescriptorStepKeeps` | src/kernel/ksyscall.py:300-335 | an open panics exactly when it would create a node in a full table; opens and closes keep the whole invariant |
| `KernelSafety.TransferKeeps` | src/kernel/ksyscall.py:262-297 | reads, writes and listings through any descriptor number never panic and keep the whole invariant; which descriptor a call uses and what it does are `Calls.WriteDoes`, `Calls.ReadDoes` and `Calls.ListDoes` |
| `KernelSafety.StoreKeeps` | src/kernel/kmemory.py:561-582 | whatever a user process stores changes its own pages only |
| `KernelSafety.UserReach` | src/kernel/kmemory.py:561-582 | ring 3 reaches exactly the process's own pages, page i at frame i, and everything outside the 69-page window maps to itself |
| `KernelSafety.NextKeeps` | src/kernel/ksched.py:982-1295 | every step of the whole machine, spawn and exec taking a loaded image, keeps the invariant and panics exactly in the listed cases: no slot, no frames, idle exiting, a thirty-third node |
| `Calls.WriteDoes` | src/kernel/ksyscall.py:262-265 | a write goes to the descriptor in the named slot: on a writable file its bytes stand at the offset, all other bytes are as they were, the offset moves past them and the length is returned; no other node, descriptor, task or frame changes; an empty slot, a directory, a read-only file or an overflow gives -1 and changes nothing |
| `Calls.ReadDoes` | src/kernel/ksyscall.py:286-289 | a read returns the file's bytes from the offset of the descriptor in the named slot, as many as asked for and there, and moves that offset only |
| `Calls.ListDoes` | src/kernel/ksyscall.py:466-469 | a listing returns the next name that no earlier node shows in the directory, cut to the buffer, and moves that offset only |
| `Calls.OpenDoes` | src/kernel/ksyscall.py:300-311 | an open puts the lowest closed descriptor, at the start of what the path designates, into the caller's highest free slot and returns the slot; without either it returns -1, though a file may have been created or cut; it panics exactly for a thirty-third node |
| `Calls.CloseDoes` | src/kernel/ksyscall.py:328-335 | a close empties the named slot and closes that descriptor and no other |
| `Calls.BrkDoes` | src/kernel/ksched.py:1242-1253 | the break moves to any address of the four heap pages and is returned; 0 asks for it; any other request, or a kernel task, gets -1 |
| `Calls.StoreDoes` | src/kernel/kmemory.py:561-582 | a store by ring 3 replaces the words of exactly the frame of that page, if it is a writable page of the process; otherwise nothing happens |
| `Calls.ExecDoes` | src/kernel/ksched.py:1014-1061 | exec loads the image into the caller's own address space, with the break at the start of the heap, and changes no task, no descriptor, no file, no other process and no frame of another |
| `Calls.SpawnDoes` | src/kernel/ksched.py:982-1011 | a spawn makes in the lowest empty slot a runnable child of the caller, last in the queue, with the image's memory and the first three closed descriptors as input, output and output; nothing else changes |
| `Calls.ConsolesDo` | src/kernel/ksched.py:544-556 | slot 0 of a new task is the console's input, slots 1 and 2 its output, slot 3 empty |
| `Calls.ExitDoes` | src/kernel/ksched.py:1256-1266 | an exit records its code and hands the children to task 1, or to idle if task 1 exits; no other field of any task and nothing outside the scheduler changes |
| `Calls.WaitDoes` | src/kernel/ksched.py:1269-1288 | waitpid goes to sleep on the named child, wait(-1) on any, exactly when there is one, and changes nothing else |
| `Calls.YieldDoes` | src/kernel/ksched.py:1173-1176 | a yield changes whose turn it is, and nothing else |
| `Calls.HarvestIff` | src/kernel/ksched.py:1279-1291 | a waiting task reaps exactly the child it waits for once that has exited, or its first exited child |
| `Calls.PollDoes` | src/kernel/ksched.py:1279-1295 | reaping frees exactly the child's process, empties its row, closes exactly its descriptors and hands over its status; with nothing to reap the caller only yields |
| `Isolation.StepIsolates` | src/kernel/ksched.py:982-1295 | whatever step the running task takes, another live task's process, page contents, page tables, descriptor slots and descriptors stay as they are, unless the step reaps it |
| `Isolation.RunIsolates` | src/kernel/ksched.py:982-1295 | in every run from boot, from any state to any later one between which a task neither runs nor is reaped, it stays and nothing of it changes |
| `KernelRuns.SelfTestOk` | src/kernel/kmemory.py:690-733 | the page-table self-test restores the address space at the price of one frame |
| `KernelRuns.BootInv` | src/kernel/kmemory.py:627-733 | boot succeeds with eight frames and leaves the kernel exactly seven |
| `KernelRuns.MountedOk` | src/kernel/kvfs.py:785-925 | over any node table there is a file system with just the self-test's descriptor and the first two tasks' consoles open, which is what boot starts from |
| `KernelRuns.RunKeeps` | src/kernel/ksched.py:982-1295 | the invariant holds in every state of every run |
| `KernelRuns.FilesInRun` | src/kernel/kvfs.py:543-782 | in every run of the whole machine nodes are only added, non-writable files never change, buffers cost at most twice their capacity, and the two descriptor tables agree |
| `KernelRuns.FramesAccounted` | src/kernel/ksched.py:838-844 | in every state of every run each frame has exactly one owner, free = total - 7 - sum of (7 + pages), and the recycle stack holds at most 608 of 2048 entries |
| `KernelRuns.MemoryMapAccounted` | src/kernel/kmemory.py:73-223 | from any boot memory map without overlaps and with eight usable pages: in every run the owned and free frames are exactly the usable pages, and their number adds up |
| `KernelRuns.PeakWithTaskOne` | src/kernel/ksched.py:1040-1045 | in every run in which task 1 does not exit, live plus recycled frames are at most 7 + 6 * 76 + 69 = 532 |
| `KernelRuns.Projects` | src/kernel/ksched.py:982-1295 | a step of the whole machine is a step of the scheduler or leaves the scheduler's state alone |
| `KernelRuns.FamilyInRun` | src/kernel/ksched.py:1215-1228 | in every run of the whole machine in which task 1 does not exit, every parent is a running task older than its child and the links are a tree |
| `KernelTasks.SchedRun` | src/kernel/ksched.py:982-1295 | every run of the whole machine, seen by the scheduler, is a run of the scheduler with the same ends |
| `KernelTasks.WaitpidInRun` | src/kernel/ksched.py:1269-1295 | in every run of the whole machine from boot a waiter waits for the same incarnation of its child until it is handed that child's status |
| `KernelTasks.DeliveredInRun` | src/kernel/ksched.py:1279-1295 | in every such run an exited task is a zombie or its status was handed out, never both, once, and with its own code |
| `KernelTasks.BoundedInRun` | src/kernel/ksched.py:1121-1142 | in every such run a runnable task with k tasks in front, never more than six, is chosen by the (k + 1)-st pick |
| `KernelTasks.TreeInRunIff` | src/kernel/ksched.py:1215-1295 | a run of the whole machine from boot keeps the parent links a tree exactly when its exits and reaps are safe |
| `KernelRuns.SpacesInOrder` | src/kernel/ksched.py:1040-1059 | after any run of execs with accepted images, user pages translate to the page array, the user bit is set for exactly the page_count pages, and every page outside the window is identity-mapped and supervisor-only |
| `Programs.ValueOfWord` | src/kernel/kmemory.py:226-230 | a 64-bit number seen as base and flag bits loses nothing |
| `Programs.FrameByteIs` | src/kernel/ksched.py:800-805 | the words of a page hold its bytes |
| `Programs.ProgramInPlace` | src/kernel/ksched.py:847-854 | in every run from boot, right after a spawn or an exec of an accepted executable that loads, every byte of every page is in the frame ring 3 reaches at its address, with the permission the loader decided on |
| `Programs.EntryReached` | src/kernel/ksched.py:847-854 | in every run from boot, right after a spawn or an exec, the start address lies in the program's window exactly when e_entry is not negative, and then ring 3 reaches there the byte the loader put |
| `ExecCalls.LoadedFromFile` | src/kernel/ksyscall.py:338-371 | loading by path opens, reads, closes and validates: it yields the named file's contents if they are a valid executable of at most 16384 bytes, panics exactly where validation does, and leaves nodes and descriptors exactly as they were |
| `ExecCalls.CreateElfKeeps` | src/kernel/ksched.py:982-1011 | creating a task from an executable's bytes panics exactly when there is no slot, the image does not validate or does not load, or 7 + n frames are not left, and otherwise keeps the whole invariant |
| `ExecCalls.ExecElfKeeps` | src/kernel/ksched.py:1014-1061 | exec of an executable's bytes by a process panics exactly when validation panics, or the image is valid and does not load or has too few frames; an invalid image or a kernel caller changes nothing |
| `ExecCalls.SpawnPathKeeps` | src/kernel/ksyscall.py:393-411 | the spawn call from the path on keeps the whole invariant and panics exactly in the listed cases, each a condition on the named file, the task table and the free count |
| `ExecCalls.ExecPathKeeps` | src/kernel/ksyscall.py:433-451 | the same for the exec call |
| `ExecCalls.SpawnPathIsStep` | src/kernel/ksyscall.py:393-411 | a spawn by path that neither panics nor is refused is the machine's spawn step with the program made of the file, so the theorems over runs cover it |
| `ExecCalls.ExecPathIsStep` | src/kernel/ksyscall.py:433-451 | the same for exec |
| `ExecCalls.ExecPathDoes` | src/kernel/ksyscall.py:433-451 | an exec by path that does not panic touches nothing but the caller's own memory |
| `ExecCalls.VectorsInPlace` | src/kernel/ksched.py:677-723 | in every run from boot, right after a spawn or an exec, the page ring 3 reaches as its last is writable and holds argc and vectors that read back as the arguments and environment passed |
| `KernelRuns.FramesReachable` | src/kernel/kmemory.py:525-545 | every frame outside the window is reached at its own address under every root |
| `SchedSafety.PickNextKeeps` | src/kernel/ksched.py:1121-1142 | a pick never panics and takes the first runnable entry, idle only when no other task is runnable |
| `SchedSafety.SpawnKeeps` | src/kernel/ksched.py:982-1011 | a spawn never meets a full ready queue and panics exactly when the table is full |
| `SchedSafety.ExitKeeps` | src/kernel/ksched.py:1256-1266 | an exit panics exactly for idle, and keeps the queue, the parents and the records in order |
| `SchedSafety.WaitBeginRefusesIff` | src/kernel/ksched.py:1269-1288 | waitpid goes on exactly for a live child other than the caller, and wait(-1) exactly when there is one or the caller is its own parent; so idle, its own parent, is never refused by wait(-1) |
| `SchedSafety.WaitPollKeeps` | src/kernel/ksched.py:1279-1295 | each turn of the waiting loops succeeds and keeps the invariant |
| `SchedSafety.ReapKeeps` | src/kernel/ksched.py:965-975 | releasing a slot keeps the invariant: task_count is one past the highest live slot, every exit has one receipt |
| `SchedSafety.NextKeeps` | src/kernel/ksched.py:899-1295 | every scheduler step keeps: each runnable non-idle non-current task is queued once and nothing stale; "ready queue full" is unreachable |
| `SchedSafety.RunKeeps` | src/kernel/ksched.py:899-1295 | the same in every state of every run |
| `Waiting.WaiterStep` | src/kernel/ksched.py:1269-1295 | whatever another task does, the awaited slot keeps its incarnation and parent; the only way out is the delivery |
| `Waiting.WaitpidDelivers` | src/kernel/ksched.py:1269-1295 | along every run the waiter waits for the same child until its status is delivered |
| `Waiting.ExitsRecorded` | src/kernel/ksched.py:1256-1266 | an exit puts its own code on record for that incarnation |
| `Waiting.DeliveredExactlyOnce` | src/kernel/ksched.py:1279-1295 | in every run an exited task is a zombie or its status was handed out, never both, exactly once, and with its own code |
| `Waiting.WaitAnyHasChild` | src/kernel/ksched.py:1231-1239 | in every run in which task 1 does not exit, a task inside wait(-1) always has a child other than itself |
| `Waiting.AloneStep` | src/kernel/ksched.py:1269-1295 | a step leaves every task inside wait(-1) with another child exactly when it is not a wait(-1) by a task that is its own parent and has no other child |
| `Waiting.WaitsAloneIff` | src/kernel/ksched.py:1231-1239 | over any run from boot: some task is ever inside wait(-1) with no child but itself exactly when the run contains such a wait(-1) |
| `Waiting.WaitCanSpin` | src/kernel/ksched.py:1231-1239 | a run of four calls from boot after which idle is inside wait(-1) alone and polls without end |
| `Waiting.QueuedStep` | src/kernel/ksched.py:1121-1142 | a step never puts an entry ahead of a queued task |
| `Waiting.AtMostSixAhead` | src/kernel/ksched.py:899-921 | at most six runnable tasks are ahead of a queued one |
| `Waiting.BoundedWaiting` | src/kernel/ksched.py:1121-1142 | a runnable task with k entries ahead is chosen within k + 1 picks, never more than seven, whatever else happens |
| `Parents.RunIsTree` | src/kernel/ksched.py:1221-1228 | in every run in which task 1 does not exit, parent links form a tree rooted at task 0, every parent is a running task, and task_count is one past the highest non-empty slot; the exact condition on a run is `RunIsTreeIff` |
| `Parents.ExitKeepsTreeIff` | src/kernel/ksched.py:1256-1266 | an exit keeps the tree exactly when the task has no children, is task 1, or task 1 is live and not below it |
| `Parents.ReapKeepsTreeIff` | src/kernel/ksched.py:965-975 | a reap keeps the tree exactly when nobody names the reaped slot as parent |
| `Parents.TreeStep` | src/kernel/ksched.py:1215-1295 | any step turns a tree into a tree exactly when it is neither an exit nor a reap of the two unsafe kinds |
| `Parents.RunIsTreeIff` | src/kernel/ksched.py:1215-1295 | over any run from boot: every state is a tree exactly when every step is safe in that sense, which each caller could check beforehand |
| `Parents.TreeCanBreak` | src/kernel/ksched.py:1215-1228 | a run from boot after which the parent links are no tree |
| `Scheduler.ReadyQueue.Enqueue` | src/kernel/ksched.py:899-910 | the ring buffer appends to its window, and panics exactly when sixteen entries are live |
| `Scheduler.ReadyQueue.Dequeue` | src/kernel/ksched.py:913-921 | takes the oldest entry of the window, idle when it is empty |
| `Scheduler.TaskTable.FindFree` | src/kernel/ksched.py:936-946 | the loop finds the first empty slot below task_count, else task_count, else panics |
| `Scheduler.TaskTable.TakeRunnable` | src/kernel/ksched.py:1127-1137 | the bounded scan drops stale entries and stops at the first runnable task |
| `Scheduler.TaskTable.PickNextTask` | src/kernel/ksched.py:1121-1142 | in place: the current task is queued again if runnable, then the scan decides |
| `Scheduler.TaskTable.CreateTask` | src/kernel/ksched.py:982-1011 | in place: claim a slot, fill it, queue it |
| `Scheduler.TaskTable.ReparentChildren` | src/kernel/ksched.py:1221-1228 | the loop gives every child of the task the stated new parent and changes nothing else |
| `Scheduler.TaskTable.ExitCurrentTask` | src/kernel/ksched.py:1256-1266 | in place: the specified exit, idle refused |
| `Scheduler.TaskTable.FindChildOf` | src/kernel/ksched.py:1231-1239 | the loop finds the first child in the wanted state |
| `Scheduler.TaskTable.WaitEnter` | src/kernel/ksched.py:1269-1288 | the checks before the waiting loops, as specified |
| `Scheduler.TaskTable.ReleaseTaskSlot` | src/kernel/ksched.py:965-975 | the slot is emptied and task_count lowered past empty slots |
| `Scheduler.TaskTable.WaitTurn` | src/kernel/ksched.py:1279-1295 | one turn of a waiting loop: reap and return the status, or yield |
| `Descriptors.InitTaskNeverFails` | src/kernel/ksched.py:544-556 | three descriptors can always be opened for a task whose slots are empty: 7 * 4 + 1 + 3 = 32 |
| `Descriptors.OpenKeeps` | src/kernel/ksyscall.py:300-325 | an open that found its file keeps every non-zero slot naming a distinct open descriptor |
| `Descriptors.CloseKeeps` | src/kernel/ksyscall.py:328-335 | a close succeeds exactly when the slot holds a descriptor, and keeps the invariant |
| `Descriptors.ReleaseTaskKeeps` | src/kernel/ksched.py:559-567 | releasing a task empties its row, closes its descriptors and no other |
| `Descriptors.BootInv` | src/kernel/kvfs.py:869 | the state after the self-test and the first two tasks satisfies the invariant |
| `OpenFiles.OpenFileKeeps` | src/kernel/ksyscall.py:300-311 | opening a path: panics exactly for a thirty-third node, keeps the descriptor table and the task slots in step, and changes the slots as `Descriptors.Open` says or not at all |
| `OpenFiles.CloseFileKeeps` | src/kernel/ksyscall.py:328-335 | closing keeps the two tables in step |
| `OpenFiles.ConsolesMatch` | src/kernel/ksched.py:544-556 | and so do the three consoles of a new task |
| `OpenFiles.ReleaseMatches` | src/kernel/ksched.py:559-567 | and the release of a reaped one |
| `FdTable.Table.InitTaskFds` | src/kernel/ksched.py:544-556 | opens three consoles and fills the four slots as specified, on both tables, or panics exactly when one is missing |
| `FdTable.Table.AllocTaskFd` | src/kernel/ksyscall.py:276-283 | the downward loop takes the highest free slot |
| `FdTable.Table.OpenFd` | src/kernel/ksyscall.py:300-311 | lookup, descriptor and slot in place are the specified open, its node-table panic included; a descriptor that finds no slot is closed again |
| `FdTable.Table.CloseFd` | src/kernel/ksyscall.py:328-335 | closes the descriptor and empties the slot; any other number gets -1 and changes nothing |
| `FdTable.Table.ReleaseTaskFds` | src/kernel/ksched.py:559-567 | the loop over the four slots is the specified release, on both tables |
| `Elf.FieldReads` | src/kernel/kelf.py:69-88 | a little-endian field can be read exactly when it lies inside the image |
| `Elf.ValidatePanicsIff` | src/kernel/kelf.py:163-170 | validation itself panics exactly when the header is good and some program header it reads leaves the image |
| `Elf.PagesInside` | src/kernel/kelf.py:220-232 | the pages of every accepted segment end inside the file's pages, at most 64 |
| `Elf.PagesApart` | src/kernel/kelf.py:269-285 | two accepted segments whose vaddr + memsz does not wrap share no page: starts are aligned and the bytes disjoint |
| `Elf.PagesApartIff` | src/kernel/kelf.py:269-285 | for every accepted image: no page of the file is taken by two segments exactly when every segment whose vaddr + memsz wraps starts at or after the end of the file's pages |
| `Elf.EntryInside` | src/kernel/kelf.py:235-244 | in an accepted image the entry point is a byte of a segment that does not wrap, vaddr <= entry < vaddr + memsz, and lies below the end of the file's pages; an image whose entry is a byte of none is not accepted |
| `Elf.AcceptedIff` | src/kernel/kelf.py:247-293 | an image whose fields are not negative and do not overflow is accepted exactly when each segment starts on a page, has its file part in the image and no longer than its memory, and ends within 64 pages, no two have a byte in common, and the entry point is a byte of one |
| `Elf.HeaderRefused` | src/kernel/kelf.py:91-110 | anything but the header of a 64-bit little-endian x86-64 executable with full-size program headers is refused |
| `ElfFormat.ReadBack` | src/kernel/kelf.py:113-170 | whatever a linker wrote is read back: the entry point, and the PT_LOAD segments in order, each with its own offset, address, sizes and PF_W |
| `ElfFormat.DescribedAcceptedIff` | src/kernel/kelf.py:247-293 | and so an executable given by its headers is accepted exactly when those are proper |
| `ElfReader.ReadField` | src/kernel/kelf.py:69-88 | the shift-and-or loop reads the little-endian number |
| `ElfReader.LoadCount` | src/kernel/kelf.py:163-170 | the loop counts the loadable segments |
| `ElfReader.LoadIndex` | src/kernel/kelf.py:173-182 | the loop finds the program header of the n-th loadable segment, -1 if there is none |
| `ElfReader.UserSegment` | src/kernel/kelf.py:185-217 | the accessors return the fields of the n-th loadable segment, or panic when there is none |
| `ElfReader.CountPages` | src/kernel/kelf.py:220-232 | the loop yields the page count of the highest segment end |
| `ElfReader.EntryInLoad` | src/kernel/kelf.py:235-244 | the loop decides whether the entry point is a byte of a segment that does not wrap |
| `ElfReader.ValidateImage` | src/kernel/kelf.py:247-293 | the nested loops decide acceptance as specified, with the 64-bit sums wrapping |
| `Loader.CopySegment` | src/kernel/ksched.py:800-805 | the copy loop succeeds exactly when file range and page range fit, and then changes exactly the covered bytes |
| `Loader.MarkSegment` | src/kernel/ksched.py:794-798 | the marking loop succeeds exactly when the pages have flag words, and makes exactly them writable |
| `Loader.PreparePages` | src/kernel/ksched.py:754-808 | loading panics for exactly the named reason, and otherwise every byte and flag word is as specified |
| `Loader.LoadsIff` | src/kernel/ksched.py:754-808 | an accepted image loads without panic exactly when, for each segment with a file part, offset and vaddr are not negative, offset + filesz does not wrap and vaddr + filesz ends inside the pages of file, heap and stack, and no writable segment starts below the window |
| `Loader.SaneLoads` | src/kernel/ksched.py:754-808 | accepted images with such fields always load |
| `ElfWitnesses.AcceptedButNotLoadable` | src/kernel/kelf.py:269-276 | a 120-byte executable, with one segment at file offset -1, that passes validation and on which the loader panics |
| `ElfWitnesses.AcceptedButOverlapping` | src/kernel/kelf.py:269-285 | an 8192-byte executable that passes validation and loads, in which a segment whose end wraps overwrites another's byte and a PF_W page stays read-only |
| `ElfWitnesses.ValidationCanPanic` | src/kernel/kelf.py:163-170 | a 64-byte header that promises a program header, on which validation panics |
| `Loader.CoveredByte` | src/kernel/ksched.py:800-805 | in every accepted image that loads, if no wrapping segment's file part meets another's: a byte inside a segment's file part is image[p_offset + k] |
| `Loader.CoveredOnceIff` | src/kernel/kelf.py:269-285 | for every accepted image: no address gets a byte from two segments exactly when the file parts of the wrapping ones are apart from the others |
| `Loader.UnwrappedSuffices` | src/kernel/kelf.py:269-285 | when no vaddr + memsz wraps all three conditions hold |
| `Loader.UncoveredByte` | src/kernel/ksched.py:775-782 | every other byte is zero |
| `Loader.WritableIff` | src/kernel/ksched.py:766-798 | for every accepted image: each page of file and heap is writable exactly when it is a heap page or holds memory of a PF_W segment, if and only if every page of the file that is missed for a PF_W segment whose end wraps is made writable for another |
| `Loader.LoadedImageOk` | src/kernel/ksched.py:742-764 | every accepted image fits the window of 64 + 4 + 1 = 69 pages and meets what spawn and exec require |
| `UserMemory.AcceptsIff` | src/kernel/ksyscall.py:131-155 | a buffer is accepted exactly when it lies wholly in the image, in the heap below the break, or in the stack |
| `UserMemory.AcceptedIsOwn` | src/kernel/ksyscall.py:131-155 | every accepted byte walks, with the user bit, to a frame of the task's own page array |
| `UserMemory.AcceptedIsOwnInEveryRun` | src/kernel/ksyscall.py:131-155 | in every state of every run a process of n pages has exactly these buffers accepted: inside its first n - 5 pages, inside its heap below its break, or inside its last page; the break lies in its heap, and every accepted byte is in a frame of its own |
| `UserMemory.CopyUserString` | src/kernel/ksyscall.py:191-208 | returns exactly the NUL-terminated string under 64 bytes whose bytes are accepted, reading no byte before its buffer was accepted |
| `UserMemory.CopyUserVector` | src/kernel/ksyscall.py:233-259 | returns exactly the strings up to a null entry among the first nine |
| `UserMemory.CopiedVectorOk` | src/kernel/ksyscall.py:233-259 | what is returned has at most eight strings, each under 64 bytes and without a NUL |
| `UserMemory.CopiedVectorIff` | src/kernel/ksyscall.py:191-259 | the copy returns v exactly when the aligned array holds, each entry readable, at most eight pointers to v's strings, each readable, under 64 bytes and NUL-terminated, and then a null |
| `UserCalls.WriteCallDoes` | src/kernel/ksyscall.py:262-265 | in every run from boot a program's write of n bytes at ptr is refused exactly when they lie in none of its image, its heap below the break and its stack; otherwise the bytes its own frames hold there go through the descriptor in the slot it names |
| `UserStack.CopiedVectorsFit` | src/kernel/ksched.py:677-723 | whatever the copy routines let through fits one page |
| `UserStack.AlignedIff` | src/kernel/ksched.py:704-723 | the initial stack pointer is 16-byte aligned exactly when argc + envc is odd |
| `UserStack.StackReadsBack` | src/kernel/ksched.py:677-723 | a program reading argc, argv and envp finds exactly the vectors that were passed |
| `UserStack.PlaceString` | src/kernel/ksched.py:667-674 | the string and its NUL end at the old top, and nothing else changes |
| `UserStack.BuildStack` | src/kernel/ksched.py:677-723 | the loops lay out strings, vectors and argc without overlap, and return the four registers |
| `UserStack.ArgvPassedOn` | src/kernel/ksyscall.py:233-259 | a program that passes its own argv to exec passes on exactly the arguments it got |
| `UserStack.EnvpPassedOn` | src/kernel/ksyscall.py:233-259 | and its envp likewise |
| `Paths.NormalizesIff` | src/kernel/kvfs.py:247-297 | the output is the slash-join of the reduced components exactly when no `..` left its slash behind |
| `Paths.FixedPointIff` | src/kernel/kvfs.py:247-297 | the output is a fixed point exactly in the same case |
| `Paths.TwiceIsEnough` | src/kernel/kvfs.py:247-297 | normalising twice always reaches a fixed point |
| `Paths.ShallowNormalizes` | src/kernel/kvfs.py:247-297 | paths whose `..` are each met at depth at most one normalise to their canonical form |
| `Paths.DeepDotDot` | src/kernel/kvfs.py:276-280 | `/a/b/../c` becomes `/a//c`, for any three names |
| `Normalizer.StepBack` | src/kernel/kvfs.py:276-280 | the `..` loop stops where the specification says |
| `Normalizer.Append` | src/kernel/kvfs.py:283-291 | a component goes after a slash, unless the buffer is the root |
| `Normalizer.NormalizePath` | src/kernel/kvfs.py:247-297 | the whole pass in place, within path_len + 2 bytes |
| `Initramfs.BuildImage` | scripts/build-initramfs.py:29-59 | the image holds the header, every record, and every name and data at its 64-byte aligned place |
| `VfsBoot.InitVfs` | src/kernel/kvfs.py:337-403 | the checks and the loop over the entries, as specified |
| `VfsBoot.ParsePacked` | src/kernel/kvfs.py:337-403 | parsing a packed image yields the files in order with their own bytes, not writable, and then the writable directory /tmp, and fails exactly from 32 files on |
| `VfsBoot.PackThenParse` | src/kernel/kvfs.py:337-403 | whatever `BuildImage` returns parses back to its files up to 31 of them, whatever else is in memory |
| `VfsBoot.ParsesIff` | src/kernel/kvfs.py:337-403 | whatever the image: boot takes it exactly when it is empty or has the magic, version 1, at most 31 files and every record ending inside it, and then each node is what its record says |
| `BootFiles.MountBuilt` | src/kernel/kvfs.py:437-456 | making idle and task 1 after the self-test gives the descriptor table the runs start from, input and outputs in their places |
| `BootFiles.BootBuilt` | src/kernel/ksched.py:1064-1078 | and the descriptor rows of the two tasks |
| `BootFiles.ImageFilesStay` | src/kernel/kvfs.py:667-692 | in every run from boot over a packed image its files keep their names and bytes |
| `VfsRuns.WriteOverlaysIff` | src/kernel/kvfs.py:667-692 | a write leaves the zero-filled overlay exactly when it starts at or below the length or the stale bytes in the gap are zero |
| `VfsRuns.ReadRefines` | src/kernel/kvfs.py:750-782 | a read returns the file's bytes at the offset, up to the length |
| `VfsRuns.StepRefines` | src/kernel/kvfs.py:611-782 | every step does to the byte sequences what it says |
| `VfsRuns.RunRefines` | src/kernel/kvfs.py:543-782 | files are byte sequences under any interleaving through any number of descriptors, if each write starts at or below the length |
| `VfsRuns.RunKeeps` | src/kernel/kvfs.py:543-561 | in every run nodes are only added, non-writable nodes never change, and a file's buffers cost at most twice its capacity |
| `VfsRuns.StartOk` | src/kernel/kvfs.py:337-403 | the state boot leaves meets what the run theorems start from |
| `VfsRuns.PanicsIff` | src/kernel/kvfs.py:313-318 | the only panic is creating a thirty-third node |
| `VfsRuns.StaleBytesReturn` | src/kernel/kvfs.py:667-692 | on any node: after truncation, writing at the old end brings the old bytes back, which is the zero-filled overlay exactly when they were zero |
| `Names.ChildIff` | src/kernel/kvfs.py:564-581 | the child component of a node is c exactly when the node's name is the directory's prefix, c, and then nothing or a slash, c having none |
| `Names.ChildOfJoin` | src/kernel/kvfs.py:564-581 | so each component of a path shows in the directory above it |
| `Names.ParentIs` | src/kernel/kvfs.py:500-520 | a path's parent is what stands before its last slash, or the root |
| `Names.OpenDesignates` | src/kernel/kvfs.py:611-640 | what an open finds, by names alone: the root, the first node of the name, cut if bit 1 asks for it and it is writable, a new file if bit 0 asks for it in a writable directory, a directory some name runs through, or nothing |
| `FileCalls.OpenDoes` | src/kernel/kvfs.py:611-640 | what an open does to nodes and descriptors for each of these |
| `Truncation.StaleBytesRun` | src/kernel/kvfs.py:611-692 | the run: create under /tmp, write, open with truncation, write through the first descriptor; the file is then data + more where a byte sequence would have zeros |
| `Listing.ListedExactly` | src/kernel/kvfs.py:564-593 | a name is listed exactly when some node's name is the directory's, a slash, this name without a slash in it, and then nothing or a slash |
| `Listing.ListedOnce` | src/kernel/kvfs.py:584-593 | no name is listed twice |
| `Listing.ListedCount` | src/kernel/kvfs.py:596-608 | the child count is the length of the listing |
| `Listing.RunLists` | src/kernel/kvfs.py:716-747 | in every run, what readdir returned so far is exactly the distinct components of the nodes below the offset |
| `Listing.ListingComplete` | src/kernel/kvfs.py:716-747 | when readdir returns nothing the listing holds exactly those names, each once, and is as long as stat says |
| `FileSystem.PathEquals` | src/kernel/kvfs.py:212-221 | the loop decides equality |
| `FileSystem.MatchesDirectory` | src/kernel/kvfs.py:469-479 | decides whether a node lies below a directory |
| `FileSystem.ParentOf` | src/kernel/kvfs.py:500-520 | the part of the path before its last slash, the root for a top-level path |
| `FileSystem.ChildComponent` | src/kernel/kvfs.py:564-581 | the component of the name right below the directory, said of the bytes; empty when the node is not below it |
| `FileSystem.Store.LookupPath` | src/kernel/kvfs.py:412-422 | the first node of that name |
| `FileSystem.Store.DirectoryIsThere` | src/kernel/kvfs.py:482-497 | a directory exists if it is the root, a directory node, or has a node below it |
| `FileSystem.Store.SeenEarlier` | src/kernel/kvfs.py:584-593 | whether an earlier node has the same component |
| `FileSystem.Store.CountChildren` | src/kernel/kvfs.py:596-608 | the number of distinct components |
| `FileSystem.Store.AllocDescriptor` | src/kernel/kvfs.py:437-450 | the first closed descriptor, in place |
| `FileSystem.Store.CreateFile` | src/kernel/kvfs.py:523-540 | a file is created exactly under a writable directory node, and a full table is a panic |
| `FileSystem.Store.GrowNode` | src/kernel/kvfs.py:543-561 | the copy loop keeps the data and grows the buffer to the stated capacity |
| `FileSystem.Store.OpenPath` | src/kernel/kvfs.py:611-640 | in place: normalise, look up, create or truncate, and take a descriptor |
| `FileSystem.Store.CloseDescriptor` | src/kernel/kvfs.py:654-664 | in place close, -1 when already closed |
| `FileSystem.Store.WriteDescriptor` | src/kernel/kvfs.py:667-692 | in place write, with growth and the 64-bit overflow check |
| `FileSystem.Store.ReadDescriptor` | src/kernel/kvfs.py:750-782 | in place read, moving the offset |
| `FileSystem.Store.ReadDirDescriptor` | src/kernel/kvfs.py:716-747 | in place readdir, moving the offset past the node found |
| `FileSystem.Store.StatDescriptor` | src/kernel/kvfs.py:695-713 | kind and size of a file, kind and child count of a directory |

## Left out

- Devices, console, interrupt tables, APIC, clocks, assembly stubs, the loader that runs under firmware, and the shell: no resource of the core passes through them.
- TLB and CR3 reloads, TSS, saved register frames and kernel stacks: a switch only changes which task is current.
- The early bump heap behind `alloc_bytes`: allocation is taken to be fresh and never to fail.
- `vmm_clone_kernel_address_space`: no caller uses it.
- Self-test bodies, except the frame and the descriptor they leave allocated; printing functions.
- Paths inside the kernel that copy vectors from kernel memory: the same loops without the buffer checks.
- `scheduler_timer_interrupt` accounting: a tick is only the yield it may cause.
- Loader.PreparePages: frames are fresh zeroed pages here, so running out of frames is not among its panics; that the frames are the allocator's, and that panic, are `Processes.BuildOk` and `Processes.RebuildOk`, and `Programs.ProgramInPlace` joins the two.
- ExecCalls.VectorsInPlace: the registers a new program starts with are not part of the state; `UserStack.BuildStack` returns them.
- Calls.ReadDoes: what is read is returned, not stored through the caller's page tables; for a write `UserCalls.WriteCallDoes` covers that part.
- VfsBoot.InitVfs: a record with a negative length that passes the checks gives an empty name or file; the code would also keep the negative number as its length.
- Elf.Byte: index sums are not wrapped, since a wrapped index is outside every image just as the unwrapped one is.
- Vfs.Read: what a console read returns is a parameter.
- Descriptors.OpenKeeps: whether a path opens anything is not decided here but in `OpenFiles.OpenFile`, which calls `Vfs.Open`.
- KernelSafety.SpawnKeeps: the step takes a loaded image, so the panics of validation and loading are not among its own; with them the conditions are `ExecCalls.CreateElfKeeps` and `ExecCalls.SpawnPathKeeps`.
- KernelSafety.ExecKeeps: the same, with `ExecCalls.ExecElfKeeps` and `ExecCalls.ExecPathKeeps`.
- KernelSafety.NextKeeps: the same, for both steps.
- ExecCalls.SpawnPath: path and vectors are taken as already copied from user memory, and the stack page as already laid out; the copying and the layout are `UserMemory.CopyUserVector` and `UserStack.BuildStack`.
