/**
 The spawn and exec system calls from the path on: the file is opened, read,
 closed and validated, loaded, and put in place of, or beside, the caller. Here
 the file system, the executable's headers, the frames and the task table meet.
 */
module ExecCalls {
  import opened Base
  import opened Kernel
  import opened KernelSafety
  import opened Programs
  import Elf
  import Loader
  import Processes
  import Spaces
  import S = Sched
  import Safety = SchedSafety
  import D = Descriptors
  import V = Vfs
  import PageTables
  import Frames
  import KernelRuns
  import UserStack
  import Bytes
  import UserMemory
  import Calls

  const MAX_IMAGE: nat := 16384

  // ---------------------------------------------------------------------
  // Reading the executable
  // ---------------------------------------------------------------------

  /** What is read through an open descriptor: a file of at most 16384 bytes, whole. */
  function ReadWhole(v: V.Vfs, d: int): (r: (V.Vfs, Option<seq<byte>>))
    requires V.NodesOk(v)
  {
    match V.DescAt(v, d)
    case OnFile(id, _) =>
      var length := v.nodes[id].length;
      if length == 0 || length > MAX_IMAGE then (v, None)
      else
        var (v', bytes) := V.Read(v, d, length, []);
        (v', if bytes.Some? && |bytes.value| == length then bytes else None)
    case _ => (v, None)
  }

  lemma OpenedOk(v: V.Vfs, path: seq<byte>)
    requires V.NodesOk(v)
    ensures V.Open(v, path, 0).Ok? && V.NodesOk(V.Open(v, path, 0).value.0)
  {
  }

  /** syscall_load_exec_image: open, stat, read, close, validate. */
  ghost function LoadExecImage(v: V.Vfs, path: seq<byte>): (r: Outcome<(V.Vfs, Option<seq<byte>>)>)
    requires V.NodesOk(v)
  {
    if path == [] then Ok((v, None))
    else
      OpenedOk(v, path);
      var (v1, d) :- V.Open(v, path, 0);
      if d == 0 then Ok((v1, None))
      else
        var (v2, bytes) := ReadWhole(v1, d);
        var v3 := V.Close(v2, d).0;
        if bytes.None? then Ok((v3, None))
        else
          var valid :- Elf.Validate(bytes.value);
          Ok((v3, if valid then bytes else None))
  }

  /** The contents of the file a path names, if it can be opened and is not empty or too long. */
  function FileAt(v: V.Vfs, path: seq<byte>): (r: Option<seq<byte>>)
    requires V.NodesOk(v)
  {
    var target := V.OpenTarget(V.Metas(v.nodes), path, 0);
    if path == [] || !target.TheFile? || D.FirstClosed(V.Opens(v.descs), 1) == 0 then None
    else
      var n := v.nodes[target.node];
      if n.length == 0 || n.length > MAX_IMAGE then None else Some(n.buffer[..n.length])
  }

  /** Loading yields the named file's contents if they are a valid executable,
      panics only where validation does, and leaves the files and the
      descriptors exactly as they were. */
  lemma LoadedFromFile(v: V.Vfs, path: seq<byte>)
    requires V.NodesOk(v)
    ensures LoadExecImage(v, path)
         == match FileAt(v, path)
            case None => Ok((v, None))
            case Some(image) =>
              match Elf.Validate(image)
              case Panic(f) => Panic(f)
              case Ok(valid) => Ok((v, if valid then Some(image) else None))
  {
    var target := V.OpenTarget(V.Metas(v.nodes), path, 0);
    var d := D.FirstClosed(V.Opens(v.descs), 1);
    if path != [] && d != 0 && (target.TheFile? || target.TheDirectory?) {
      var what := if target.TheFile? then V.OnFile(target.node, 0) else V.OnDirectory(target.path, 0);
      assert V.Open(v, path, 0) == Ok((v.(descs := v.descs[d - 1 := what]), d));
      Reopened(v, d, what);
    }
  }

  /** A closed descriptor that is opened, read through and closed again. */
  lemma Reopened(v: V.Vfs, d: nat, what: V.Desc)
    requires V.NodesOk(v) && 1 <= d <= |v.descs| && v.descs[d - 1].Closed?
    requires what.OnDirectory? || (what.OnFile? && what.node < |v.nodes| && what.offset == 0)
    ensures var v1 := v.(descs := v.descs[d - 1 := what]);
            && V.NodesOk(v1) && V.Close(ReadWhole(v1, d).0, d).0 == v
            && ReadWhole(v1, d).1
            == if what.OnFile? && 0 < v.nodes[what.node].length <= MAX_IMAGE
               then Some(v.nodes[what.node].buffer[..v.nodes[what.node].length]) else None
  {
    var v2 := ReadWhole(v.(descs := v.descs[d - 1 := what]), d).0;
    assert v2.descs[d - 1 := V.Closed] == v.descs;
  }

  // ---------------------------------------------------------------------
  // The calls
  // ---------------------------------------------------------------------

  /** The pages of an executable: its own, the heap and the stack. */
  function PagesOf(image: seq<byte>): (n: int) { Elf.PageCount(Elf.Segments(image)) + Processes.HEAP_PAGES + 1 }

  ghost predicate Runnable(image: seq<byte>) { Elf.Accepted(image) && Loader.LoadFault(image).None? }

  lemma ProgramOk(image: seq<byte>, stack: seq<byte>)
    requires Elf.Accepted(image) && |stack| == 4096
    ensures Processes.ImageOk(Program(image, stack)) && Program(image, stack).Pages() == PagesOf(image)
  {
    Loader.LoadedImageOk(image, ProgramWords(image, Elf.Segments(image), stack));
  }

  /** What the checks of scheduler_create_user_elf_task make of a task that is
      created with this outcome if they are passed. */
  ghost function CreateChecked(k: Kernel, image: seq<byte>, created: Outcome<Kernel>): (r: Outcome<Kernel>)
    requires Sized(k)
  {
    var _ :- S.FindFreeTaskId(k.s);
    var (m, _) :- Spaces.Create(k.m);
    var valid :- Elf.Validate(image);
    if !valid then Panic(InvalidElf)
    else if m.pool.Free() < PagesOf(image) then Panic(OutOfFrames)
    else match Loader.LoadFault(image)
      case Some(f) => Panic(f)
      case None => created
  }

  /** scheduler_exec_current_task likewise; -1 for a kernel task or an invalid image. */
  ghost function ExecChecked(k: Kernel, image: seq<byte>, done: Outcome<Kernel>): (r: Outcome<Kernel>)
    requires Sized(k)
  {
    if k.procs[k.s.current].Nobody? then Ok(k)
    else
      var valid :- Elf.Validate(image);
      if !valid then Ok(k)
      else if k.m.pool.Free() < PagesOf(image) then Panic(OutOfFrames)
      else match Loader.LoadFault(image)
        case Some(f) => Panic(f)
        case None => done
  }

  /** scheduler_create_user_elf_task on an executable's bytes and its initial stack. */
  ghost function CreateElfTask(k: Kernel, image: seq<byte>, stack: seq<byte>): (r: Outcome<Kernel>)
    requires Sized(k) && |stack| == 4096
  {
    if Elf.Accepted(image) then
      ProgramOk(image, stack);
      CreateChecked(k, image, DoSpawn(k, Program(image, stack)))
    else CreateChecked(k, image, Panic(InvalidElf))
  }

  /** scheduler_exec_current_task */
  ghost function ExecElf(k: Kernel, image: seq<byte>, stack: seq<byte>): (r: Outcome<Kernel>)
    requires Sized(k) && |stack| == 4096
  {
    if Elf.Accepted(image) then
      ProgramOk(image, stack);
      ExecChecked(k, image, DoExec(k, Program(image, stack)))
    else ExecChecked(k, image, Ok(k))
  }

  /** No slot, an image that does not validate or does not load, too few frames. */
  ghost predicate CreateElfPanics(k: Kernel, image: seq<byte>)
    requires Sized(k)
  {
    Safety.TableIsFull(k.s) || !Runnable(image) || k.m.pool.Free() < 7 + PagesOf(image)
  }

  ghost predicate ExecElfPanics(k: Kernel, image: seq<byte>)
    requires Sized(k)
  {
    && k.procs[k.s.current].Process?
    && (|| Elf.Validate(image).Panic?
        || (Elf.Accepted(image) && (!Runnable(image) || k.m.pool.Free() < PagesOf(image))))
  }

  lemma CreateCheckedKeeps(k: Kernel, all: seq<Frames.Addr>, users: nat, image: seq<byte>, created: Outcome<Kernel>)
    requires Inv(k, all, users)
    requires Elf.Accepted(image) ==>
               Keeps(all, users, created, Safety.TableIsFull(k.s) || k.m.pool.Free() < 7 + PagesOf(image))
    ensures Keeps(all, users, CreateChecked(k, image, created), CreateElfPanics(k, image))
  {
    Safety.FindFreeFinds(k.s);
    CreateCosts(k, all, users);
  }

  lemma ExecCheckedKeeps(k: Kernel, all: seq<Frames.Addr>, users: nat, image: seq<byte>, done: Outcome<Kernel>)
    requires Inv(k, all, users)
    requires Elf.Accepted(image) ==>
               Keeps(all, users, done, k.procs[k.s.current].Process? && k.m.pool.Free() < PagesOf(image))
    ensures Keeps(all, users, ExecChecked(k, image, done), ExecElfPanics(k, image))
  {
  }

  /** A task is created from an executable's bytes except in exactly the cases listed. */
  lemma CreateElfKeeps(k: Kernel, all: seq<Frames.Addr>, users: nat, image: seq<byte>, stack: seq<byte>)
    requires Inv(k, all, users) && k.s.tasks[k.s.current].pc.Outside? && |stack| == 4096
    ensures Keeps(all, users, CreateElfTask(k, image, stack), CreateElfPanics(k, image))
  {
    if Elf.Accepted(image) {
      ProgramOk(image, stack);
      SpawnKeeps(k, all, users, Program(image, stack));
      CreateCheckedKeeps(k, all, users, image, DoSpawn(k, Program(image, stack)));
    } else {
      CreateCheckedKeeps(k, all, users, image, Panic(InvalidElf));
    }
  }

  lemma ExecElfKeeps(k: Kernel, all: seq<Frames.Addr>, users: nat, image: seq<byte>, stack: seq<byte>)
    requires Inv(k, all, users) && |stack| == 4096
    ensures Keeps(all, users, ExecElf(k, image, stack), ExecElfPanics(k, image))
  {
    if Elf.Accepted(image) {
      ProgramOk(image, stack);
      ExecKeeps(k, all, users, Program(image, stack));
      ExecCheckedKeeps(k, all, users, image, DoExec(k, Program(image, stack)));
    } else {
      ExecCheckedKeeps(k, all, users, image, Ok(k));
    }
  }

  lemma CreateCheckedOk(k: Kernel, image: seq<byte>, created: Outcome<Kernel>)
    requires Sized(k) && CreateChecked(k, image, created).Ok?
    ensures Runnable(image) && CreateChecked(k, image, created) == created
  {
  }

  lemma CreateElfIsSpawn(k: Kernel, image: seq<byte>, stack: seq<byte>)
    requires Sized(k) && |stack| == 4096 && CreateElfTask(k, image, stack).Ok?
    ensures Runnable(image) && Processes.ImageOk(Program(image, stack))
    ensures CreateElfTask(k, image, stack) == DoSpawn(k, Program(image, stack))
  {
    if Elf.Accepted(image) {
      ProgramOk(image, stack);
      CreateCheckedOk(k, image, DoSpawn(k, Program(image, stack)));
    } else {
      CreateCheckedOk(k, image, Panic(InvalidElf));
    }
  }

  lemma ExecElfIsExec(k: Kernel, image: seq<byte>, stack: seq<byte>)
    requires Sized(k) && |stack| == 4096 && ExecElf(k, image, stack).Ok? && ExecElf(k, image, stack) != Ok(k)
    ensures Runnable(image) && Processes.ImageOk(Program(image, stack))
    ensures ExecElf(k, image, stack) == DoExec(k, Program(image, stack))
  {
    ProgramOk(image, stack);
  }

  lemma CreateCosts(k: Kernel, all: seq<Frames.Addr>, users: nat)
    requires Inv(k, all, users)
    ensures Spaces.Create(k.m).Ok? <==> k.m.pool.Free() >= 6
    ensures Spaces.Create(k.m).Ok? ==> Spaces.Create(k.m).value.0.pool.Free() == k.m.pool.Free() - 6
  {
    Processes.CreateOk(k.m);
    if k.m.pool.Free() >= 6 {
      Frames.TakeMoves(k.m.pool, 6);
    }
  }

  /** syscall_spawn_exec_user_path once path and vectors are copied; a refused
      call, -1, changes nothing. */
  ghost function SpawnPath(k: Kernel, path: seq<byte>, stack: seq<byte>): (r: Outcome<Kernel>)
    requires Sized(k) && |stack| == 4096
  {
    LoadedFromFile(k.vfs, path);
    var (vfs, image) :- LoadExecImage(k.vfs, path);
    if image.None? then Ok(k.(vfs := vfs))
    else CreateElfTask(k.(vfs := vfs), image.value, stack)
  }

  /** syscall_exec_user_path likewise. */
  ghost function ExecPath(k: Kernel, path: seq<byte>, stack: seq<byte>): (r: Outcome<Kernel>)
    requires Sized(k) && |stack| == 4096
  {
    LoadedFromFile(k.vfs, path);
    var (vfs, image) :- LoadExecImage(k.vfs, path);
    if image.None? then Ok(k.(vfs := vfs))
    else ExecElf(k.(vfs := vfs), image.value, stack)
  }

  /** A call by path is refused, or panics while the file is validated, or goes on with the file's contents. */
  lemma SpawnByPath(k: Kernel, path: seq<byte>, stack: seq<byte>)
    requires Sized(k) && |stack| == 4096
    ensures var file, r := FileAt(k.vfs, path), SpawnPath(k, path, stack);
            if file.None? || Elf.Validate(file.value) == Ok(false) then r == Ok(k)
            else if Elf.Validate(file.value).Panic? then r.Panic?
            else r == CreateElfTask(k, file.value, stack)
  {
    LoadedFromFile(k.vfs, path);
    assert k.(vfs := k.vfs) == k;
  }

  lemma ExecByPath(k: Kernel, path: seq<byte>, stack: seq<byte>)
    requires Sized(k) && |stack| == 4096
    ensures var file, r := FileAt(k.vfs, path), ExecPath(k, path, stack);
            if file.None? || Elf.Validate(file.value) == Ok(false) then r == Ok(k)
            else if Elf.Validate(file.value).Panic? then r.Panic?
            else r == ExecElf(k, file.value, stack)
  {
    LoadedFromFile(k.vfs, path);
    assert k.(vfs := k.vfs) == k;
  }

  /** The file's headers leave it, or it is a valid executable and there is no
      slot, it does not load, or too few frames are left. */
  ghost predicate SpawnPathPanics(k: Kernel, path: seq<byte>)
    requires Sized(k)
  {
    match FileAt(k.vfs, path)
    case None => false
    case Some(image) =>
      || Elf.Validate(image).Panic?
      || (Elf.Accepted(image) && CreateElfPanics(k, image))
  }

  /** The same for the caller's own image; a kernel task gets -1 once the file is validated. */
  ghost predicate ExecPathPanics(k: Kernel, path: seq<byte>)
    requires Sized(k)
  {
    match FileAt(k.vfs, path)
    case None => false
    case Some(image) =>
      || Elf.Validate(image).Panic?
      || (Elf.Accepted(image) && k.procs[k.s.current].Process?
          && (!Runnable(image) || k.m.pool.Free() < PagesOf(image)))
  }

  lemma SpawnRefused(k: Kernel, path: seq<byte>, stack: seq<byte>)
    requires Sized(k) && |stack| == 4096
    requires FileAt(k.vfs, path).Some? ==> !Elf.Accepted(FileAt(k.vfs, path).value)
    ensures var file, r := FileAt(k.vfs, path), SpawnPath(k, path, stack);
            if file.Some? && Elf.Validate(file.value).Panic? then r.Panic? else r == Ok(k)
  {
    LoadedFromFile(k.vfs, path);
    assert k.(vfs := k.vfs) == k;
  }

  lemma SpawnAccepted(k: Kernel, all: seq<Frames.Addr>, users: nat, path: seq<byte>, stack: seq<byte>,
                      image: seq<byte>)
    requires Inv(k, all, users) && k.s.tasks[k.s.current].pc.Outside? && |stack| == 4096
    requires FileAt(k.vfs, path) == Some(image) && Elf.Accepted(image)
    ensures Keeps(all, users, SpawnPath(k, path, stack), CreateElfPanics(k, image))
  {
    SpawnByPath(k, path, stack);
    CreateElfKeeps(k, all, users, image, stack);
  }

  /** A call that changes nothing or panics. */
  lemma KeepsEither(all: seq<Frames.Addr>, users: nat, k: Kernel, r: Outcome<Kernel>, panics: bool)
    requires Inv(k, all, users) && if panics then r.Panic? else r == Ok(k)
    ensures Keeps(all, users, r, panics)
  {
  }

  lemma PathPanics(k: Kernel, path: seq<byte>)
    requires Sized(k)
    ensures var file := FileAt(k.vfs, path);
            SpawnPathPanics(k, path)
            == if file.Some? && Elf.Accepted(file.value) then CreateElfPanics(k, file.value)
               else file.Some? && Elf.Validate(file.value).Panic?
  {
  }

  /** Spawning a path keeps the machine's invariant and panics in exactly those cases. */
  lemma SpawnPathKeeps(k: Kernel, all: seq<Frames.Addr>, users: nat, path: seq<byte>, stack: seq<byte>)
    requires Inv(k, all, users) && k.s.tasks[k.s.current].pc.Outside? && |stack| == 4096
    ensures Keeps(all, users, SpawnPath(k, path, stack), SpawnPathPanics(k, path))
  {
    var file := FileAt(k.vfs, path);
    PathPanics(k, path);
    if file.Some? && Elf.Accepted(file.value) {
      SpawnAccepted(k, all, users, path, stack, file.value);
    } else {
      SpawnRefused(k, path, stack);
      KeepsEither(all, users, k, SpawnPath(k, path, stack), SpawnPathPanics(k, path));
    }
  }

  lemma ExecPathKeeps(k: Kernel, all: seq<Frames.Addr>, users: nat, path: seq<byte>, stack: seq<byte>)
    requires Inv(k, all, users) && |stack| == 4096
    ensures Keeps(all, users, ExecPath(k, path, stack), ExecPathPanics(k, path))
  {
    ExecByPath(k, path, stack);
    if FileAt(k.vfs, path).Some? {
      ExecElfKeeps(k, all, users, FileAt(k.vfs, path).value, stack);
    }
  }

  lemma ProgramNext(k: Kernel, img: Processes.Image)
    requires Sized(k) && Processes.ImageOk(img)
    ensures StepOk(Spawn(img)) && Next(k, Spawn(img)) == DoSpawn(k, img)
    ensures StepOk(Exec(img)) && Next(k, Exec(img)) == DoExec(k, img)
  {
  }

  /** A call by path that does not panic leaves the machine as it was, or is a
      step of it with the program made of the file: what holds in every run of
      the machine holds with these calls in it. */
  lemma SpawnPathIsStep(k: Kernel, path: seq<byte>, stack: seq<byte>)
    requires Sized(k) && |stack| == 4096
    requires SpawnPath(k, path, stack).Ok? && SpawnPath(k, path, stack) != Ok(k)
    ensures var file := FileAt(k.vfs, path);
            && file.Some? && Runnable(file.value) && StepOk(Spawn(Program(file.value, stack)))
            && SpawnPath(k, path, stack) == Next(k, Spawn(Program(file.value, stack)))
  {
    SpawnByPath(k, path, stack);
    var image := FileAt(k.vfs, path).value;
    CreateElfIsSpawn(k, image, stack);
    ProgramNext(k, Program(image, stack));
  }

  lemma ExecPathIsStep(k: Kernel, path: seq<byte>, stack: seq<byte>)
    requires Sized(k) && |stack| == 4096
    requires ExecPath(k, path, stack).Ok? && ExecPath(k, path, stack) != Ok(k)
    ensures var file := FileAt(k.vfs, path);
            && file.Some? && Runnable(file.value) && StepOk(Exec(Program(file.value, stack)))
            && ExecPath(k, path, stack) == Next(k, Exec(Program(file.value, stack)))
  {
    ExecByPath(k, path, stack);
    var image := FileAt(k.vfs, path).value;
    ExecElfIsExec(k, image, stack);
    ProgramNext(k, Program(image, stack));
  }

  /** An exec by path that does not panic touches nothing but the caller's own
      memory: not its descriptors, not the tasks, not the files, no other process. */
  lemma ExecPathDoes(k: Kernel, all: seq<Frames.Addr>, users: nat, path: seq<byte>, stack: seq<byte>)
    requires Inv(k, all, users) && |stack| == 4096 && ExecPath(k, path, stack).Ok?
    ensures var k', id := ExecPath(k, path, stack).value, k.s.current;
            && k'.s == k.s && k'.kt == k.kt && k'.fds == k.fds && k'.vfs == k.vfs && |k'.procs| == |k.procs|
            && (forall i :: 0 <= i < |k.procs| && i != id ==> k'.procs[i] == k.procs[i])
            && Calls.OtherFrames(k, k', id)
  {
    if ExecPath(k, path, stack) != Ok(k) {
      ExecPathIsStep(k, path, stack);
      Calls.ExecDoes(k, all, users, Program(FileAt(k.vfs, path).value, stack));
    }
  }

  // ---------------------------------------------------------------------
  // The arguments
  // ---------------------------------------------------------------------

  function FrameBytes(words: seq<PageTables.Word>): (r: seq<byte>)
    requires |words| == PageTables.SLOTS
    ensures |r| == 4096 && forall o :: 0 <= o < 4096 ==> r[o] == FrameByte(words, o)
  {
    seq(4096, o requires 0 <= o < 4096 => FrameByte(words, o))
  }

  lemma PageBack(bytes: seq<byte>)
    requires |bytes| == 4096
    ensures FrameBytes(PageWords(bytes)) == bytes
  {
    var back := FrameBytes(PageWords(bytes));
    forall o | 0 <= o < 4096
      ensures back[o] == bytes[o]
    {
      FrameByteIs(bytes, o);
    }
  }

  /** A program that starts at argc on this page reads back these vectors. */
  predicate VectorsOn(bytes: seq<byte>, base: nat, args: seq<seq<byte>>, envs: seq<seq<byte>>) {
    var rsp := UserStack.Start(args, envs);
    && 0 <= rsp && rsp + 16 + 8 * |args| <= |bytes|
    && Bytes.WordAt(bytes, rsp) == |args|
    && UserStack.ReadVector(bytes, base, rsp + 8) == Some(args)
    && UserStack.ReadVector(bytes, base, rsp + 16 + 8 * |args|) == Some(envs)
  }

  lemma VectorsRead(stack: seq<byte>, base: nat, args: seq<seq<byte>>, envs: seq<seq<byte>>, argOffs: seq<nat>,
                    envOffs: seq<nat>)
    requires UserStack.StackOk(stack, base, args, envs, argOffs, envOffs) && base > 0
    requires UserMemory.VectorOk(args) && UserMemory.VectorOk(envs)
    ensures VectorsOn(stack, base, args, envs)
  {
    UserStack.StackReadsBack(stack, base, args, envs, argOffs, envOffs);
  }

  /** Ring 3 may write the process's last page, and it holds these bytes. */
  ghost predicate LastPage(mem: PageTables.Mem, p: Processes.Process, bytes: seq<byte>) {
    && p.Process? && p.pages != []
    && var last := |p.pages| - 1;
    && p.pages[last] in mem && |mem[p.pages[last]]| == PageTables.SLOTS
    && PageTables.UserWalk(mem, p.tree.p4, Spaces.USER_BASE + last)
    && PageTables.Walk(mem, p.tree.p4, Spaces.USER_BASE + last)
    == Some(PageTables.Leaf(p.pages[last], PageTables.USER_RW))
    && FrameBytes(mem[p.pages[last]]) == bytes
  }

  lemma LastPageLoaded(mem: PageTables.Mem, p: Processes.Process, image: seq<byte>, stack: seq<byte>)
    requires Runnable(image) && |stack| == 4096
    requires Processes.ProcessOk(mem, p) && Processes.Loaded(mem, p, Program(image, stack))
    ensures |p.pages| == PagesOf(image) && LastPage(mem, p, stack)
  {
    ProgramOk(image, stack);
    var last := PagesOf(image) - 1;
    PageHeld(mem, p, Program(image, stack), last);
    ProgramFlags(Elf.Segments(image), ProgramWords(image, Elf.Segments(image), stack), last);
    PageBack(stack);
  }

  /** In every run from boot, right after a spawn or an exec: what ring 3 reaches
      at the last page is argc and the vectors that were passed. */
  lemma VectorsInPlace(pool: Frames.Pool, vfs: V.Vfs, states: seq<Kernel>, steps: seq<Step>, n: nat,
                       image: seq<byte>, stack: seq<byte>, args: seq<seq<byte>>, envs: seq<seq<byte>>,
                       argOffs: seq<nat>, envOffs: seq<nat>)
    requires n < |steps| && KernelRuns.BootRun(pool, vfs, states, steps, n + 1)
    requires Runnable(image) && |stack| == 4096 && UserMemory.VectorOk(args) && UserMemory.VectorOk(envs)
    requires UserStack.StackOk(stack, Spaces.PageVirt(PagesOf(image) - 1), args, envs, argOffs, envOffs)
    requires || steps[n] == Spawn(Program(image, stack))
             || (steps[n] == Exec(Program(image, stack)) && states[n].procs[states[n].s.current].Process?)
    ensures var id := ProgramSlot(states[n], steps[n]);
            && id < |states[n + 1].procs| && LastPage(states[n + 1].m.mem, states[n + 1].procs[id], stack)
            && VectorsOn(stack, Spaces.PageVirt(PagesOf(image) - 1), args, envs)
            && |states[n + 1].procs[id].pages| == PagesOf(image)
  {
    ProgramLoaded(pool, vfs, states, steps, n);
    var id := ProgramSlot(states[n], steps[n]);
    LastPageLoaded(states[n + 1].m.mem, states[n + 1].procs[id], image, stack);
    VectorsRead(stack, Spaces.PageVirt(PagesOf(image) - 1), args, envs, argOffs, envOffs);
  }
}
