/**
 Path normalisation on values: what the code computes for every path, what the
 canonical form is, and exactly when the two agree.
 */
module Paths {
  import opened Base

  const SLASH: byte := 47
  const DOT: byte := 46

  type Part = seq<byte>

  const HERE: Part := [46]
  const UP: Part := [46, 46]

  ghost predicate NoSlash(part: Part) { SLASH !in part }

  /** The length of the run of bytes other than a slash at the front. */
  function RunLength(path: seq<byte>): (n: nat)
    ensures n <= |path|
    ensures forall i :: 0 <= i < n ==> path[i] != SLASH
    ensures n < |path| ==> path[n] == SLASH
  {
    if path == [] || path[0] == SLASH then 0 else 1 + RunLength(path[1..])
  }

  /** The components of a path, empty ones left out. */
  function Components(path: seq<byte>): (r: seq<Part>)
    decreases |path|
  {
    if path == [] then []
    else if path[0] == SLASH then Components(path[1..])
    else
      var n := RunLength(path);
      [path[..n]] + Components(path[n..])
  }

  // ---------------------------------------------------------------------
  // What the code computes
  // ---------------------------------------------------------------------

  /** The output buffer read as parts each after a slash; a dangling one ends
      with a slash more. */
  datatype Buffer = Buffer(parts: seq<Part>, dangling: bool)

  const ROOT := Buffer([], false)

  function Join(parts: seq<Part>): (r: seq<byte>) {
    if parts == [] then [] else [SLASH] + parts[0] + Join(parts[1..])
  }

  function Render(b: Buffer): (r: seq<byte>) {
    if b.parts == [] then [SLASH] else Join(b.parts) + if b.dangling then [SLASH] else []
  }

  /** `..` takes the last part away but leaves its slash, unless it was the first part. */
  function Pop(b: Buffer): (r: Buffer) {
    if b.parts == [] then b
    else
      var rest := b.parts[..|b.parts| - 1];
      Buffer(rest, rest != [])
  }

  /** A component goes after a slash of its own, whether or not one dangles. */
  function Push(b: Buffer, part: Part): (r: Buffer) {
    Buffer(b.parts + (if b.dangling then [[], part] else [part]), false)
  }

  function Take1(b: Buffer, part: Part): (r: Buffer) {
    if part == HERE then b else if part == UP then Pop(b) else Push(b, part)
  }

  function Run(b: Buffer, parts: seq<Part>): (r: Buffer)
    decreases |parts|
  {
    if parts == [] then b else Run(Take1(b, parts[0]), parts[1..])
  }

  /** vfs_normalize_path; None stands for returning (0, 0). */
  function Normalize(path: seq<byte>): (r: Option<seq<byte>>) {
    if path == [] || path[0] != SLASH then None else Some(Render(Run(ROOT, Components(path))))
  }

  // ---------------------------------------------------------------------
  // What it ought to compute
  // ---------------------------------------------------------------------

  function Reduce1(stack: seq<Part>, part: Part): (r: seq<Part>) {
    if part == HERE then stack
    else if part == UP then (if stack == [] then [] else stack[..|stack| - 1])
    else stack + [part]
  }

  function Reduce(stack: seq<Part>, parts: seq<Part>): (r: seq<Part>)
    decreases |parts|
  {
    if parts == [] then stack else Reduce(Reduce1(stack, parts[0]), parts[1..])
  }

  /** The slash-join of the reduced component stack. */
  function Canonical(path: seq<byte>): (r: seq<byte>) {
    Render(Buffer(Reduce([], Components(path)), false))
  }

  /** A caller's view of the buffer: how many parts it has, whether it dangles,
      and whether a `..` met two or more parts since it last was the root. */
  datatype Gauge = Gauge(depth: nat, dangling: bool, dirty: bool)

  function Gauge1(g: Gauge, part: Part): (r: Gauge) {
    if part == HERE then g
    else if part == UP then
      if g.depth == 0 then g
      else if g.depth == 1 then Gauge(0, false, false)
      else Gauge(g.depth - 1, true, true)
    else Gauge(g.depth + (if g.dangling then 2 else 1), false, g.dirty)
  }

  function GaugeAll(g: Gauge, parts: seq<Part>): (r: Gauge)
    decreases |parts|
  {
    if parts == [] then g else GaugeAll(Gauge1(g, parts[0]), parts[1..])
  }

  /** A `..` met two or more components deep, and its slash is still there. */
  predicate LeavesSlash(path: seq<byte>) {
    GaugeAll(Gauge(0, false, false), Components(path)).dirty
  }

  // ---------------------------------------------------------------------
  // Buffers
  // ---------------------------------------------------------------------

  ghost predicate Plain(part: Part) { part != [] && NoSlash(part) && part != HERE && part != UP }

  ghost predicate BufferOk(b: Buffer) {
    && (forall i :: 0 <= i < |b.parts| ==> b.parts[i] == [] || Plain(b.parts[i]))
    && (b.parts == [] ==> !b.dangling)
    && (b.parts != [] ==> b.parts[0] != [])
    && (b.parts != [] && !b.dangling ==> b.parts[|b.parts| - 1] != [])
  }

  lemma {:induction false} ComponentsPlain(path: seq<byte>)
    ensures forall i :: 0 <= i < |Components(path)| ==> Components(path)[i] != [] && NoSlash(Components(path)[i])
    decreases |path|
  {
    if path != [] {
      if path[0] == SLASH {
        ComponentsPlain(path[1..]);
      } else {
        ComponentsPlain(path[RunLength(path)..]);
      }
    }
  }

  lemma Take1Ok(b: Buffer, part: Part)
    requires BufferOk(b) && part != [] && NoSlash(part)
    ensures BufferOk(Take1(b, part))
  {
  }

  lemma {:induction false} RunOk(b: Buffer, parts: seq<Part>)
    requires BufferOk(b) && forall i :: 0 <= i < |parts| ==> parts[i] != [] && NoSlash(parts[i])
    ensures BufferOk(Run(b, parts))
    decreases |parts|
  {
    if parts != [] {
      Take1Ok(b, parts[0]);
      RunOk(Take1(b, parts[0]), parts[1..]);
    }
  }

  /** The buffer, the true stack and the gauge in step. */
  ghost predicate InStep(b: Buffer, stack: seq<Part>, g: Gauge) {
    && g.depth == |b.parts| && g.dangling == b.dangling
    && |stack| <= |b.parts|
    && (!g.dirty ==> b == Buffer(stack, false))
    && (g.dirty ==> b.parts != [] && (b.dangling || [] in b.parts))
  }

  lemma InStep1(b: Buffer, stack: seq<Part>, g: Gauge, part: Part)
    requires BufferOk(b) && InStep(b, stack, g) && part != []
    ensures InStep(Take1(b, part), Reduce1(stack, part), Gauge1(g, part))
  {
    if part == UP {
      if b.parts != [] {
        assert g.dirty && |b.parts| > 1 ==> Pop(b).dangling;
      }
    } else if part != HERE {
      var b' := Push(b, part);
      if g.dirty {
        if b.dangling {
          assert b'.parts[|b.parts|] == [];
        } else {
          var i :| 0 <= i < |b.parts| && b.parts[i] == [];
          assert b'.parts[i] == [];
        }
      }
    }
  }

  lemma {:induction false} InStepAll(b: Buffer, stack: seq<Part>, g: Gauge, parts: seq<Part>)
    requires BufferOk(b) && InStep(b, stack, g)
    requires forall i :: 0 <= i < |parts| ==> parts[i] != [] && NoSlash(parts[i])
    ensures BufferOk(Run(b, parts)) && InStep(Run(b, parts), Reduce(stack, parts), GaugeAll(g, parts))
    decreases |parts|
  {
    if parts != [] {
      Take1Ok(b, parts[0]);
      InStep1(b, stack, g, parts[0]);
      InStepAll(Take1(b, parts[0]), Reduce1(stack, parts[0]), Gauge1(g, parts[0]), parts[1..]);
    }
  }

  // ---------------------------------------------------------------------
  // Buffers and bytes
  // ---------------------------------------------------------------------

  lemma {:induction false} JoinAppend(parts: seq<Part>, more: seq<Part>)
    ensures Join(parts + more) == Join(parts) + Join(more)
  {
    if parts == [] {
      assert parts + more == more;
    } else {
      assert (parts + more)[1..] == parts[1..] + more;
      JoinAppend(parts[1..], more);
    }
  }

  lemma JoinOne(parts: seq<Part>, part: Part)
    ensures Join(parts + [part]) == Join(parts) + [SLASH] + part
  {
    JoinAppend(parts, [part]);
    assert Join([part]) == [SLASH] + part + Join([]);
    assert Join(parts) + ([SLASH] + part) == Join(parts) + [SLASH] + part;
  }

  /** The bytes between slashes, empty pieces kept. */
  function Pieces(path: seq<byte>): (r: seq<Part>)
    requires path != []
    decreases |path|
  {
    var n := RunLength(path[1..]);
    [path[1..1 + n]] + if 1 + n == |path| then [] else Pieces(path[1 + n..])
  }

  lemma {:induction false} RunLengthOf(part: Part, rest: seq<byte>)
    requires NoSlash(part) && (rest == [] || rest[0] == SLASH)
    ensures RunLength(part + rest) == |part|
  {
    if part == [] {
      assert part + rest == rest;
    } else {
      assert (part + rest)[1..] == part[1..] + rest;
      RunLengthOf(part[1..], rest);
    }
  }

  lemma JoinHead(parts: seq<Part>)
    ensures Join(parts) == [] <==> parts == []
    ensures parts != [] ==> Join(parts)[0] == SLASH
  {
  }

  lemma HeadSlices(part: Part, rest: seq<byte>)
    ensures var path := [SLASH] + part + rest;
            path[1..] == part + rest && path[1..1 + |part|] == part && path[1 + |part|..] == rest
  {
    var path := [SLASH] + part + rest;
    assert path == [SLASH] + (part + rest);
    assert path[1..1 + |part|] == (part + rest)[..|part|];
    assert path[1 + |part|..] == (part + rest)[|part|..];
  }

  /** Joining loses nothing. */
  lemma {:induction false} PiecesOfJoin(parts: seq<Part>)
    requires parts != [] && forall i :: 0 <= i < |parts| ==> NoSlash(parts[i])
    ensures Join(parts) != [] && Pieces(Join(parts)) == parts
  {
    var part, rest := parts[0], Join(parts[1..]);
    JoinHead(parts[1..]);
    RunLengthOf(part, rest);
    HeadSlices(part, rest);
    if parts[1..] != [] {
      PiecesOfJoin(parts[1..]);
    }
    assert parts == [part] + parts[1..];
  }

  /** The pieces a buffer renders to. */
  function Trail(b: Buffer): (r: seq<Part>) {
    if b.parts == [] then [[]] else b.parts + if b.dangling then [[]] else []
  }

  lemma RenderIsJoin(b: Buffer)
    ensures Render(b) == Join(Trail(b))
  {
    assert Join([[]]) == [SLASH] + [] + Join([]);
    if b.parts != [] && b.dangling {
      JoinOne(b.parts, []);
      assert Join(b.parts) + [SLASH] + [] == Join(b.parts) + [SLASH];
    } else if b.parts != [] {
      assert b.parts + [] == b.parts && Join(b.parts) + [] == Join(b.parts);
    }
  }

  lemma BufferNoSlash(b: Buffer)
    requires BufferOk(b)
    ensures forall i :: 0 <= i < |Trail(b)| ==> NoSlash(Trail(b)[i])
  {
  }

  /** The code's output is the canonical path exactly when no `..` left its slash behind. */
  lemma NormalizesIff(path: seq<byte>)
    requires path != [] && path[0] == SLASH
    ensures Normalize(path) == Some(Canonical(path)) <==> !LeavesSlash(path)
  {
    var parts := Components(path);
    ComponentsPlain(path);
    InStepAll(ROOT, [], Gauge(0, false, false), parts);
    var b, stack := Run(ROOT, parts), Reduce([], parts);
    if LeavesSlash(path) {
      var c := Buffer(stack, false);
      ReducePlain([], parts);
      BufferNoSlash(b);
      BufferNoSlash(c);
      PiecesOfJoin(Trail(b));
      PiecesOfJoin(Trail(c));
      RenderIsJoin(b);
      RenderIsJoin(c);
      DirtyTrail(b, c);
    }
  }

  lemma DirtyTrail(b: Buffer, c: Buffer)
    requires BufferOk(b) && b.parts != [] && (b.dangling || [] in b.parts)
    requires BufferOk(c) && !c.dangling && [] !in c.parts
    ensures Trail(b) != Trail(c)
  {
    if c.parts == [] {
      assert Trail(b)[0] == b.parts[0] && Trail(c)[0] == [];
    } else {
      assert [] in Trail(b) by {
        if b.dangling {
          assert Trail(b)[|b.parts|] == [];
        } else {
          assert Trail(b) == b.parts;
        }
      }
      assert Trail(c) == c.parts;
    }
  }

  lemma {:induction false} ReducePlain(stack: seq<Part>, parts: seq<Part>)
    requires forall i :: 0 <= i < |stack| ==> Plain(stack[i])
    requires forall i :: 0 <= i < |parts| ==> parts[i] != [] && NoSlash(parts[i])
    ensures forall i :: 0 <= i < |Reduce(stack, parts)| ==> Plain(Reduce(stack, parts)[i])
    decreases |parts|
  {
    if parts != [] {
      ReducePlain(Reduce1(stack, parts[0]), parts[1..]);
    }
  }

  // ---------------------------------------------------------------------
  // Normalising again
  // ---------------------------------------------------------------------

  /** The parts that are not empty. */
  function Full(parts: seq<Part>): (r: seq<Part>) {
    if parts == [] then [] else (if parts[0] == [] then [] else [parts[0]]) + Full(parts[1..])
  }

  lemma ComponentsStep(part: Part, rest: seq<byte>)
    requires part != [] && NoSlash(part) && (rest == [] || rest[0] == SLASH)
    ensures Components(part + rest) == [part] + Components(rest)
  {
    RunLengthOf(part, rest);
    assert part[0] in part;
    assert (part + rest)[..|part|] == part && (part + rest)[|part|..] == rest;
  }

  lemma ComponentsSlash(rest: seq<byte>)
    ensures Components([SLASH] + rest) == Components(rest)
  {
    assert ([SLASH] + rest)[1..] == rest;
  }

  lemma {:induction false} ComponentsOfJoin(parts: seq<Part>)
    requires forall i :: 0 <= i < |parts| ==> NoSlash(parts[i])
    ensures Components(Join(parts)) == Full(parts)
  {
    if parts != [] {
      var part, rest := parts[0], Join(parts[1..]);
      ComponentsOfJoin(parts[1..]);
      JoinHead(parts[1..]);
      assert [SLASH] + part + rest == [SLASH] + (part + rest);
      ComponentsSlash(part + rest);
      if part == [] {
        assert part + rest == rest;
      } else {
        ComponentsStep(part, rest);
      }
    }
  }

  lemma {:induction false} FullOnly(parts: seq<Part>)
    ensures [] !in Full(parts)
    ensures [] !in parts ==> Full(parts) == parts
    ensures forall i :: 0 <= i < |Full(parts)| ==> Full(parts)[i] in parts
  {
    if parts != [] {
      FullOnly(parts[1..]);
      assert parts == [parts[0]] + parts[1..];
    }
  }

  /** Plain components are taken as they are. */
  lemma {:induction false} RunPlain(b: Buffer, parts: seq<Part>)
    requires !b.dangling && forall i :: 0 <= i < |parts| ==> Plain(parts[i])
    ensures Run(b, parts) == Buffer(b.parts + parts, false)
    decreases |parts|
  {
    if parts == [] {
      assert b.parts + parts == b.parts;
    } else {
      RunPlain(Push(b, parts[0]), parts[1..]);
      assert b.parts + [parts[0]] + parts[1..] == b.parts + parts;
    }
  }

  /** Normalising a rendered buffer drops its empty parts and its dangling slash. */
  lemma NormalizeRendered(b: Buffer)
    requires BufferOk(b)
    ensures Normalize(Render(b)) == Some(Render(Buffer(Full(b.parts), false)))
    ensures BufferOk(Buffer(Full(b.parts), false)) && [] !in Full(b.parts)
  {
    RenderIsJoin(b);
    BufferNoSlash(b);
    ComponentsOfJoin(Trail(b));
    TrailFull(b);
    FullOnly(b.parts);
    assert forall i :: 0 <= i < |Full(b.parts)| ==> Full(b.parts)[i] in b.parts && Full(b.parts)[i] != [];
    RunPlain(ROOT, Full(b.parts));
    assert [] + Full(b.parts) == Full(b.parts);
  }

  lemma TrailFull(b: Buffer)
    ensures Full(Trail(b)) == Full(b.parts)
  {
    FullAppend(b.parts, if b.parts == [] || b.dangling then [[]] else []);
    assert Full([[]]) == [] + Full([]);
    if b.parts == [] {
      assert Trail(b) == b.parts + [[]];
    }
  }

  lemma {:induction false} FullAppend(a: seq<Part>, b: seq<Part>)
    ensures Full(a + b) == Full(a) + Full(b)
  {
    if a == [] {
      assert a + b == b;
    } else {
      assert (a + b)[1..] == a[1..] + b;
      FullAppend(a[1..], b);
    }
  }

  lemma RunFromRoot(path: seq<byte>)
    requires path != [] && path[0] == SLASH
    ensures BufferOk(Run(ROOT, Components(path)))
  {
    ComponentsPlain(path);
    RunOk(ROOT, Components(path));
  }

  /** A normalised path is a fixed point exactly when no `..` left its slash behind. */
  lemma FixedPointIff(path: seq<byte>)
    requires path != [] && path[0] == SLASH
    ensures Normalize(Normalize(path).value) == Normalize(path) <==> !LeavesSlash(path)
  {
    ComponentsPlain(path);
    InStepAll(ROOT, [], Gauge(0, false, false), Components(path));
    var b := Run(ROOT, Components(path));
    NormalizeRendered(b);
    var c := Buffer(Full(b.parts), false);
    if LeavesSlash(path) {
      BufferNoSlash(b);
      BufferNoSlash(c);
      PiecesOfJoin(Trail(b));
      PiecesOfJoin(Trail(c));
      RenderIsJoin(b);
      RenderIsJoin(c);
      DirtyTrail(b, c);
    } else {
      ReducePlain([], Components(path));
      FullOnly(b.parts);
    }
  }

  /** Normalising twice always reaches a fixed point. */
  lemma TwiceIsEnough(path: seq<byte>)
    requires path != [] && path[0] == SLASH
    ensures var twice := Normalize(Normalize(path).value).value;
            Normalize(twice) == Some(twice)
  {
    RunFromRoot(path);
    var b := Run(ROOT, Components(path));
    NormalizeRendered(b);
    var c := Buffer(Full(b.parts), false);
    NormalizeRendered(c);
    FullOnly(c.parts);
  }

  /** Every `..` is met at most one component deep. */
  predicate Shallow(depth: nat, parts: seq<Part>)
    decreases |parts|
  {
    if parts == [] then true
    else if parts[0] == HERE then Shallow(depth, parts[1..])
    else if parts[0] == UP then depth <= 1 && Shallow(0, parts[1..])
    else Shallow(depth + 1, parts[1..])
  }

  lemma {:induction false} ShallowGauge(depth: nat, parts: seq<Part>)
    requires Shallow(depth, parts)
    ensures !GaugeAll(Gauge(depth, false, false), parts).dirty
    decreases |parts|
  {
    if parts != [] {
      if parts[0] == HERE {
        ShallowGauge(depth, parts[1..]);
      } else if parts[0] == UP {
        ShallowGauge(0, parts[1..]);
      } else {
        ShallowGauge(depth + 1, parts[1..]);
      }
    }
  }

  /** Paths whose `..` are shallow normalise to their canonical form, which is a fixed point. */
  lemma ShallowNormalizes(path: seq<byte>)
    requires path != [] && path[0] == SLASH && Shallow(0, Components(path))
    ensures Normalize(path) == Some(Canonical(path)) && Normalize(Canonical(path)) == Some(Canonical(path))
  {
    ShallowGauge(0, Components(path));
    NormalizesIff(path);
    FixedPointIff(path);
  }

  lemma RunStep(b: Buffer, part: Part, rest: seq<Part>)
    ensures Run(b, [part] + rest) == Run(Take1(b, part), rest)
  {
    assert ([part] + rest)[1..] == rest;
  }

  /** A `..` after two components, then another component. */
  lemma DeepRun(a: Part, b: Part, c: Part)
    requires Plain(a) && Plain(b) && Plain(c)
    ensures Run(ROOT, [a, b, UP, c]) == Buffer([a, [], c], false)
  {
    RunStep(ROOT, a, [b, UP, c]);
    assert [a, b, UP, c] == [a] + [b, UP, c] && Take1(ROOT, a) == Buffer([a], false);
    RunStep(Buffer([a], false), b, [UP, c]);
    assert [b, UP, c] == [b] + [UP, c] && Take1(Buffer([a], false), b) == Buffer([a, b], false);
    RunStep(Buffer([a, b], false), UP, [c]);
    assert [UP, c] == [UP] + [c] && [a, b][..1] == [a];
    assert Take1(Buffer([a, b], false), UP) == Buffer([a], true);
    RunStep(Buffer([a], true), c, []);
    assert [c] == [c] + [] && Take1(Buffer([a], true), c) == Buffer([a, [], c], false);
  }

  lemma DeepReduce(a: Part, b: Part, c: Part)
    requires Plain(a) && Plain(b) && Plain(c)
    ensures Reduce([], [a, b, UP, c]) == [a, c]
  {
    assert [a, b, UP, c][1..] == [b, UP, c] && [b, UP, c][1..] == [UP, c] && [UP, c][1..] == [c];
    assert Reduce1([], a) == [a] && Reduce1([a], b) == [a, b];
    assert Reduce([], [a, b, UP, c]) == Reduce([a], [b, UP, c]);
    assert Reduce([a], [b, UP, c]) == Reduce([a, b], [UP, c]);
    assert [a, b][..1] == [a];
    assert Reduce([a, b], [UP, c]) == Reduce([a], [c]);
    assert [c][1..] == [] && Reduce1([a], c) == [a, c];
    assert Reduce([a], [c]) == Reduce([a, c], []);
  }

  lemma RenderPlain(parts: seq<Part>)
    requires parts != []
    ensures Render(Buffer(parts, false)) == Join(parts)
  {
    assert Join(parts) + [] == Join(parts);
  }

  lemma DeepComponents(a: Part, b: Part, c: Part)
    requires Plain(a) && Plain(b) && Plain(c)
    ensures Components(Join([a, b, UP, c])) == [a, b, UP, c]
  {
    var parts := [a, b, UP, c];
    ComponentsOfJoin(parts);
    FullOnly(parts);
  }

  lemma DeepDiffers(a: Part, c: Part)
    requires Plain(a) && Plain(c)
    ensures Join([a, [], c]) != Join([a, c])
  {
    PiecesOfJoin([a, [], c]);
    PiecesOfJoin([a, c]);
    assert |[a, [], c]| != |[a, c]|;
  }

  /** `/a/b/../c` becomes `/a//c`, whatever the three names, and that is not canonical. */
  lemma DeepDotDot(a: Part, b: Part, c: Part)
    requires Plain(a) && Plain(b) && Plain(c)
    ensures var path := Join([a, b, UP, c]);
            && path != [] && path[0] == SLASH
            && Normalize(path) == Some(Join([a, [], c]))
            && Canonical(path) == Join([a, c])
            && Normalize(path) != Some(Canonical(path))
  {
    var parts := [a, b, UP, c];
    JoinHead(parts);
    DeepComponents(a, b, c);
    DeepRun(a, b, c);
    DeepReduce(a, b, c);
    RenderPlain([a, [], c]);
    RenderPlain([a, c]);
    DeepDiffers(a, c);
  }
}
