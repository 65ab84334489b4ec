/**
 What names mean in the node table, said of the bytes of the names: which
 component of a directory a node shows, which directory a path is in, and what an
 open finds.
 */
module Names {
  import opened Base
  import opened Paths
  import opened Vfs

  /** What the names of everything below a directory start with. */
  function Prefix(dir: seq<byte>): (r: seq<byte>) { if |dir| == 1 then [SLASH] else dir + [SLASH] }

  /** The name is the directory's, then this component, then nothing or a slash. */
  ghost predicate IsChildName(name: seq<byte>, dir: seq<byte>, child: seq<byte>) {
    var p := Prefix(dir) + child;
    child != [] && NoSlash(child) && p <= name && (|name| == |p| || name[|p|] == SLASH)
  }

  /** A node is below a directory when its name goes on after the prefix, or,
      for other directories than the root, at least reaches it. */
  lemma MatchesIff(name: seq<byte>, dir: seq<byte>)
    ensures Matches(name, dir) <==> Prefix(dir) <= name && (|dir| == 1 ==> |name| > 1)
  {
    if Prefix(dir) <= name && |dir| != 1 {
      assert name[..|dir|] == Prefix(dir)[..|dir|] == dir;
    }
  }

  /** The run at the front is the part before the first slash. */
  lemma FrontIff(rest: seq<byte>, part: seq<byte>)
    ensures rest[..RunLength(rest)] == part <==>
              NoSlash(part) && part <= rest && (|rest| == |part| || rest[|part|] == SLASH)
  {
    var n := RunLength(rest);
    if NoSlash(part) && part <= rest && (|rest| == |part| || rest[|part|] == SLASH) {
      assert forall i :: 0 <= i < |part| ==> rest[i] == part[i] && part[i] in part;
    }
  }

  lemma PrefixSplits(p: seq<byte>, q: seq<byte>, name: seq<byte>)
    ensures p + q <= name ==> p <= name
    ensures p <= name ==> (p + q <= name <==> q <= name[|p|..])
  {
    if p + q <= name {
      assert p == (p + q)[..|p|] == name[..|p|];
      assert q == (p + q)[|p|..] == name[|p|..|p| + |q|];
    }
    if p <= name && q <= name[|p|..] {
      assert name[..|p| + |q|] == p + q;
    }
  }

  lemma ChildIsFront(name: seq<byte>, dir: seq<byte>)
    ensures Matches(name, dir) ==>
              |Prefix(dir)| <= |name| && var rest := name[|Prefix(dir)|..]; Child(name, dir) == rest[..RunLength(rest)]
    ensures !Matches(name, dir) ==> Child(name, dir) == []
  {
  }

  /** The child component of a node is exactly that. */
  lemma ChildIff(name: seq<byte>, dir: seq<byte>, child: seq<byte>)
    requires child != []
    ensures Child(name, dir) == child <==> IsChildName(name, dir, child)
  {
    var p := Prefix(dir);
    MatchesIff(name, dir);
    PrefixSplits(p, child, name);
    ChildIsFront(name, dir);
    if p <= name {
      FrontIff(name[|p|..], child);
    }
  }

  /** `r` is the component the name shows in the directory, empty if it shows none. */
  ghost predicate ShowsAs(name: seq<byte>, dir: seq<byte>, r: seq<byte>) {
    forall c :: IsChildName(name, dir, c) <==> r == c != []
  }

  lemma ChildShows(name: seq<byte>, dir: seq<byte>)
    ensures ShowsAs(name, dir, Child(name, dir))
  {
    forall c
      ensures IsChildName(name, dir, c) <==> Child(name, dir) == c != []
    {
      if c != [] {
        ChildIff(name, dir, c);
      }
    }
  }

  /** The components of a path show in the directories above them. */
  lemma ChildOfJoin(parts: seq<Part>, part: Part, more: seq<Part>)
    requires [] !in parts && part != [] && NoSlash(part)
    ensures Child(Join(parts + [part] + more), Render(Buffer(parts, false))) == part
  {
    var dir, name := Render(Buffer(parts, false)), Join(parts + [part] + more);
    JoinAppend(parts + [part], more);
    JoinOne(parts, part);
    JoinHead(more);
    assert parts != [] ==> |dir| > 1 by {
      if parts != [] {
        assert parts[0] in parts;
        assert dir == [SLASH] + parts[0] + Join(parts[1..]) + [];
      }
    }
    assert Prefix(dir) + part == Join(parts) + [SLASH] + part;
    assert name == Prefix(dir) + part + Join(more);
    ChildIff(name, dir, part);
  }

  lemma {:induction false} LastSlashIs(path: seq<byte>, i: nat, at: nat)
    requires at <= i < |path| && (at == 0 || path[at] == SLASH) && forall k :: at < k <= i ==> path[k] != SLASH
    ensures LastSlash(path, i) == at
    decreases i
  {
    if i > at {
      LastSlashIs(path, i - 1, at);
    }
  }

  /** A path's parent is what stands before its last slash, or the root. */
  lemma ParentIs(head: seq<byte>, part: seq<byte>)
    requires NoSlash(part) && |head + part| > 0
    ensures Parent(head + [SLASH] + part) == Some(if head == [] then [SLASH] else head)
  {
    var path := head + [SLASH] + part;
    LastSlashIs(path, |path| - 1, |head|);
    assert path[..|head|] == head;
  }

  /** Every absolute path has a last slash. */
  lemma {:induction false} SplitPath(path: seq<byte>, n: nat) returns (head: seq<byte>, part: seq<byte>)
    requires n < |path| && path[0] == SLASH && NoSlash(path[n + 1..])
    ensures path == head + [SLASH] + part && NoSlash(part)
    decreases n
  {
    if path[n] != SLASH {
      assert path[n..] == [path[n]] + path[n + 1..];
      head, part := SplitPath(path, n - 1);
    } else {
      head, part := path[..n], path[n + 1..];
    }
  }

  // ---------------------------------------------------------------------
  // What an open finds
  // ---------------------------------------------------------------------

  /** Node k is the first of that name. */
  ghost predicate FirstNamed(metas: seq<Meta>, name: seq<byte>, k: nat) {
    k < |metas| && metas[k].name == name && forall j :: 0 <= j < k ==> metas[j].name != name
  }

  lemma LookupIs(metas: seq<Meta>, name: seq<byte>, k: nat)
    requires FirstNamed(metas, name, k)
    ensures Lookup(metas, name) == Some(k)
  {
  }

  lemma NormalizedStarts(path: seq<byte>)
    requires Normalize(path).Some?
    ensures var p := Normalize(path).value;
            p != [] && p[0] == SLASH && (|p| == 1 ==> p == [SLASH])
  {
    JoinHead(Run(ROOT, Components(path)).parts);
  }

  /** The path's last slash stands between these. */
  ghost predicate SplitsInto(path: seq<byte>, head: seq<byte>, part: seq<byte>) {
    path == head + [SLASH] + part && NoSlash(part)
  }

  /** The first node of the name is a writable directory; no name is the root. */
  ghost predicate WritableDirectory(metas: seq<Meta>, name: seq<byte>) {
    exists k: nat :: FirstNamed(metas, if name == [] then [SLASH] else name, k)
                     && metas[k].directory && metas[k].writable
  }

  /** A file may be created there. */
  ghost predicate InWritableDirectory(metas: seq<Meta>, path: seq<byte>) {
    exists head, part :: SplitsInto(path, head, part) && WritableDirectory(metas, head)
  }

  lemma MayCreateAt(metas: seq<Meta>, head: seq<byte>, part: seq<byte>)
    requires NoSlash(part) && |head + part| > 0
    ensures MayCreate(metas, head + [SLASH] + part) <==> WritableDirectory(metas, head)
  {
    ParentIs(head, part);
    var dir := if head == [] then [SLASH] else head;
    if Lookup(metas, dir).Some? {
      assert FirstNamed(metas, dir, Lookup(metas, dir).value);
    }
    if WritableDirectory(metas, head) {
      var k: nat :| FirstNamed(metas, dir, k) && metas[k].directory && metas[k].writable;
      LookupIs(metas, dir, k);
    }
  }

  lemma MayCreateIff(metas: seq<Meta>, path: seq<byte>)
    requires |path| > 1 && path[0] == SLASH
    ensures MayCreate(metas, path) <==> InWritableDirectory(metas, path)
  {
    var head, part := SplitPath(path, |path| - 1);
    MayCreateAt(metas, head, part);
    if MayCreate(metas, path) {
      assert SplitsInto(path, head, part);
    }
    if InWritableDirectory(metas, path) {
      var head', part' :| SplitsInto(path, head', part') && WritableDirectory(metas, head');
      MayCreateAt(metas, head', part');
    }
  }

  /** Some node's name goes on after the path and a slash. */
  ghost predicate Implied(metas: seq<Meta>, path: seq<byte>) {
    exists k :: 0 <= k < |metas| && path + [SLASH] <= metas[k].name
  }

  lemma ImpliedIff(metas: seq<Meta>, path: seq<byte>)
    requires |path| > 1 && forall k :: 0 <= k < |metas| ==> metas[k].name != path
    ensures DirectoryExists(metas, path) <==> Implied(metas, path)
  {
    forall k | 0 <= k < |metas|
      ensures Matches(metas[k].name, path) <==> path + [SLASH] <= metas[k].name
    {
      MatchesIff(metas[k].name, path);
    }
  }

  /** What an open designates, by the node table alone: nothing for bad flags or
      a relative path; the root; the first node of the name, truncated if bit 1
      asks for it and it is writable; a new file if bit 0 asks for one in a
      writable directory node; else a directory some node's name runs through. */
  ghost predicate Designates(metas: seq<Meta>, path: seq<byte>, flags: int, t: Target) {
    if !(0 <= flags <= 3) || path == [] || path[0] != SLASH then t == Nothing
    else
      var p := Normalize(path).value;
      if p == [SLASH] then t == TheDirectory(p)
      else if forall k :: 0 <= k < |metas| ==> metas[k].name != p then
        if flags % 2 == 1 && InWritableDirectory(metas, p) then t == NewFile(p)
        else if Implied(metas, p) then t == TheDirectory(p) else t == Nothing
      else
        exists k: nat :: FirstNamed(metas, p, k)
          && t == if metas[k].directory then TheDirectory(p) else TheFile(k, flags >= 2 && metas[k].writable)
  }

  lemma OpenDesignates(metas: seq<Meta>, path: seq<byte>, flags: int)
    ensures Designates(metas, path, flags, OpenTarget(metas, path, flags))
  {
    if 0 <= flags <= 3 && path != [] && path[0] == SLASH {
      var p := Normalize(path).value;
      NormalizedStarts(path);
      if p != [SLASH] {
        if Lookup(metas, p).None? {
          MayCreateIff(metas, p);
          ImpliedIff(metas, p);
        } else {
          assert FirstNamed(metas, p, Lookup(metas, p).value);
        }
      }
    }
  }
}
