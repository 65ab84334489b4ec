/**
 vfs_normalize_path as the kernel runs it: one pass over the path, writing in
 place into a buffer of path_len + 2 bytes.
 */
module Normalizer {
  import opened Base
  import opened Paths

  /** The first position at or after `from` that does not hold a slash. */
  method SkipSlashes(path: seq<byte>, from: nat) returns (i: nat)
    requires from <= |path|
    ensures from <= i <= |path|
    ensures i < |path| ==> path[i] != SLASH
    ensures Components(path[i..]) == Components(path[from..])
    ensures from < |path| && path[from] == SLASH ==> i > from
  {
    i := from;
    while i < |path| && path[i] == SLASH
      invariant from <= i <= |path|
      invariant Components(path[i..]) == Components(path[from..])
      invariant from < |path| && path[from] == SLASH && i == from ==> path[i] == SLASH
    {
      assert path[i..][1..] == path[i + 1..];
      i := i + 1;
    }
  }

  /** The end of the component that starts at `from`. */
  method ComponentEnd(path: seq<byte>, from: nat) returns (i: nat)
    requires from < |path| && path[from] != SLASH
    ensures from < i <= |path|
    ensures i < |path| ==> path[i] == SLASH
    ensures NoSlash(path[from..i])
    ensures Components(path[from..]) == [path[from..i]] + Components(path[i..])
  {
    i := from;
    while i < |path| && path[i] != SLASH
      invariant from <= i <= |path|
      invariant forall k :: from <= k < i ==> path[k] != SLASH
    {
      i := i + 1;
    }
    assert path[from..] == path[from..i] + path[i..];
    ComponentsStep(path[from..i], path[i..]);
  }

  lemma PoppedBytes(b: Buffer, out: seq<byte>)
    requires BufferOk(b) && b.parts != [] && out == Render(b)
    ensures var n := |Render(Pop(b))|;
            && 0 < n < |out| && out[..n] == Render(Pop(b)) && out[n - 1] == SLASH
            && forall k :: n <= k < |out| - 1 ==> out[k] != SLASH
  {
    var m := |b.parts| - 1;
    var rest, last := b.parts[..m], b.parts[m];
    assert b.parts == rest + [last];
    JoinOne(rest, last);
    assert b.dangling || last != [];
    assert NoSlash(last);
    assert Join([]) == [];
  }

  /** The buffer after `..`: shorter by one byte, and on down to the next slash. */
  method StepBack(out: array<byte>, len: nat, ghost b: Buffer) returns (n: nat)
    requires BufferOk(b) && len <= out.Length && out[..len] == Render(b)
    ensures 0 < n <= len && out[..n] == Render(Pop(b))
  {
    n := len;
    if n > 1 {
      ghost var popped := |Render(Pop(b))|;
      PoppedBytes(b, out[..len]);
      assert forall k :: 0 <= k < len ==> out[..len][k] == out[k];
      n := n - 1;
      while n > 1 && out[n - 1] != SLASH
        invariant popped <= n < len
      {
        n := n - 1;
      }
      assert out[..popped] == out[..len][..popped];
    }
  }

  lemma RootIsShort(b: Buffer)
    requires BufferOk(b)
    ensures |Render(b)| >= 1
    ensures |Render(b)| == 1 <==> b.parts == []
  {
    if b.parts != [] {
      assert Join(b.parts) == [SLASH] + b.parts[0] + Join(b.parts[1..]);
    }
  }

  lemma JoinDangling(parts: seq<Part>, part: Part)
    ensures Join(parts + [[], part]) == Join(parts) + [SLASH] + [SLASH] + part
  {
    JoinOne(parts, []);
    JoinOne(parts + [[]], part);
    assert parts + [[]] + [part] == parts + [[], part];
    assert Join(parts) + [SLASH] + [] == Join(parts) + [SLASH];
  }

  lemma PushedBytes(b: Buffer, part: Part)
    requires BufferOk(b)
    ensures Render(Push(b, part)) == (if |Render(b)| > 1 then Render(b) + [SLASH] else Render(b)) + part
  {
    RootIsShort(b);
    RenderPlain(Push(b, part).parts);
    if b.dangling {
      JoinDangling(b.parts, part);
    } else {
      JoinOne(b.parts, part);
      if b.parts != [] {
        RenderPlain(b.parts);
      } else {
        assert Join([]) + [SLASH] == [SLASH];
      }
    }
  }

  /** The buffer after an ordinary component: a slash, unless it is the root, and the bytes. */
  method Append(out: array<byte>, len: nat, path: seq<byte>, start: nat, end: nat, ghost b: Buffer) returns (n: nat)
    requires BufferOk(b) && len <= out.Length && out[..len] == Render(b)
    requires start <= end <= |path| && len + 1 + end - start <= out.Length + (if len > 1 then 0 else 1)
    modifies out
    ensures n == len + (if len > 1 then 1 else 0) + end - start
    ensures out[..n] == Render(Push(b, path[start..end]))
  {
    PushedBytes(b, path[start..end]);
    n := len;
    if n > 1 {
      out[n] := SLASH;
      n := n + 1;
    }
    ghost var front := out[..n];
    var i := 0;
    while i < end - start
      invariant 0 <= i <= end - start && n == |front| + i
      invariant out[..n] == front + path[start..start + i]
    {
      out[n] := path[start + i];
      n := n + 1;
      i := i + 1;
    }
  }

  /** What one component does to the buffer. */
  method TakeComponent(out: array<byte>, len: nat, path: seq<byte>, start: nat, end: nat, ghost b: Buffer)
      returns (n: nat)
    requires BufferOk(b) && len <= out.Length && out[..len] == Render(b)
    requires start < end <= |path| && len + 1 + end - start <= out.Length + (if len > 1 then 0 else 1)
    modifies out
    ensures 0 < n <= len + (if len > 1 then 1 else 0) + end - start
    ensures n <= out.Length && out[..n] == Render(Take1(b, path[start..end]))
  {
    n := len;
    RootIsShort(b);
    if end - start == 1 && path[start] == DOT {
      assert path[start..end] == HERE;
    } else if end - start == 2 && path[start] == DOT && path[start + 1] == DOT {
      assert path[start..end] == UP;
      n := StepBack(out, len, b);
    } else {
      assert path[start..end][0] == path[start];
      assert end - start > 1 ==> path[start..end][1] == path[start + 1];
      n := Append(out, len, path, start, end, b);
    }
  }

  /** With `src` bytes read the buffer is `b`, and the rest of the path leads to the result. */
  ghost predicate Reading(path: seq<byte>, src: nat, b: Buffer) {
    src <= |path| && BufferOk(b) && Run(b, Components(path[src..])) == Run(ROOT, Components(path))
  }

  lemma ReadingStarts(path: seq<byte>)
    requires path != [] && path[0] == SLASH
    ensures Reading(path, 1, ROOT)
  {
    assert path == [SLASH] + path[1..];
    ComponentsSlash(path[1..]);
  }

  lemma ReadingGoesOn(path: seq<byte>, src: nat, start: nat, end: nat, b: Buffer)
    requires Reading(path, src, b) && start < end <= |path| && NoSlash(path[start..end])
    requires Components(path[src..]) == [path[start..end]] + Components(path[end..])
    ensures Reading(path, end, Take1(b, path[start..end]))
  {
    RunStep(b, path[start..end], Components(path[end..]));
    Take1Ok(b, path[start..end]);
  }

  lemma ReadingEnds(path: seq<byte>, src: nat, b: Buffer)
    requires path != [] && path[0] == SLASH && Reading(path, src, b) && Components(path[src..]) == []
    ensures Normalize(path) == Some(Render(b))
  {
  }

  /** One turn of the loop: the component that starts at `start`, after the slashes from `src` on. */
  method TakeNext(path: seq<byte>, src: nat, start: nat, out: array<byte>, len: nat, ghost b: Buffer)
      returns (end: nat, n: nat, ghost b': Buffer)
    requires src <= start < |path| && path[start] != SLASH && Components(path[start..]) == Components(path[src..])
    requires 1 <= len <= src && out.Length == |path| + 2 && (src > 1 ==> start > src)
    requires Reading(path, src, b) && out[..len] == Render(b)
    modifies out
    ensures start < end <= |path| && (end == |path| || path[end] == SLASH)
    ensures 1 <= n <= end && Reading(path, end, b') && out[..n] == Render(b')
  {
    end := ComponentEnd(path, start);
    n := TakeComponent(out, len, path, start, end, b);
    ReadingGoesOn(path, src, start, end, b);
    b' := Take1(b, path[start..end]);
  }

  /**
   The whole pass. A path that is empty or does not start with a slash is
   refused; otherwise the buffer holds the normalised path and a final NUL, all
   within path_len + 2 bytes, because the output never gets ahead of the input.
   */
  method NormalizePath(path: seq<byte>) returns (r: Option<array<byte>>, outLen: nat)
    ensures r.None? <==> Normalize(path).None?
    ensures r.Some? ==>
              && r.value.Length == |path| + 2 && outLen <= |path|
              && Normalize(path) == Some(r.value[..outLen]) && r.value[outLen] == 0
  {
    outLen := 0;
    if path == [] || path[0] != SLASH {
      return None, 0;
    }
    var out := new byte[|path| + 2];
    out[0] := SLASH;
    outLen := 1;
    var src := 1;
    ghost var b := ROOT;
    ReadingStarts(path);
    while src < |path|
      invariant 1 <= outLen <= src <= |path|
      invariant src == 1 || src == |path| || path[src] == SLASH
      invariant Reading(path, src, b) && out[..outLen] == Render(b)
    {
      var start := SkipSlashes(path, src);
      if start >= |path| {
        break;
      }
      src, outLen, b := TakeNext(path, src, start, out, outLen, b);
    }
    ReadingEnds(path, src, b);
    out[outLen] := 0;
    return Some(out), outLen;
  }
}
