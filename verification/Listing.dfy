/**
 Directory listings: a directory is nothing but the names in the node table, and
 repeated readdir calls return each child once, whatever is created in between.
 */
module Listing {
  import opened Base
  import opened Initramfs
  import opened Vfs
  import opened Names
  import opened VfsRuns

  /** The distinct child components of the first n nodes, in order. */
  function Listed(metas: seq<Meta>, dir: seq<byte>, n: nat): (r: seq<seq<byte>>)
    requires n <= |metas|
  {
    if n == 0 then []
    else Listed(metas, dir, n - 1) + if Shows(metas, dir, n - 1) then [Child(metas[n - 1].name, dir)] else []
  }

  lemma InAppended(s: seq<seq<byte>>, last: seq<byte>, name: seq<byte>)
    ensures name in s + [last] <==> name in s || name == last
  {
  }

  lemma NoDupAppended(s: seq<seq<byte>>, last: seq<byte>)
    requires NoDup(s) && last !in s
    ensures NoDup(s + [last])
  {
  }

  /** One of the first n nodes has this component. */
  ghost predicate Occurs(metas: seq<Meta>, dir: seq<byte>, n: nat, name: seq<byte>)
    requires n <= |metas|
  {
    exists k :: 0 <= k < n && Child(metas[k].name, dir) == name
  }

  lemma OccursMore(metas: seq<Meta>, dir: seq<byte>, n: nat, name: seq<byte>)
    requires 0 < n <= |metas|
    ensures Occurs(metas, dir, n, name) <==> Occurs(metas, dir, n - 1, name) || Child(metas[n - 1].name, dir) == name
  {
  }

  lemma SeenIfOccurs(metas: seq<Meta>, dir: seq<byte>, n: nat, name: seq<byte>)
    requires n <= |metas|
    ensures SeenBefore(metas, dir, n, name) <==> name != [] && Occurs(metas, dir, n, name)
  {
  }

  lemma {:induction false} ListedOccurs(metas: seq<Meta>, dir: seq<byte>, n: nat, name: seq<byte>)
    requires n <= |metas|
    ensures name in Listed(metas, dir, n) <==> name != [] && Occurs(metas, dir, n, name)
  {
    if n > 0 {
      var last := Child(metas[n - 1].name, dir);
      ListedOccurs(metas, dir, n - 1, name);
      OccursMore(metas, dir, n, name);
      ListedNext(metas, dir, n - 1);
      InAppended(Listed(metas, dir, n - 1), last, name);
    }
  }

  /** One of the first n nodes has a name that goes on with this one below the directory. */
  ghost predicate ChildNamed(metas: seq<Meta>, dir: seq<byte>, n: nat, name: seq<byte>)
    requires n <= |metas|
  {
    exists k :: 0 <= k < n && IsChildName(metas[k].name, dir, name)
  }

  lemma ChildNamedIff(metas: seq<Meta>, dir: seq<byte>, n: nat, name: seq<byte>)
    requires n <= |metas|
    ensures ChildNamed(metas, dir, n, name) <==> name != [] && Occurs(metas, dir, n, name)
  {
    if name != [] {
      forall k | 0 <= k < n
        ensures Child(metas[k].name, dir) == name <==> IsChildName(metas[k].name, dir, name)
      {
        ChildIff(metas[k].name, dir, name);
      }
    }
  }

  /** A name is listed exactly when the name of one of the nodes is the
      directory's, then this name, then nothing or a slash. */
  lemma ListedExactly(metas: seq<Meta>, dir: seq<byte>, n: nat, name: seq<byte>)
    requires n <= |metas|
    ensures name in Listed(metas, dir, n) <==> ChildNamed(metas, dir, n, name)
  {
    ListedOccurs(metas, dir, n, name);
    ChildNamedIff(metas, dir, n, name);
  }

  /** The next node's component is listed if it is one and is new. */
  lemma ListedNext(metas: seq<Meta>, dir: seq<byte>, i: nat)
    requires i < |metas|
    ensures var last := Child(metas[i].name, dir);
            Listed(metas, dir, i + 1)
            == if last != [] && !Occurs(metas, dir, i, last) then Listed(metas, dir, i) + [last]
               else Listed(metas, dir, i)
  {
    SeenIfOccurs(metas, dir, i, Child(metas[i].name, dir));
    assert Listed(metas, dir, i) + [] == Listed(metas, dir, i);
  }

  /** No name is listed twice. */
  lemma {:induction false} ListedOnce(metas: seq<Meta>, dir: seq<byte>, n: nat)
    requires n <= |metas|
    ensures NoDup(Listed(metas, dir, n))
  {
    if n > 0 {
      var last := Child(metas[n - 1].name, dir);
      ListedOnce(metas, dir, n - 1);
      if Shows(metas, dir, n - 1) {
        ListedOccurs(metas, dir, n - 1, last);
        assert !Occurs(metas, dir, n - 1, last);
        NoDupAppended(Listed(metas, dir, n - 1), last);
      } else {
        assert Listed(metas, dir, n) == Listed(metas, dir, n - 1);
      }
    }
  }

  /** The child count that stat reports is the number of names. */
  lemma {:induction false} ListedCount(metas: seq<Meta>, dir: seq<byte>, n: nat)
    requires n <= |metas|
    ensures |Listed(metas, dir, n)| == ChildCount(metas, dir, n)
  {
    if n > 0 {
      ListedCount(metas, dir, n - 1);
    }
  }

  /** The second table has the nodes of the first, perhaps more. */
  ghost predicate SameNames(metas: seq<Meta>, more: seq<Meta>) {
    |metas| <= |more| && forall k :: 0 <= k < |metas| ==> more[k].name == metas[k].name
  }

  lemma ShowsKept(metas: seq<Meta>, more: seq<Meta>, dir: seq<byte>, i: nat)
    requires SameNames(metas, more) && i < |metas|
    ensures Shows(more, dir, i) == Shows(metas, dir, i)
  {
    var child := Child(metas[i].name, dir);
    assert forall k :: 0 <= k < i ==> Child(more[k].name, dir) == Child(metas[k].name, dir);
    assert SeenBefore(more, dir, i, child) == SeenBefore(metas, dir, i, child);
  }

  lemma {:induction false} ListedKept(metas: seq<Meta>, more: seq<Meta>, dir: seq<byte>, n: nat)
    requires SameNames(metas, more) && n <= |metas|
    ensures Listed(more, dir, n) == Listed(metas, dir, n)
  {
    if n > 0 {
      ListedKept(metas, more, dir, n - 1);
      ShowsKept(metas, more, dir, n - 1);
    }
  }

  /** Nodes that do not show add nothing. */
  lemma {:induction false} ListedSkips(metas: seq<Meta>, dir: seq<byte>, i: nat, j: nat)
    requires i <= j <= |metas| && forall k :: i <= k < j ==> !Shows(metas, dir, k)
    ensures Listed(metas, dir, j) == Listed(metas, dir, i)
  {
    if i < j {
      ListedSkips(metas, dir, i, j - 1);
    }
  }

  lemma {:induction false} ShownIsNext(metas: seq<Meta>, dir: seq<byte>, i: nat)
    requires i <= |metas|
    ensures NextShown(metas, dir, i) < |metas| ==> Shows(metas, dir, NextShown(metas, dir, i))
    ensures forall k :: i <= k < NextShown(metas, dir, i) ==> !Shows(metas, dir, k)
    decreases |metas| - i
  {
    if i < |metas| && !Shows(metas, dir, i) {
      ShownIsNext(metas, dir, i + 1);
    }
  }

  /** One readdir from offset: either the next name, or nothing because all are listed. */
  lemma NextListed(metas: seq<Meta>, dir: seq<byte>, offset: nat)
    requires offset <= |metas|
    ensures var i := NextShown(metas, dir, offset);
            if i < |metas| then Child(metas[i].name, dir) != []
                && Listed(metas, dir, i + 1) == Listed(metas, dir, offset) + [Child(metas[i].name, dir)]
            else Listed(metas, dir, offset) == Listed(metas, dir, |metas|)
  {
    var i := NextShown(metas, dir, offset);
    ShownIsNext(metas, dir, offset);
    ListedSkips(metas, dir, offset, i);
  }

  // ---------------------------------------------------------------------
  // Listings in runs
  // ---------------------------------------------------------------------

  ghost predicate OnDir(s: Vfs, d: int, dir: seq<byte>) {
    1 <= d <= |s.descs| && s.descs[d - 1].OnDirectory? && s.descs[d - 1].path == dir
  }

  /** The step reads the directory through d. */
  predicate Reads(step: Step, d: int) { step.ReadDirStep? && step.d == d && step.length >= 0 }

  lemma AllocKeeps(descs: seq<Desc>, what: Desc, k: nat)
    requires k < |descs| && !descs[k].Closed?
    ensures |AllocDesc(descs, what).0| == |descs| && AllocDesc(descs, what).0[k] == descs[k]
  {
  }

  lemma OpenKeepsDesc(s: Vfs, path: seq<byte>, flags: int, k: nat)
    requires k < |s.descs| && !s.descs[k].Closed? && Open(s, path, flags).Ok?
    ensures var s' := Open(s, path, flags).value.0;
            |s'.descs| == |s.descs| && s'.descs[k] == s.descs[k]
  {
    match OpenTarget(Metas(s.nodes), path, flags)
    case Nothing =>
    case TheDirectory(p) => AllocKeeps(s.descs, OnDirectory(p, 0), k);
    case TheFile(id, truncate) => AllocKeeps(s.descs, OnFile(id, 0), k);
    case NewFile(p) => AllocKeeps(s.descs, OnFile(|s.nodes|, 0), k);
  }

  lemma WriteKeepsDesc(s: Vfs, step: Step, k: nat)
    requires NodesOk(s) && step.WriteStep? && k < |s.descs| && s.descs[k].OnDirectory?
    ensures var s' := Write(s, step.d, step.data, step.junk).0;
            |s'.descs| == |s.descs| && s'.descs[k] == s.descs[k]
  {
  }

  lemma ReadKeepsDesc(s: Vfs, step: Step, k: nat)
    requires NodesOk(s) && step.ReadStep? && k < |s.descs| && s.descs[k].OnDirectory?
    ensures var s' := Read(s, step.d, step.length, step.typed).0;
            |s'.descs| == |s.descs| && s'.descs[k] == s.descs[k]
  {
  }

  lemma ReadDirMoves(s: Vfs, step: Step, d: int, dir: seq<byte>)
    requires step.ReadDirStep? && OnDir(s, d, dir)
    ensures var s' := ReadDir(s, step.d, step.length).0;
            var i := NextShown(Metas(s.nodes), dir, s.descs[d - 1].offset);
            && |s'.descs| == |s.descs|
            && s'.descs[d - 1] == if Reads(step, d) && i < |s.nodes| then OnDirectory(dir, i + 1) else s.descs[d - 1]
  {
  }

  /** Where the offset goes. */
  lemma OffsetStep(s: Vfs, step: Step, d: int, dir: seq<byte>)
    requires NodesOk(s) && Next(s, step).Ok? && OnDir(s, d, dir) && OnDir(Next(s, step).value, d, dir)
    ensures var metas, offset := Metas(s.nodes), s.descs[d - 1].offset;
            var shown := NextShown(metas, dir, offset);
            Next(s, step).value.descs[d - 1].offset == if Reads(step, d) && shown < |metas| then shown + 1 else offset
  {
    match step
    case OpenStep(path, flags) => OpenKeepsDesc(s, path, flags, d - 1);
    case CloseStep(_) =>
    case WriteStep(_, _, _) => WriteKeepsDesc(s, step, d - 1);
    case ReadStep(_, _, _) => ReadKeepsDesc(s, step, d - 1);
    case ReadDirStep(_, _) => ReadDirMoves(s, step, d, dir);
    case ConsoleStep(input) => AllocKeeps(s.descs, if input then ConsoleIn else ConsoleOut, d - 1);
  }

  /** The name a reading step returns; empty when there is none. */
  function Returned(s: Vfs, step: Step): (r: seq<byte>) {
    if step.ReadDirStep? then match ReadDir(s, step.d, step.length).1 case None => [] case Some(name) => name
    else []
  }

  /** The buffer of a reading step holds the name it is about to get. */
  predicate Room(s: Vfs, step: Step, d: int, dir: seq<byte>)
    requires OnDir(s, d, dir)
  {
    var metas := Metas(s.nodes);
    var i := NextShown(metas, dir, s.descs[d - 1].offset);
    Reads(step, d) && i < |metas| ==> |Child(metas[i].name, dir)| <= step.length
  }

  /** The names the first n steps returned through d. */
  function Log(states: seq<Vfs>, steps: seq<Step>, d: int, n: nat): (r: seq<seq<byte>>)
    requires n <= |steps| && |states| == |steps| + 1
  {
    if n == 0 then []
    else
      var name := if Reads(steps[n - 1], d) then Returned(states[n - 1], steps[n - 1]) else [];
      Log(states, steps, d, n - 1) + if name == [] then [] else [name]
  }

  lemma ReturnedName(s: Vfs, step: Step, d: int, dir: seq<byte>)
    requires OnDir(s, d, dir) && Room(s, step, d, dir) && Reads(step, d)
    ensures var metas := Metas(s.nodes);
            var i := NextShown(metas, dir, s.descs[d - 1].offset);
            Returned(s, step) == if i < |metas| then Child(metas[i].name, dir) else []
  {
    var metas := Metas(s.nodes);
    var i := NextShown(metas, dir, s.descs[d - 1].offset);
    if i < |metas| {
      TakeAll(Child(metas[i].name, dir));
    }
  }

  /** The log and the offset in one state. */
  ghost predicate InStep(s: Vfs, d: int, dir: seq<byte>, log: seq<seq<byte>>) {
    && OnDir(s, d, dir) && s.descs[d - 1].offset <= |s.nodes|
    && log == Listed(Metas(s.nodes), dir, s.descs[d - 1].offset)
  }

  lemma LogStep(s: Vfs, step: Step, d: int, dir: seq<byte>, log: seq<seq<byte>>)
    requires NodesOk(s) && SpentOk(s) && Next(s, step).Ok? && InStep(s, d, dir, log)
    requires OnDir(Next(s, step).value, d, dir) && Room(s, step, d, dir)
    ensures var name := if Reads(step, d) then Returned(s, step) else [];
            InStep(Next(s, step).value, d, dir, log + if name == [] then [] else [name])
  {
    var s' := Next(s, step).value;
    var metas, metas', offset := Metas(s.nodes), Metas(s'.nodes), s.descs[d - 1].offset;
    StepKeeps(s, step);
    ExtendsNames(s, s');
    OffsetStep(s, step, d, dir);
    NextListed(metas, dir, offset);
    ListedKept(metas, metas', dir, s'.descs[d - 1].offset);
    if Reads(step, d) {
      ReturnedName(s, step, d, dir);
    }
    assert log + [] == log;
  }

  lemma ExtendsNames(s: Vfs, s': Vfs)
    requires Extends(s, s')
    ensures SameNames(Metas(s.nodes), Metas(s'.nodes))
  {
    forall k | 0 <= k < |s.nodes|
      ensures Metas(s'.nodes)[k].name == Metas(s.nodes)[k].name
    {
      assert MetaOf(s'.nodes[k]) == MetaOf(s.nodes[k]);
    }
  }

  /** In every run that reads a directory through d from offset 0, with whatever
      other steps in between: what was returned so far is exactly the distinct
      components of the nodes below the offset, each once. */
  lemma {:induction false} RunLists(states: seq<Vfs>, steps: seq<Step>, d: int, dir: seq<byte>, n: nat)
    requires IsRun(states, steps) && n <= |steps| && SpentOk(states[0])
    requires forall i :: 0 <= i <= n ==> OnDir(states[i], d, dir)
    requires DescAt(states[0], d) == OnDirectory(dir, 0)
    requires forall i :: 0 <= i < n ==> Room(states[i], steps[i], d, dir)
    ensures InStep(states[n], d, dir, Log(states, steps, d, n)) && NoDup(Log(states, steps, d, n))
  {
    if n > 0 {
      RunLists(states, steps, d, dir, n - 1);
      RunKeeps(states, steps, n - 1);
      RunStep(states, steps, n - 1);
      LogStep(states[n - 1], steps[n - 1], d, dir, Log(states, steps, d, n - 1));
    }
    ListedOnce(Metas(states[n].nodes), dir, states[n].descs[d - 1].offset);
  }

  lemma AllListed(s: Vfs, last: Step, d: int, dir: seq<byte>, log: seq<seq<byte>>)
    requires InStep(s, d, dir, log) && Reads(last, d) && Room(s, last, d, dir) && Returned(s, last) == []
    ensures log == Listed(Metas(s.nodes), dir, |s.nodes|)
  {
    ReturnedName(s, last, d, dir);
    NextListed(Metas(s.nodes), dir, s.descs[d - 1].offset);
  }

  /** When a call at the end of such a run returns nothing, the listing is
      complete: every child component of every node, each once, as many as stat counts. */
  lemma ListingComplete(states: seq<Vfs>, steps: seq<Step>, d: int, dir: seq<byte>, n: nat, last: Step, name: seq<byte>)
    requires IsRun(states, steps) && n <= |steps| && SpentOk(states[0])
    requires forall i :: 0 <= i <= n ==> OnDir(states[i], d, dir)
    requires DescAt(states[0], d) == OnDirectory(dir, 0)
    requires forall i :: 0 <= i < n ==> Room(states[i], steps[i], d, dir)
    requires Reads(last, d) && Room(states[n], last, d, dir) && Returned(states[n], last) == []
    ensures var metas, log := Metas(states[n].nodes), Log(states, steps, d, n);
            && (name in log <==> ChildNamed(metas, dir, |metas|, name))
            && |log| == ChildCount(metas, dir, |metas|)
  {
    var metas := Metas(states[n].nodes);
    RunLists(states, steps, d, dir, n);
    AllListed(states[n], last, d, dir, Log(states, steps, d, n));
    ListedExactly(metas, dir, |metas|, name);
    ListedCount(metas, dir, |metas|);
  }
}
