/**
 The physical page allocator on values: a list of frames never handed out and
 a stack of frames handed back.
 */
module Frames {
  import opened Base

  const PAGE: nat := 4096
  const RECYCLE_CAPACITY: nat := 2048
  const REGION_CAPACITY: nat := 64

  type Addr = nat

  datatype Pool = Pool(unused: seq<Addr>, recycled: seq<Addr>)
  {
    function Free(): (n: nat) { |unused| + |recycled| }
  }

  /** The frame on top of the recycle stack if there is one, else the next unused one. */
  function Top(p: Pool): (a: Addr)
    requires p.Free() > 0
  {
    if p.recycled != [] then p.recycled[|p.recycled| - 1] else p.unused[0]
  }

  function Rest(p: Pool): (r: Pool)
    requires p.Free() > 0
    ensures r.Free() == p.Free() - 1
  {
    if p.recycled != [] then p.(recycled := p.recycled[..|p.recycled| - 1])
    else p.(unused := p.unused[1..])
  }

  function Alloc(p: Pool): (r: Option<(Addr, Pool)>) {
    if p.Free() > 0 then Some((Top(p), Rest(p))) else None
  }

  function Release(p: Pool, a: Addr): (r: Outcome<Pool>) {
    if a == 0 || a % PAGE != 0 then Panic(BadFree)
    else if |p.recycled| >= RECYCLE_CAPACITY then Panic(RecycleFull)
    else Ok(p.(recycled := p.recycled + [a]))
  }

  predicate InPool(p: Pool, a: Addr) { a in p.unused || a in p.recycled }

  /** No frame is free twice. */
  ghost predicate PoolOk(p: Pool) {
    && NoDup(p.unused) && NoDup(p.recycled)
    && (forall a: Addr :: a in p.unused ==> a !in p.recycled)
  }

  /** The frames n allocations in a row hand out. */
  function Taken(p: Pool, n: nat): (r: seq<Addr>)
    requires n <= p.Free()
    ensures |r| == n
    decreases n, |p.unused|
  {
    if n == 0 then [] else [Top(p)] + Taken(Rest(p), n - 1)
  }

  /** What n allocations in a row leave. */
  function Left(p: Pool, n: nat): (r: Pool)
    requires n <= p.Free()
    ensures r.Free() == p.Free() - n
    decreases n, |p.unused|
  {
    if n == 0 then p else Left(Rest(p), n - 1)
  }

  function Take(p: Pool, n: nat): (r: Outcome<(seq<Addr>, Pool)>) {
    if n <= p.Free() then Ok((Taken(p, n), Left(p, n))) else Panic(OutOfFrames)
  }

  /** Several frames handed back in order. */
  function Give(p: Pool, frames: seq<Addr>): (r: Outcome<Pool>)
    decreases |frames|
  {
    if frames == [] then Ok(p)
    else
      var p1 :- Release(p, frames[0]);
      Give(p1, frames[1..])
  }

  /** Allocation takes one frame out of the pool, and leaves the others in it. */
  lemma AllocMoves(p: Pool)
    requires p.Free() > 0 && PoolOk(p)
    ensures PoolOk(Rest(p)) && InPool(p, Top(p)) && !InPool(Rest(p), Top(p))
    ensures forall a: Addr :: InPool(p, a) <==> a == Top(p) || InPool(Rest(p), a)
  {
    if p.recycled != [] {
      var n := |p.recycled| - 1;
      assert p.recycled == p.recycled[..n] + [p.recycled[n]];
    } else {
      assert p.unused == [p.unused[0]] + p.unused[1..];
    }
  }

  /** Allocation conserves frames: what leaves the pool is what is handed out. */
  lemma {:induction false} TakeMoves(p: Pool, n: nat)
    requires n <= p.Free() && PoolOk(p)
    ensures PoolOk(Left(p, n)) && NoDup(Taken(p, n))
    ensures forall a: Addr :: InPool(p, a) <==> a in Taken(p, n) || InPool(Left(p, n), a)
    ensures forall a: Addr :: a in Taken(p, n) ==> !InPool(Left(p, n), a)
    decreases n
  {
    if n > 0 {
      AllocMoves(p);
      TakeMoves(Rest(p), n - 1);
    }
  }

  /** From p to p' at most n more frames were out at once, and fresh ones were
      used only when no recycled one was left. */
  ghost predicate Thrifty(p: Pool, p': Pool, n: nat) {
    |p'.unused| >= |p.unused| || |p'.unused| >= p.Free() - n
  }

  /** Frames are used for the first time only when the stack is empty. */
  lemma {:induction false} TakeIsThrifty(p: Pool, n: nat)
    requires n <= p.Free()
    ensures Thrifty(p, Left(p, n), n)
    ensures |Left(p, n).recycled| <= |p.recycled|
    decreases n
  {
    if n > 0 {
      TakeIsThrifty(Rest(p), n - 1);
    }
  }

  /** Handing frames back succeeds while the stack has room, and conserves them. */
  lemma {:induction false} GiveMoves(p: Pool, frames: seq<Addr>)
    requires forall i :: 0 <= i < |frames| ==> frames[i] > 0 && frames[i] % PAGE == 0
    requires |p.recycled| + |frames| <= RECYCLE_CAPACITY
    ensures Give(p, frames) == Ok(p.(recycled := p.recycled + frames))
    decreases |frames|
  {
    if frames == [] {
      assert p.recycled + frames == p.recycled;
    } else {
      GiveMoves(p.(recycled := p.recycled + [frames[0]]), frames[1..]);
      assert p.recycled + [frames[0]] + frames[1..] == p.recycled + frames;
    }
  }

  lemma GivenPoolOk(p: Pool, frames: seq<Addr>)
    requires PoolOk(p) && NoDup(frames) && forall a: Addr :: a in frames ==> !InPool(p, a)
    ensures PoolOk(p.(recycled := p.recycled + frames))
    ensures forall a: Addr :: InPool(p.(recycled := p.recycled + frames), a) <==> InPool(p, a) || a in frames
  {
    forall i, j | 0 <= i < |p.recycled| && 0 <= j < |frames|
      ensures p.recycled[i] != frames[j]
    {
      assert !InPool(p, frames[j]);
    }
    NoDupConcat(p.recycled, frames);
  }

  // ---------------------------------------------------------------------
  // Regions of the boot memory map
  // ---------------------------------------------------------------------

  datatype Region = Region(start: Addr, end: Addr)

  function PagesOf(start: Addr, end: Addr): (r: seq<Addr>)
    decreases if start < end then end - start else 0
  {
    if start + PAGE <= end then [start] + PagesOf(start + PAGE, end) else []
  }

  /** The frames of a list of regions, in the order the cursor meets them. */
  function FreshIn(regions: seq<Region>): (r: seq<Addr>) {
    if regions == [] then [] else PagesOf(regions[0].start, regions[0].end) + FreshIn(regions[1..])
  }

  /** One entry of the memory map; type 7 is conventional memory. */
  datatype MapEntry = MapEntry(base: nat, length: nat, kind: nat)

  function AlignDown(x: nat): (r: nat) { x - x % PAGE }
  function AlignUp(x: nat): (r: nat) { AlignDown(x + PAGE - 1) }

  const LOW_LIMIT: nat := 0x100000

  function AddRegion(start: Addr, end: Addr): seq<Region> {
    if start >= end || (end - start) / PAGE == 0 then [] else [Region(start, end)]
  }

  /** The regions one map entry contributes: its whole pages above 1 MiB, without the kernel image. */
  function EntryRegions(e: MapEntry, kernelStart: Addr, kernelEnd: Addr): (r: seq<Region>) {
    if e.kind != 7 || e.length == 0 then [] else
    var start0 := AlignUp(e.base);
    var end := AlignDown(e.base + e.length);
    if end <= LOW_LIMIT then [] else
    var start := if start0 < LOW_LIMIT then LOW_LIMIT else start0;
    if start < kernelStart && end > kernelStart then
      AddRegion(start, kernelStart) + (if kernelEnd < end then AddRegion(kernelEnd, end) else [])
    else
      var start' := if kernelStart <= start < kernelEnd then kernelEnd else start;
      if start' < end then AddRegion(start', end) else []
  }

  function MapRegions(entries: seq<MapEntry>, kernelStart: Addr, kernelEnd: Addr): (r: seq<Region>) {
    if entries == [] then []
    else MapRegions(entries[..|entries| - 1], kernelStart, kernelEnd)
         + EntryRegions(entries[|entries| - 1], kernelStart, kernelEnd)
  }

  /** A whole page of conventional memory, above 1 MiB and outside the kernel image. */
  ghost predicate UsableIn(e: MapEntry, kernelStart: Addr, kernelEnd: Addr, a: Addr) {
    && e.kind == 7 && a % PAGE == 0
    && e.base <= a && a + PAGE <= e.base + e.length
    && LOW_LIMIT <= a
    && !(kernelStart <= a < kernelEnd)
  }

  lemma {:induction false} PagesOfMembers(start: Addr, end: Addr, a: Addr)
    ensures a in PagesOf(start, end) <==> start <= a && a + PAGE <= end && (a - start) % PAGE == 0
    decreases if start < end then end - start else 0
  {
    if start + PAGE <= end {
      PagesOfMembers(start + PAGE, end, a);
      assert (a - start) % PAGE == (a - (start + PAGE)) % PAGE;
    }
  }

  lemma {:induction false} PagesOfDistinct(start: Addr, end: Addr)
    ensures NoDup(PagesOf(start, end))
    decreases if start < end then end - start else 0
  {
    if start + PAGE <= end {
      PagesOfDistinct(start + PAGE, end);
      PagesOfMembers(start + PAGE, end, start);
    }
  }

  lemma {:induction false} FreshInAppend(a: seq<Region>, b: seq<Region>)
    ensures FreshIn(a + b) == FreshIn(a) + FreshIn(b)
  {
    if a == [] {
      assert a + b == b;
    } else {
      assert (a + b)[1..] == a[1..] + b;
      FreshInAppend(a[1..], b);
    }
  }

  lemma FreshInSmall(a: Region, b: Region)
    ensures FreshIn([]) == []
    ensures FreshIn([a]) == PagesOf(a.start, a.end)
    ensures FreshIn([a, b]) == PagesOf(a.start, a.end) + PagesOf(b.start, b.end)
  {
    assert [a][1..] == [] && [a, b][1..] == [b];
    assert FreshIn([b]) == PagesOf(b.start, b.end);
  }

  /** An entry contributes exactly its usable pages, each once. */
  lemma EntryRegionsExact(e: MapEntry, kernelStart: Addr, kernelEnd: Addr, a: Addr)
    requires kernelStart % PAGE == 0 && kernelEnd % PAGE == 0 && kernelStart <= kernelEnd
    ensures a in FreshIn(EntryRegions(e, kernelStart, kernelEnd)) <==> UsableIn(e, kernelStart, kernelEnd, a)
    ensures NoDup(FreshIn(EntryRegions(e, kernelStart, kernelEnd)))
  {
    var end := AlignDown(e.base + e.length);
    var start := if AlignUp(e.base) < LOW_LIMIT then LOW_LIMIT else AlignUp(e.base);
    AlignBounds(e.base, e.base + e.length, a);
    if e.kind == 7 && e.length != 0 && end > LOW_LIMIT {
      if start < kernelStart && end > kernelStart {
        SplitEntry(start, kernelStart, kernelEnd, end, a);
      } else {
        OneRegion(if kernelStart <= start < kernelEnd then kernelEnd else start, end, a);
      }
    }
  }

  lemma AlignBounds(low: nat, high: nat, a: Addr)
    ensures AlignUp(low) % PAGE == 0 && AlignDown(high) % PAGE == 0
    ensures a % PAGE == 0 ==> (AlignUp(low) <= a <==> low <= a) && (a < AlignDown(high) <==> a + PAGE <= high)
  {
  }

  /** A region of whole pages holds exactly the page addresses between its ends. */
  lemma OneRegion(start: Addr, end: Addr, a: Addr)
    requires start % PAGE == 0 && end % PAGE == 0
    ensures a in FreshIn(AddRegion(start, end)) <==> start <= a < end && a % PAGE == 0
    ensures NoDup(FreshIn(AddRegion(start, end)))
    ensures start >= end ==> AddRegion(start, end) == []
  {
    FreshInSmall(Region(start, end), Region(start, end));
    PagesOfMembers(start, end, a);
    PagesOfDistinct(start, end);
  }

  lemma SplitEntry(start: Addr, low: Addr, high: Addr, end: Addr, a: Addr)
    requires start % PAGE == 0 && low % PAGE == 0 && high % PAGE == 0 && end % PAGE == 0
    requires start < low <= high
    ensures var both := AddRegion(start, low) + (if high < end then AddRegion(high, end) else []);
            && (a in FreshIn(both) <==> a % PAGE == 0 && (start <= a < low || high <= a < end))
            && NoDup(FreshIn(both))
  {
    var x, y := AddRegion(start, low), if high < end then AddRegion(high, end) else [];
    FreshInAppend(x, y);
    OneRegion(start, low, a);
    OneRegion(high, end, a);
    var px, py := FreshIn(x), FreshIn(y);
    forall i, j | 0 <= i < |px| && 0 <= j < |py|
      ensures px[i] != py[j]
    {
      OneRegion(start, low, px[i]);
      OneRegion(high, end, py[j]);
      assert px[i] in px && py[j] in py;
    }
    NoDupConcat(px, py);
  }

  lemma NoDupConcat<T>(a: seq<T>, b: seq<T>)
    requires NoDup(a) && NoDup(b)
    requires forall i, j :: 0 <= i < |a| && 0 <= j < |b| ==> a[i] != b[j]
    ensures NoDup(a + b)
  {
  }

  ghost predicate EntriesDisjoint(entries: seq<MapEntry>) {
    forall i, j :: 0 <= i < j < |entries| ==>
      entries[i].base + entries[i].length <= entries[j].base || entries[j].base + entries[j].length <= entries[i].base
  }

  /** The regions of a memory map hold exactly its usable pages; and each once
      if the map's entries do not overlap. */
  lemma {:induction false} MapRegionsExact(entries: seq<MapEntry>, kernelStart: Addr, kernelEnd: Addr, a: Addr)
    requires kernelStart % PAGE == 0 && kernelEnd % PAGE == 0 && kernelStart <= kernelEnd
    ensures a in FreshIn(MapRegions(entries, kernelStart, kernelEnd)) <==>
              exists i :: 0 <= i < |entries| && UsableIn(entries[i], kernelStart, kernelEnd, a)
  {
    if entries != [] {
      var n := |entries| - 1;
      MapRegionsExact(entries[..n], kernelStart, kernelEnd, a);
      EntryRegionsExact(entries[n], kernelStart, kernelEnd, a);
      FreshInAppend(MapRegions(entries[..n], kernelStart, kernelEnd), EntryRegions(entries[n], kernelStart, kernelEnd));
      assert forall i :: 0 <= i < n ==> entries[..n][i] == entries[i];
    }
  }

  lemma {:induction false} MapRegionsDistinct(entries: seq<MapEntry>, kernelStart: Addr, kernelEnd: Addr)
    requires kernelStart % PAGE == 0 && kernelEnd % PAGE == 0 && kernelStart <= kernelEnd
    requires EntriesDisjoint(entries)
    ensures NoDup(FreshIn(MapRegions(entries, kernelStart, kernelEnd)))
  {
    if entries != [] {
      var n := |entries| - 1;
      var x, y := MapRegions(entries[..n], kernelStart, kernelEnd), EntryRegions(entries[n], kernelStart, kernelEnd);
      MapRegionsDistinct(entries[..n], kernelStart, kernelEnd);
      EntryRegionsExact(entries[n], kernelStart, kernelEnd, 0);
      FreshInAppend(x, y);
      var px, py := FreshIn(x), FreshIn(y);
      forall i, j | 0 <= i < |px| && 0 <= j < |py|
        ensures px[i] != py[j]
      {
        MapRegionsExact(entries[..n], kernelStart, kernelEnd, px[i]);
        EntryRegionsExact(entries[n], kernelStart, kernelEnd, py[j]);
        assert px[i] in px && py[j] in py;
        var k :| 0 <= k < n && UsableIn(entries[..n][k], kernelStart, kernelEnd, px[i]);
        assert entries[..n][k] == entries[k];
      }
      NoDupConcat(px, py);
    }
  }
}
