/**
 The physical page allocator in place: a region table with a cursor, and a
 recycle stack, refining the pool of module Frames.
 */
module Pmm {
  import opened Base
  import opened Frames

  class Allocator {
    const regions: array<Region>
    const stack: array<Addr>
    var regionCount: nat
    var cursor: nat
    var recycleCount: nat
    var totalPages: nat
    var freePages: nat

    ghost predicate Shape()
      reads this
    {
      && regions.Length == REGION_CAPACITY && stack.Length == RECYCLE_CAPACITY
      && cursor <= regionCount <= REGION_CAPACITY
      && recycleCount <= RECYCLE_CAPACITY
    }

    ghost function View(): (p: Pool)
      requires Shape()
      reads this, regions, stack
    {
      Pool(FreshIn(regions[cursor..regionCount]), stack[..recycleCount])
    }

    ghost predicate Valid()
      reads this, regions, stack
    {
      Shape() && freePages == View().Free()
    }

    constructor ()
      ensures Valid() && View() == Pool([], []) && totalPages == 0 && regionCount == 0 && cursor == 0
      ensures fresh(regions) && fresh(stack)
    {
      regions := new Region[REGION_CAPACITY](_ => Region(0, 0));
      stack := new Addr[RECYCLE_CAPACITY](_ => 0);
      regionCount, cursor, recycleCount, totalPages, freePages := 0, 0, 0, 0, 0;
      new;
      assert regions[0..0] == [];
    }

    /** pmm_add_region: too small a range is ignored, a full table is a panic. */
    method Add(start: Addr, end: Addr) returns (r: Outcome<()>)
      requires Valid() && totalPages == freePages && cursor == 0
      requires start % PAGE == 0 && end % PAGE == 0
      modifies this, regions
      ensures r.Panic? <==> old(regionCount) == REGION_CAPACITY && AddRegion(start, end) != []
      ensures r.Panic? ==> r.fault == RegionsFull
      ensures r.Ok? ==> Valid() && totalPages == freePages && cursor == 0
                        && regions[..regionCount] == old(regions[..regionCount]) + AddRegion(start, end)
                        && stack[..recycleCount] == old(stack[..recycleCount])
    {
      if start >= end {
        return Ok(());
      }
      var pages := (end - start) / PAGE;
      if pages == 0 {
        return Ok(());
      }
      if regionCount >= REGION_CAPACITY {
        return Panic(RegionsFull);
      }
      ghost var before := regions[..regionCount];
      regions[regionCount] := Region(start, end);
      regionCount := regionCount + 1;
      totalPages := totalPages + pages;
      freePages := freePages + pages;
      assert regions[..regionCount] == before + [Region(start, end)];
      assert regions[0..regionCount] == regions[..regionCount] && before == old(regions[cursor..regionCount]);
      FreshInAppend(before, [Region(start, end)]);
      FreshInSmall(Region(start, end), Region(start, end));
      PagesOfLength(start, end);
      r := Ok(());
    }

    static lemma {:induction false} PagesOfLength(start: Addr, end: Addr)
      ensures |PagesOf(start, end)| == if start < end then (end - start) / PAGE else 0
      decreases if start < end then end - start else 0
    {
      if start + PAGE <= end {
        PagesOfLength(start + PAGE, end);
      }
    }

    /** One turn of init_pmm's loop. */
    method AddEntry(e: MapEntry, kernelStart: Addr, kernelEnd: Addr) returns (r: Outcome<()>)
      requires Valid() && totalPages == freePages && cursor == 0 && stack[..recycleCount] == []
      requires kernelStart % PAGE == 0 && kernelEnd % PAGE == 0 && kernelStart <= kernelEnd
      modifies this, regions
      ensures r.Ok? <==> old(regionCount) + |EntryRegions(e, kernelStart, kernelEnd)| <= REGION_CAPACITY
      ensures r.Ok? ==> Valid() && totalPages == freePages && cursor == 0 && stack[..recycleCount] == []
      ensures r.Ok? ==> regions[..regionCount] == old(regions[..regionCount]) + EntryRegions(e, kernelStart, kernelEnd)
    {
      if e.kind != 7 || e.length == 0 {
        return Ok(());
      }
      var start := AlignUp(e.base);
      var end := AlignDown(e.base + e.length);
      AlignBounds(e.base, e.base + e.length, 0);
      if end <= LOW_LIMIT {
        return Ok(());
      }
      if start < LOW_LIMIT {
        start := LOW_LIMIT;
      }
      if start < kernelStart && end > kernelStart {
        var a := Add(start, kernelStart);
        if a.Panic? {
          return a;
        }
        start := kernelEnd;
      } else if kernelStart <= start < kernelEnd {
        start := kernelEnd;
      }
      r := Ok(());
      if start < end {
        r := Add(start, end);
      }
    }

    /** The loop of init_pmm over the boot memory map. */
    method Init(entries: seq<MapEntry>, kernelStart: Addr, kernelEnd: Addr) returns (r: Outcome<()>)
      requires Valid() && View() == Pool([], []) && totalPages == 0 && regionCount == 0 && cursor == 0
      requires kernelStart % PAGE == 0 && kernelEnd % PAGE == 0 && kernelStart <= kernelEnd
      modifies this, regions
      ensures r.Ok? <==> 0 < |MapRegions(entries, kernelStart, kernelEnd)| <= REGION_CAPACITY
      ensures r.Ok? ==> Valid() && totalPages == freePages
                        && View() == Pool(FreshIn(MapRegions(entries, kernelStart, kernelEnd)), [])
    {
      if |entries| == 0 {
        return Panic(BadMemoryMap);
      }
      var i := 0;
      while i < |entries|
        invariant i <= |entries|
        invariant Valid() && totalPages == freePages && cursor == 0 && stack[..recycleCount] == []
        invariant regions[..regionCount] == MapRegions(entries[..i], kernelStart, kernelEnd)
      {
        MapRegionsStep(entries, i, kernelStart, kernelEnd);
        MapRegionsGrow(entries, i + 1, kernelStart, kernelEnd);
        var a := AddEntry(entries[i], kernelStart, kernelEnd);
        if a.Panic? {
          return a;
        }
        i := i + 1;
      }
      assert entries[..|entries|] == entries;
      if regionCount == 0 {
        return Panic(BadMemoryMap);
      }
      assert regions[cursor..regionCount] == regions[..regionCount];
      r := Ok(());
    }

    static lemma MapRegionsStep(entries: seq<MapEntry>, i: nat, kernelStart: Addr, kernelEnd: Addr)
      requires i < |entries|
      ensures MapRegions(entries[..i + 1], kernelStart, kernelEnd)
           == MapRegions(entries[..i], kernelStart, kernelEnd) + EntryRegions(entries[i], kernelStart, kernelEnd)
    {
      assert entries[..i + 1][..i] == entries[..i] && entries[..i + 1][i] == entries[i];
    }

    /** A longer part of the map has at least as many regions. */
    static lemma {:induction false} MapRegionsGrow(entries: seq<MapEntry>, n: nat, kernelStart: Addr, kernelEnd: Addr)
      requires n <= |entries|
      ensures |MapRegions(entries[..n], kernelStart, kernelEnd)| <= |MapRegions(entries, kernelStart, kernelEnd)|
      decreases |entries|
    {
      if n == |entries| {
        assert entries[..n] == entries;
      } else {
        var m := |entries| - 1;
        MapRegionsGrow(entries[..m], n, kernelStart, kernelEnd);
        assert entries[..m][..n] == entries[..n];
      }
    }

    /** pmm_alloc_page: zero exactly when no frame is left. */
    method AllocPage() returns (page: Addr)
      requires Valid()
      modifies this, regions
      ensures Valid() && totalPages == old(totalPages)
      ensures Frames.Alloc(old(View())).None? ==> page == 0 && View() == old(View())
      ensures Frames.Alloc(old(View())).Some? ==> (page, View()) == Frames.Alloc(old(View())).value
    {
      if freePages == 0 {
        return 0;
      }
      if recycleCount != 0 {
        ghost var before := stack[..recycleCount];
        recycleCount := recycleCount - 1;
        page := stack[recycleCount];
        freePages := freePages - 1;
        assert stack[..recycleCount] == before[..recycleCount];
        return;
      }
      ghost var unused := old(View()).unused;
      assert stack[..0] == [];
      page := 0;
      while cursor < regionCount
        invariant cursor <= regionCount == old(regionCount) && recycleCount == 0
        invariant freePages == old(freePages) == |unused| && totalPages == old(totalPages)
        invariant regions[..] == old(regions[..])
        invariant FreshIn(regions[cursor..regionCount]) == unused
        decreases regionCount - cursor
      {
        var start, end := regions[cursor].start, regions[cursor].end;
        assert regions[cursor..regionCount][1..] == regions[cursor + 1..regionCount];
        if start + PAGE <= end {
          var next := start + PAGE;
          ghost var rest := regions[cursor + 1..regionCount];
          regions[cursor] := Region(next, end);
          assert regions[cursor..regionCount] == [Region(next, end)] + rest;
          assert ([Region(next, end)] + rest)[1..] == rest;
          assert unused[1..] == PagesOf(next, end) + FreshIn(rest);
          if next >= end {
            cursor := cursor + 1;
            assert regions[cursor..regionCount] == rest;
          }
          freePages := freePages - 1;
          return start;
        }
        cursor := cursor + 1;
      }
      assert false;
    }

    /** pmm_free_page. */
    method FreePage(page: Addr) returns (r: Outcome<()>)
      requires Valid()
      modifies this, stack
      ensures r.Ok? <==> Release(old(View()), page).Ok?
      ensures r.Ok? ==> Valid() && View() == Release(old(View()), page).value && totalPages == old(totalPages)
      ensures r.Panic? ==> r.fault == Release(old(View()), page).fault
    {
      if page == 0 || page % PAGE != 0 {
        return Panic(BadFree);
      }
      if recycleCount >= RECYCLE_CAPACITY {
        return Panic(RecycleFull);
      }
      ghost var before := stack[..recycleCount];
      stack[recycleCount] := page;
      recycleCount := recycleCount + 1;
      freePages := freePages + 1;
      assert stack[..recycleCount] == before + [page];
      r := Ok(());
    }
  }
}
