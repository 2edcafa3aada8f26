/** mmio_alloc_mapping and mmio_dealloc_mapping of kernel/src/memory.c: the free list and the page tables kept in
    step.  Addresses given to the two are bytes; virtual ones are cut to the 48 bits that are translated. */
module MmioMappings {
  import opened FreeIntervals
  import opened MmioFreeList
  import opened MmioPages
  import opened Options
  import opened PageRights
  import opened Paging
  import opened Rounding

  /** aligned_len in pages, for the bytes [begin, end). */
  function PageCount(begin: nat, end: nat): nat
    requires begin <= end
  {
    DivCeil(end - begin / 4096 * 4096, 4096)
  }

  /** The whole pages that hold the bytes [begin, end), no more. */
  lemma WholePages(begin: nat, end: nat)
    requires begin <= end
    ensures var first, len := begin / 4096, PageCount(begin, end);
            && first * 4096 <= begin < first * 4096 + 4096
            && end <= (first + len) * 4096 && (begin < end ==> (first + len - 1) * 4096 < end)
  {
    var first := begin / 4096;
    var x := end - first * 4096;
    assert x == 4096 * (x / 4096) + x % 4096;
  }

  lemma Above(free: seq<Interval>, k: nat, len: nat)
    requires Canonical(free) && 0 < len && k < |free| && free[k].end - free[k].begin >= len
    ensures var rest, b, e := Without(free, k, len), free[k].begin, free[k].begin + len;
            && (k < |rest| ==> FirstAbove(rest, k, b)) && (forall j | 0 <= j < k :: rest[j].begin <= b)
            && k <= |rest| <= |free| && (|rest| == |free| || |rest| == |free| - 1)
            && (k == |rest| <==> k == |free| - 1 && free[k].end == e)
            && (|rest| == |free| ==> JoinsNext(rest, k, e))
  {
  }

  lemma GiveRestores(free: seq<Interval>, k: nat, len: nat)
    requires Canonical(free) && 0 < len && k < |free| && free[k].end - free[k].begin >= len
    requires k < |Without(free, k, len)|
    ensures var rest, b, e := Without(free, k, len), free[k].begin, free[k].begin + len;
            FitsBefore(rest, k, b, e) && With(rest, k, b, e) == free
  {
    hide Canonical, PageIn, Without, With, FirstAbove, FitsBefore;
    var rest, b, e := Without(free, k, len), free[k].begin, free[k].begin + len;
    Above(free, k, len);
    CanonicalAt(free, k);
    WithoutCanonical(free, k, len);
    TakesAll(free, k, len);
    PlaceExists(rest, b, e, k);
    WithCanonical(rest, k, b, e);
    GivesAll(rest, k, b, e);
    CanonicalUnique(With(rest, k, b, e), free);
  }

  /** What a range taken from the list and given back at once leaves: the same list; unless the range was the
      whole of the last free interval, where nothing is free above it and deallocation panics. */
  lemma TakeThenGive(free: seq<Interval>, len: nat)
    requires Canonical(free) && |free| <= 24 && 0 < len && FirstFit(free, len) < |free|
    ensures var k := FirstFit(free, len);
            var rest, b, e := Without(free, k, len), free[k].begin, free[k].begin + len;
            var above := AboveIndex(rest, b);
            && (above == |rest| <==> k == |free| - 1 && free[k].end == e)
            && (above < |rest| ==>
                  && FitsBefore(rest, above, b, e) && With(rest, above, b, e) == free
                  && (!JoinsNext(rest, above, e) && !JoinsPrevious(rest, above, b) ==> |rest| < 24))
  {
    hide Canonical, FirstFit, AboveIndex, Without, With, FitsBefore, FirstAbove, JoinsNext, JoinsPrevious;
    var k := FirstFit(free, len);
    Above(free, k, len);
    AboveIs(Without(free, k, len), free[k].begin, k);
    if k < |Without(free, k, len)| {
      GiveRestores(free, k, len);
    }
  }

  /** For a list of one free interval, the whole range, taking all of it leaves nothing above: giving it back
      panics. */
  lemma WholeRangePanics()
    ensures var free, len := [Interval(IOMAP_START, IOMAP_END)], IOMAP_END - IOMAP_START;
            && FirstFit(free, len) == 0 && Without(free, 0, len) == []
            && AboveIndex(Without(free, 0, len), IOMAP_START) == |Without(free, 0, len)|
  {
    var free := [Interval(IOMAP_START, IOMAP_END)];
    assert free[..0] + free[1..] == [];
  }

  /** From mem0 to mem pages [b, e) map what pagetable_mmio_map maps them to, and no other page changes. */
  ghost predicate Mapped(mem0: Memory, mem: Memory, root: nat, b: nat, e: nat, phys: nat)
  {
    forall w: nat | w < 0x10_0000_0000 ::
      Lookup(mem, root, w) ==
      if b <= w < e then RangeMapping(mem0, root, b, e, phys, KERNEL_PAGE_FLAG, w) else Lookup(mem0, root, w)
  }

  /** From mem0 to mem pages [b, e) are unmapped, and no other page changes. */
  ghost predicate Cleared(mem0: Memory, mem: Memory, root: nat, b: nat, e: nat)
  {
    forall w: nat | w < 0x10_0000_0000 ::
      Lookup(mem, root, w) == if b <= w < e then Unmapped else Lookup(mem0, root, w)
  }

  /** Unmapping goes through. */
  ghost predicate AllPass(mem: Memory, root: nat, b: nat, e: nat)
  {
    forall w: nat | b <= w < e :: Passes(mem, root, b, w)
  }

  lemma EndsBeyond(mem: Memory, root: nat, b: nat, e: nat)
    ensures e <= UnmapEnd(mem, root, b, e)
  {
  }

  ghost predicate SameLookups(mem0: Memory, mem: Memory, root: nat)
  {
    forall w: nat | w < 0x10_0000_0000 :: Lookup(mem, root, w) == Lookup(mem0, root, w)
  }

  lemma LookupsKept(mem: Memory, root: nat)
    ensures SameLookups(mem, mem, root)
  {
  }

  /** Mapped pages that were free before are as before once they are cleared. */
  lemma MapThenClear(mem0: Memory, mem1: Memory, mem2: Memory, root: nat, b: nat, e: nat, phys: nat)
    requires Mapped(mem0, mem1, root, b, e, phys) && Cleared(mem1, mem2, root, b, e)
    requires forall w: nat | b <= w < e :: Lookup(mem0, root, w) == Unmapped
    ensures SameLookups(mem0, mem2, root)
  {
    hide Lookup, RangeMapping;
  }

  lemma LenPositive(beginPhys: nat, endPhys: nat)
    requires beginPhys < endPhys
    ensures PageCount(beginPhys, endPhys) > 0
  {
  }

  lemma PagesOfRange(beginVirt: nat, endVirt: nat)
    requires beginVirt < endVirt <= IOMAP_END * 4096
    ensures var b := beginVirt / 4096;
            b < b + PageCount(beginVirt, endVirt) <= IOMAP_END
  {
  }

  /** As many bytes from a page's start on span as many pages as the bytes from the first page's start. */
  lemma SameCount(b: nat, beginPhys: nat, endPhys: nat)
    requires beginPhys <= endPhys
    ensures endPhys >= beginPhys / 4096 * 4096
    ensures PageCount(b * 4096, b * 4096 + (endPhys - beginPhys / 4096 * 4096)) == PageCount(beginPhys, endPhys)
  {
  }

  lemma BytesBelow(b: nat, bytes: nat)
    ensures b * 4096 / 4096 == b
    ensures forall end: nat | b + PageCount(b * 4096, b * 4096 + bytes) <= end :: b * 4096 + bytes <= end * 4096
  {
    WholePages(b * 4096, b * 4096 + bytes);
  }

  lemma FirstMapped(mem0: Memory, mem: Memory, root: nat, b: nat, e: nat, phys: nat)
    requires Mapped(mem0, mem, root, b, e, phys) && b < e && b < 0x10_0000_0000
    ensures Lookup(mem, root, b) == RangeMapping(mem0, root, b, e, phys, KERNEL_PAGE_FLAG, b)
  {
    hide Lookup, RangeMapping;
  }

  /** A range just mapped is mapped by entries that map no other page. */
  lemma MappedFits(mem0: Memory, mem: Memory, root: nat, b: nat, e: nat, phys: nat)
    requires Mapped(mem0, mem, root, b, e, phys) && e <= 0x10_0000_0000
    ensures forall w: nat | b <= w < e :: Lookup(mem, root, w) != Unmapped && HugeWithin(mem, root, b, e, w)
  {
    hide Lookup, RangeMapping;
    forall w: nat | b <= w < e
      ensures Lookup(mem, root, w) != Unmapped && HugeWithin(mem, root, b, e, w)
    {
      RangeWithin(mem0, root, b, e, phys, KERNEL_PAGE_FLAG, w);
    }
  }

  class Mappings {
    const list: FreeList
    const tables: PageTables

    /** Free pages are not mapped. */
    ghost predicate Valid()
      reads this, list, list.begins, list.ends, list.nexts, tables
    {
      && list.Valid() && tables.Valid()
      && forall p: nat | PageIn(list.Intervals(), p) :: Lookup(tables.mem, tables.root, p) == Unmapped
    }

    /** The free intervals. */
    ghost function Intervals(): (free: seq<Interval>)
      requires Valid()
      reads this, list, list.begins, list.ends, list.nexts, tables
      ensures Canonical(free) && |free| <= 24
    {
      list.OrderFits();
      list.Intervals()
    }

    /** mmio_alloc_mapping: pages that were free and not mapped now map the pages of the bytes; None for the panic
        when no free interval is long enough, and !ok for the fault for want of frames for page tables. */
    method AllocMapping(beginPhys: nat, endPhys: nat) returns (begin: Option<nat>, ok: bool)
      requires Valid() && beginPhys <= endPhys
      modifies list, list.begins, list.ends, list.nexts, tables
      ensures Valid() && tables.Frames() == old(tables.Frames())
      ensures var free, len := old(Intervals()), PageCount(beginPhys, endPhys);
              var k := FirstFit(free, len);
              if k == |free| then
                begin == None && ok && Intervals() == free && tables.mem == old(tables.mem)
              else
                && begin == Some(free[k].begin) && Intervals() == Without(free, k, len)
                && (ok <==> old(tables.Enough(free[k].begin, free[k].begin + len)))
                && (!ok ==> tables.pool == {})
                && (ok ==> Mapped(old(tables.mem), tables.mem, tables.root, free[k].begin, free[k].begin + len,
                                  beginPhys / 4096))
                && LinksKept(old(tables.mem), tables.mem, tables.root, KERNEL_PAGE_FLAG)
                && (ok ==> RightsMapped(old(tables.mem), tables.mem, tables.root, free[k].begin, free[k].begin + len,
                                        KERNEL_PAGE_FLAG))
    {
      hide Tree, TableAt, Lookup, PageTables.Frames, RangeMapping, Chain, InUse, Canonical, PageIn, Without, PageCount;
      hide PageTables.Enough, LinksKept, RightsMapped;
      var alignedBegin := beginPhys / 4096;
      var len := PageCount(beginPhys, endPhys);
      ghost var free := list.Intervals();
      begin := list.TakeFirstFit(len);
      ok := true;
      if begin.None? {
        return;
      }
      ghost var k := FirstFit(free, len);
      TakesAll(free, k, len);
      CanonicalAt(free, k);
      FreeInRange(list.Intervals());
      ghost var stop;
      ok, stop := tables.Map(begin.value, begin.value + len, alignedBegin, KERNEL_PAGE_FLAG);
    }

    /** mmio_dealloc_mapping.  The range that the bytes span in pages joins the free list and is unmapped, up to
        `stop`; or it is a panic: before anything happens, or when a page is met that unmapping does not pass, after
        those before it are cleared. */
    method DeallocMapping(beginVirt: nat, endVirt: nat) returns (outcome: Outcome, ghost stop: nat)
      requires Valid() && beginVirt < endVirt <= IOMAP_END * 4096
      modifies list, list.begins, list.ends, list.nexts, tables
      ensures list.Valid() && tables.Valid() && tables.Frames() == old(tables.Frames())
      ensures LinksGo(old(tables.mem), tables.mem, tables.root)
      ensures outcome != NotMapped ==> Valid()
      ensures var b := beginVirt / 4096;
              var e := b + PageCount(beginVirt, endVirt);
              var free, k := old(Intervals()), AboveIndex(old(Intervals()), b);
              if k == |free| || !FitsBefore(free, k, b, e) then
                outcome == InvalidAddress && list.Intervals() == free && tables.mem == old(tables.mem)
              else if !JoinsNext(free, k, e) && !JoinsPrevious(free, k, b) && |free| == 24 then
                outcome == TooFragmented && list.Intervals() == free && tables.mem == old(tables.mem)
              else
                && list.Intervals() == With(free, k, b, e)
                && Cleared(old(tables.mem), tables.mem, tables.root, b, stop)
                && (outcome == if AllPass(old(tables.mem), tables.root, b, e) then Done else NotMapped)
                && if outcome == Done then stop == UnmapEnd(old(tables.mem), tables.root, b, e)
                   else b <= stop < e && !Passes(old(tables.mem), tables.root, b, stop)
    {
      hide Tree, TableAt, Lookup, PageTables.Frames, HugeWithin, Chain, InUse, Canonical, PageIn, With;
      hide FitsBefore, JoinsNext, JoinsPrevious, Prefix, TableContents, PageCount, Passes;
      hide LinksGo;
      SameLinksGo(tables.mem, tables.root);
      var b := beginVirt / 4096;
      var e := b + PageCount(beginVirt, endVirt);
      PagesOfRange(beginVirt, endVirt);
      ghost var free, mem0 := list.Intervals(), tables.mem;
      outcome := list.GiveBack(b, e);
      stop := b;
      if outcome != Done {
        return;
      }
      GivesAll(free, AboveIndex(free, b), b, e);
      FreeInRange(list.Intervals());
      var ok;
      ok, stop := tables.Unmap(b, e);
      if ok {
        EndsBeyond(mem0, tables.root, b, e);
      } else {
        outcome := NotMapped;
      }
    }

    /** The second half: the pages of the bytes were taken from `free`, and mapped, just before. */
    method DeallocTaken(begin: nat, bytes: nat, ghost len: nat, ghost free: seq<Interval>, ghost mem0: Memory,
                        ghost phys: nat)
      returns (outcome: Outcome)
      requires Valid() && Canonical(free) && |free| <= 24 && bytes > 0
      requires 0 < len == PageCount(begin * 4096, begin * 4096 + bytes)
      requires var k := FirstFit(free, len);
               k < |free| && begin == free[k].begin && Intervals() == Without(free, k, len)
      requires Mapped(mem0, tables.mem, tables.root, begin, begin + len, phys)
      requires forall w: nat | begin <= w < begin + len :: Lookup(mem0, tables.root, w) == Unmapped
      modifies list, list.begins, list.ends, list.nexts, tables
      ensures Valid() && tables.Frames() == old(tables.Frames())
      ensures if FirstFit(free, len) == |free| - 1 && free[FirstFit(free, len)].end == begin + len then
                outcome == InvalidAddress
              else
                Intervals() == free && SameLookups(mem0, tables.mem, tables.root)
    {
      hide Tree, TableAt, Lookup, PageTables.Frames, RangeMapping, HugeWithin, Chain, InUse, Canonical, PageIn;
      hide Without, With, FirstFit;
      hide FitsBefore, JoinsNext, JoinsPrevious, AboveIndex, PageCount, Mapped, Cleared, SameLookups, Passes;
      hide UnmapEnd;
      ghost var mem1 := tables.mem;
      CanonicalAt(free, FirstFit(free, len));
      BytesBelow(begin, bytes);
      TakeThenGive(free, len);
      MappedFits(mem0, mem1, tables.root, begin, begin + len, phys);
      MappedPasses(mem1, tables.root, tables.plan, begin, begin + len);
      ghost var stop;
      outcome, stop := DeallocMapping(begin * 4096, begin * 4096 + bytes);
      if outcome == Done {
        MapThenClear(mem0, mem1, tables.mem, tables.root, begin, begin + len, phys);
      }
    }

    /** Deallocating right after allocating restores the free list and every translation; except after taking the
        whole of the last free interval, when deallocation panics. */
    method AllocThenDealloc(beginPhys: nat, endPhys: nat) returns (begin: Option<nat>, ok: bool, outcome: Outcome)
      requires Valid() && beginPhys < endPhys
      modifies list, list.begins, list.ends, list.nexts, tables
      ensures Valid() && tables.Frames() == old(tables.Frames())
      ensures var free, len := old(Intervals()), PageCount(beginPhys, endPhys);
              var k := FirstFit(free, len);
              && (ok <==> k < |free| ==> old(tables.Enough(free[k].begin, free[k].begin + len)))
              && (!ok ==> tables.pool == {})
              && (ok ==>
                    if k < |free| && k == |free| - 1 && free[k].end == free[k].begin + len then
                      outcome == InvalidAddress
                    else
                      Intervals() == free && SameLookups(old(tables.mem), tables.mem, tables.root))
    {
      hide Tree, TableAt, Lookup, PageTables.Frames, RangeMapping, Chain, InUse, Canonical, PageIn, Without;
      hide FirstFit, PageCount, Mapped, SameLookups, PageTables.Enough;
      ghost var free, mem0 := Intervals(), tables.mem;
      var bytes := endPhys - beginPhys / 4096 * 4096;
      LenPositive(beginPhys, endPhys);
      LookupsKept(tables.mem, tables.root);
      begin, ok := AllocMapping(beginPhys, endPhys);
      if begin.None? || !ok {
        return begin, ok, Done;
      }
      ghost var len := PageCount(beginPhys, endPhys);
      TakesAll(free, FirstFit(free, len), len);
      SameCount(begin.value, beginPhys, endPhys);
      outcome := DeallocTaken(begin.value, bytes, len, free, mem0, beginPhys / 4096);
    }

    /** mmio_freelist_init, when nothing of the range is mapped yet. */
    constructor (tables: PageTables)
      requires tables.Valid()
      requires forall p: nat | IOMAP_START <= p < IOMAP_END :: Lookup(tables.mem, tables.root, p) == Unmapped
      ensures Valid() && this.tables == tables && Intervals() == [Interval(IOMAP_START, IOMAP_END)]
      ensures fresh(list) && fresh(list.begins) && fresh(list.ends) && fresh(list.nexts)
    {
      list := new FreeList();
      this.tables := tables;
    }

    /** 2 MiB of memory from page phys on, as the first mapping of all: its first page is mapped right exactly when
        phys is a multiple of 512; it is one page off when phys is one more, and faults otherwise. */
    method AllocMisaligned(phys: nat) returns (begin: Option<nat>, ok: bool)
      requires Valid() && Intervals() == [Interval(IOMAP_START, IOMAP_END)] && |tables.pool| >= 2
      requires TableAt(tables.mem, tables.root, IOMAP_START, 3).None?
      modifies list, list.begins, list.ends, list.nexts, tables
      ensures Valid() && tables.Frames() == old(tables.Frames())
      ensures begin == Some(IOMAP_START) && ok
      ensures Translate(Lookup(tables.mem, tables.root, IOMAP_START), IOMAP_START) ==
              if phys % 512 <= 1 then Some(phys - phys % 512) else None
    {
      hide Tree, TableAt, Lookup, PageTables.Frames, RangeMapping, Chain, InUse, Canonical, PageIn, Without;
      hide Valid, Intervals, Translate, PageTables.Enough, Mapped;
      assert FirstFit(Intervals(), 512) == 0;
      tables.EnoughForBlock(IOMAP_START);
      MisalignedStart(tables.mem, tables.root, IOMAP_START, IOMAP_START + 512, phys, KERNEL_PAGE_FLAG);
      assert PageCount(phys * 4096, phys * 4096 + 0x20_0000) == 512 && phys * 4096 / 4096 == phys;
      ghost var mem0 := tables.mem;
      begin, ok := AllocMapping(phys * 4096, phys * 4096 + 0x20_0000);
      FirstMapped(mem0, tables.mem, tables.root, IOMAP_START, IOMAP_START + 512, phys);
    }
  }
}
