/** memory_init of kernel/src/memory.c: the memory map, the page tables in its first pages, the buddy allocator over
    the others, and the MMIO range, one after another. */
module MemoryInit {
  import opened Buddy
  import opened BuddyMetadata
  import opened Dynmem
  import opened DynPages
  import opened FrameAllocator
  import opened FreeIntervals
  import opened KernelTables
  import opened Leftovers
  import opened MemoryMap
  import opened MmioMappings
  import opened MmioPages
  import opened Options
  import opened PageRights
  import opened PagetableConstruct
  import opened Paging
  import Blocks
  import BuddyBitmaps

  /** The pages that the firmware offers from 8 MiB on, in increasing order. */
  ghost predicate PagesOf(boot: seq<MmapEntry>, pages: seq<nat>)
  {
    && (forall i, j | 0 <= i < j < |pages| :: pages[i] < pages[j])
    && forall p: nat :: p in pages <==> 2048 <= p && CoveredBy(boot, p)
  }

  /** Every byte that the allocator manages is mapped, to be read and written, to a page that holds none of the page
      tables. */
  ghost predicate AreaMapped(mem: Memory, root: nat, pages: seq<nat>, tables: nat, begin: nat, len: nat)
  {
    forall a: nat | begin <= a < begin + len ::
      && 512 + tables <= a / 4096 < 512 + |pages|
      && Lookup(mem, root, a / 4096) == Small(pages[a / 4096 - 512], KERNEL_PAGE_FLAG)
      && Usable(mem, root, a / 4096) && pages[a / 4096 - 512] !in mem
  }

  lemma WholePages(n: nat)
    ensures n * 4096 % 4096 == 0
  {
  }

  /** What is left: the allocator, and the page tables with the MMIO list. */
  datatype Init = Init(buddy: BuddyBlocks, mappings: Mappings)

  /** The pages of the sorted and trimmed map. */
  lemma SpansPages(boot: seq<MmapEntry>, s: seq<MmapEntry>)
    requires forall k | 0 <= k < |s| :: s[k].available && Trimmed(s[k])
    requires forall k, l | 0 <= k < l < |s| :: s[k].base + s[k].length <= s[l].base
    requires MemoryMap.SamePages(boot, s)
    ensures Normalised(Spans(s)) && PagesOf(boot, Units(Spans(s)))
  {
    hide CoveredBy, Units, Spans;
    SpansUnits(s, 0);
    UnitsIncrease(Spans(s));
    forall p: nat
      ensures p in Units(Spans(s)) <==> 2048 <= p && CoveredBy(boot, p)
    {
      SpansUnits(s, p);
      assert CoveredBy(s, p) <==> 2048 <= p && CoveredBy(boot, p);
    }
  }

  /** Too few pages for the first tables are too few for the allocator. */
  lemma TooFew(total: nat)
    requires total < 3
    ensures !InitAsserts(total * 4096)
  {
    if total > 0 {
      InitAssertsExactly(total);
    }
  }

  lemma PagesApart(mem: Memory, b: Boot)
    requires BootOk(mem, b)
    ensures b.root !in b.pages && b.pdpt !in b.pages && b.pdt !in b.pages
    ensures forall i, j | 0 <= i < j < |b.pages| :: b.pages[i] != b.pages[j]
    ensures b.count == TableCount(|b.pages|) && 512 + |b.pages| <= 0x8_0000_0000
  {
    hide AllPlaced, Bounded;
  }

  lemma TablesMemory(mem: Memory, b: Boot)
    requires BootOk(mem, b)
    ensures var frames := TableFrames(b.root, b.pdpt, b.pdt, b.pages, b.count);
            TableMemory(mem, b) == Restrict(mem, frames) && Restrict(mem, frames).Keys == frames
  {
    hide BootOk, StartFits, BootAt, TableFrames;
    TablesAre(mem, b);
    forall f | f in BootAt(b).Values
      ensures f in mem
    {
      FrameInMemory(mem, b, RoleAt(BootAt(b), f));
    }
  }

  lemma SpaceAlone(mem: Memory, b: Boot)
    requires BootOk(mem, b) && StartFits(b) && SpaceIs(mem, b)
    ensures SpaceIs(TableMemory(mem, b), b)
  {
    hide BootOk, StartFits, Lookup, BootMapping, TableMemory;
    forall v: nat | v < 0x10_0000_0000
      ensures Lookup(TableMemory(mem, b), b.root, v) == BootMapping(b, v)
    {
      TablesAlone(mem, b, v);
    }
  }

  lemma IoUnmapped(mem: Memory, b: Boot)
    requires 512 + |b.pages| <= 0x8_0000_0000 && SpaceIs(mem, b)
    ensures forall v: nat | IOMAP_START <= v < IOMAP_END :: Lookup(mem, b.root, v) == Unmapped
  {
    hide BootMapping, Lookup;
    forall v: nat | IOMAP_START <= v < IOMAP_END
      ensures Lookup(mem, b.root, v) == Unmapped
    {
      IoRangeUnmapped(b, v);
    }
  }

  /** The page tables in the memory that holds them, and the MMIO range, which is unmapped yet. */
  method MakeMappings(mem: Memory, pool: set<nat>, ghost b: Boot, root: nat, pdpt: nat, pdt: nat, pages: seq<nat>,
                      count: nat)
    returns (mappings: Mappings)
    requires b == Boot(root, pages, b.built, count, pdpt, pdt, b.stack, b.start) && StartFits(b) &&
             BootOk(mem, b) && SpaceIs(mem, b)
    requires forall f | f in pool :: f !in TableFrames(root, pdpt, pdt, pages, count)
    ensures mappings.Valid() && mappings.Intervals() == [Interval(IOMAP_START, IOMAP_END)]
    ensures mappings.tables.root == root && mappings.tables.pool == pool
    ensures mappings.tables.mem.Keys == TableFrames(root, pdpt, pdt, pages, count)
    ensures SpaceIs(mappings.tables.mem, b) && LinksUsable(mappings.tables.mem, root)
  {
    hide Lookup, BootMapping, Tree, TableFrames, BootOk, StartFits, BootPlan, TableMemory, Restrict, SpaceIs;
    hide LinksUsable;
    TablesMemory(mem, b);
    BootTree(mem, b);
    BootLinksUsable(mem, b);
    SpaceAlone(mem, b);
    PagesApart(mem, b);
    IoUnmapped(TableMemory(mem, b), b);
    var part := Restrict(mem, TableFrames(root, pdpt, pdt, pages, count));
    var tables := new PageTables(root, part, pool, BootPlan(b));
    mappings := new Mappings(tables);
  }

  /** The pages from number `first` on. */
  function PagesFrom(pages: seq<nat>, first: nat): set<nat>
  {
    set k | first <= k < |pages| :: pages[k]
  }

  /** The allocator's pages hold no table. */
  lemma PoolApart(mem: Memory, b: Boot, first: nat)
    requires BootOk(mem, b) && first >= b.count
    ensures forall f | f in PagesFrom(b.pages, first) :: f !in TableFrames(b.root, b.pdpt, b.pdt, b.pages, b.count)
  {
    PagesApart(mem, b);
    hide BootOk, StartFits;
  }

  lemma AllFrames(pages: seq<nat>, first: nat, n: nat)
    requires first + n == |pages|
    ensures FramesOf(pages, first, Blocks.AllUnits(n)) == PagesFrom(pages, first)
  {
    forall k | first <= k < |pages|
      ensures pages[k] in FramesOf(pages, first, Blocks.AllUnits(n))
    {
      assert k - first in Blocks.AllUnits(n) && first + (k - first) == k;
    }
  }

  lemma PagesAfter(count: nat, offset: nat, units: nat, total: nat)
    requires offset % 4096 == 0 && (total - count) * 4096 == offset + units * 4096
    ensures ((512 + count) * 4096 + offset) / 4096 - 512 == count + offset / 4096
    ensures count + offset / 4096 + units == total
  {
    assert offset == offset / 4096 * 4096;
  }

  /** The pool is the frames of the allocator's units, all of which are free. */
  lemma PoolIsFree(pages: seq<nat>, buddy: BuddyBlocks, tables: PageTables, count: nat)
    requires buddy.Valid() && buddy.free == Blocks.AllUnits(buddy.units) && tables.Valid()
    requires count <= |pages|
    requires buddy.startAddr == (512 + count) * 4096 && buddy.totalLen == (|pages| - count) * 4096
    requires Distinct(pages) && tables.pool == PagesFrom(pages, count + buddy.dataOffset / 4096)
    ensures PoolKept(pages, buddy, tables)
  {
    hide BuddyBlocks.Encoded, BuddyBlocks.Layout, PageTables.Valid, Blocks.AllUnits, FramesOf, PagesFrom;
    WholePages(512 + count);
    WholePages(|pages| - count);
    buddy.AlignedEnd();
    PagesAfter(count, buddy.dataOffset, buddy.units, |pages|);
    AllFrames(pages, FirstPage(buddy), buddy.units);
  }

  lemma HasTables(mappings: Mappings)
    requires mappings.Valid()
    ensures mappings.tables.Valid()
  {
  }

  lemma AreaIsMapped(mem: Memory, part: Memory, b: Boot)
    requires BootOk(mem, b) && SpaceIs(part, b) && b.count <= |b.pages|
    requires LinksUsable(part, b.root)
    requires part.Keys == TableFrames(b.root, b.pdpt, b.pdt, b.pages, b.count)
    ensures AreaMapped(part, b.root, b.pages, b.count, (512 + b.count) * 4096, (|b.pages| - b.count) * 4096)
  {
    hide Lookup, LinksUsable, Usable, BootOk, StartFits, TableFrames;
    PagesApart(mem, b);
    PoolApart(mem, b, b.count);
    forall a: nat | (512 + b.count) * 4096 <= a < (512 + b.count) * 4096 + (|b.pages| - b.count) * 4096
      ensures 512 + b.count <= a / 4096 < 512 + |b.pages|
      ensures Lookup(part, b.root, a / 4096) == Small(b.pages[a / 4096 - 512], KERNEL_PAGE_FLAG)
      ensures Usable(part, b.root, a / 4096) && b.pages[a / 4096 - 512] !in part
    {
      var v := a / 4096;
      assert Lookup(part, b.root, v) == BootMapping(b, v);
      UsableHere(part, b.root, v);
      assert b.pages[v - 512] in PagesFrom(b.pages, b.count);
    }
  }

  /** memory_init goes through: the tables' addresses fit 32 bits, and the area left for the allocator passes the
      assertions of buddy_info_init. */
  ghost predicate Starts(pages: seq<nat>)
  {
    && TablesFit32(pages, |pages|) && |pages| >= 3 && TableCount(|pages|) <= |pages|
    && InitAsserts((|pages| - TableCount(|pages|)) * 4096)
  }

  /** The allocator over so many pages from a page on. */
  method MakeAllocator(first: nat, count: nat) returns (buddy: BuddyBlocks)
    requires first + count <= 0x10_0000_0000_0000 && InitAsserts(count * 4096)
    ensures buddy.Valid() && fresh(buddy) && fresh(buddy.bits) && fresh(buddy.bitmaps)
    ensures buddy.startAddr == first * 4096 && buddy.totalLen == count * 4096
    ensures buddy.free == Blocks.AllUnits(buddy.units) && buddy.used == 0
  {
    hide MetadataLen, BuddyBitmaps.Levels, BuddyBlocks.Valid, InitAsserts, UnitsFor, DataOffset;
    buddy := new BuddyBlocks(first * 4096, count * 4096);
  }

  /** memory_init, from the firmware's memory map on.  None for a panic of buddy_info_init, or walks led astray by a
      table's address of more than 32 bits. */
  method MemoryInit(boot: seq<MmapEntry>, root: nat, pdpt: nat, pdt: nat, stack: nat, tmp: nat, mem0: Memory)
    returns (init: Option<Init>, ghost b: Boot)
    requires forall pages | PagesOf(boot, pages) ::
               Suitable(mem0, pages, root, pdpt, pdt, tmp) && LeftoversFit(mem0, root, pages)
    ensures PagesOf(boot, b.pages) && b.root == root && b.stack == stack
    ensures init.Some? <==> Starts(b.pages)
    ensures init.Some? ==>
              var buddy, mappings, tables := init.value.buddy, init.value.mappings, init.value.mappings.tables;
              && buddy.Valid() && buddy.used == 0 && buddy.free == Blocks.AllUnits(buddy.units) && mappings.Valid()
              && buddy.startAddr == (512 + b.count) * 4096 && buddy.totalLen == (|b.pages| - b.count) * 4096
              && mappings.Intervals() == [Interval(IOMAP_START, IOMAP_END)]
              && tables.root == root && SpaceIs(tables.mem, b) && LinksUsable(tables.mem, root)
              && PoolKept(b.pages, buddy, tables)
              && AreaMapped(tables.mem, root, b.pages, b.count, buddy.startAddr, buddy.totalLen)
  {
    hide Lookup, BootMapping, Tree, TableFrames, BootOk, StartFits, BootPlan, SpaceIs, AreaMapped, PagesFrom, Units;
    hide Suitable;
    hide InitAsserts, TableCount, TablesFit32, PagesOf, MemoryMap.SamePages, DataOffset, UnitsFor, CoveredBy;
    hide TablesWithin, LinksUsable, PoolKept;
    hide BuddyBitmaps.Levels, BuddyBitmaps.Encodes, Mappings.Valid, Mappings.Intervals, BuddyBlocks.Valid;
    var entries, len := ConstructMmapDyn(boot);
    var m := Spans(entries[..len]);
    SpansPages(boot, entries[..len]);
    var pages := Units(m);
    var mem, total, tables, ok;
    mem, total, tables, ok, b := ConstructTables(m, root, pdpt, pdt, stack, tmp, mem0);
    if total < 3 {
      TooFew(total);
    }
    if !ok || !InitAsserts((total - tables) * 4096) {
      return None, b;
    }
    PagesApart(mem, b);
    var buddy := MakeAllocator(512 + tables, total - tables);
    var pool := PagesFrom(pages, tables + buddy.dataOffset / 4096);
    PoolApart(mem, b, tables + buddy.dataOffset / 4096);
    var mappings := MakeMappings(mem, pool, b, root, pdpt, pdt, pages, tables);
    AreaIsMapped(mem, mappings.tables.mem, b);
    HasTables(mappings);
    PoolIsFree(b.pages, buddy, mappings.tables, b.count);
    init := Some(Init(buddy, mappings));
  }
}
