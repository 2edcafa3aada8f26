/** Frames for page tables from the buddy allocator: dynmem_alloc_nolock and dynmem_dealloc_nolock of one page
    (kernel/src/memory.c) as page_get_or_alloc and pagetable_mmio_unmap (kernel/src/arch/x86_64/memory.c) call them.
    The pool that page tables take frames from is the frames of the allocator's free units. */
module FrameAllocator {
  import opened Buddy
  import opened BuddyProperties
  import opened MmioPages
  import opened Options
  import opened PageFreeing
  import opened PageRights
  import opened Paging
  import Blocks
  import Dynmem

  /** The frames of the units: unit u is page first + u of the memory that is mapped one page after another. */
  function FramesOf(pages: seq<nat>, first: nat, units: set<nat>): set<nat>
  {
    set u | u in units && first + u < |pages| :: pages[first + u]
  }

  ghost predicate Distinct(pages: seq<nat>)
  {
    forall i, j | 0 <= i < j < |pages| :: pages[i] != pages[j]
  }

  lemma FramesLess(pages: seq<nat>, first: nat, units: set<nat>, u: nat)
    requires Distinct(pages) && u in units && first + u < |pages|
    ensures pages[first + u] in FramesOf(pages, first, units)
    ensures FramesOf(pages, first, units - {u}) == FramesOf(pages, first, units) - {pages[first + u]}
  {
    var frames := FramesOf(pages, first, units);
    forall w | w in units && first + w < |pages| && w != u
      ensures pages[first + w] in FramesOf(pages, first, units - {u}) && pages[first + w] != pages[first + u]
    {
      assert w in units - {u};
    }
    assert FramesOf(pages, first, units - {u}) <= frames - {pages[first + u]};
  }

  lemma FramesMore(pages: seq<nat>, first: nat, units: set<nat>, u: nat)
    requires Distinct(pages) && u !in units && first + u < |pages|
    ensures pages[first + u] !in FramesOf(pages, first, units)
    ensures FramesOf(pages, first, units + {u}) == FramesOf(pages, first, units) + {pages[first + u]}
  {
    FramesLess(pages, first, units + {u}, u);
    assert units + {u} - {u} == units;
    assert FramesOf(pages, first, units) <= FramesOf(pages, first, units + {u});
  }

  /** The page number, counted from the start of the mapped memory, of the allocator's first unit. */
  function FirstPage(buddy: BuddyBlocks): int
    reads buddy
  {
    buddy.DataAddr() / 4096 - 512
  }

  /** The allocator's area is mapped, and its free units are the frames that page tables may take. */
  ghost predicate PoolKept(pages: seq<nat>, buddy: BuddyBlocks, tables: PageTables)
    reads buddy, buddy.bits, buddy.bitmaps, tables
  {
    && buddy.Valid() && buddy.Aligned() && tables.Valid() && Distinct(pages)
    && 0 <= FirstPage(buddy) && FirstPage(buddy) + buddy.units <= |pages|
    && tables.pool == FramesOf(pages, FirstPage(buddy), buddy.free)
  }

  lemma OnePage()
    ensures AllocLevel(4096) == 0 && FitLen(4096) == 0
  {
  }

  lemma NoneFree(free: set<nat>)
    ensures NoWhole(free, 0) <==> free == {}
  {
    forall u | u in free
      ensures Blocks.Whole(free, 0, u)
    {
    }
    if !NoWhole(free, 0) {
      var u: nat :| Blocks.Whole(free, 0, u);
      assert u in Blocks.Units(0, u);
    }
  }

  /** Unit u's address, and its page. */
  lemma UnitPage(buddy: BuddyBlocks, u: nat)
    requires buddy.Layout() && buddy.Aligned()
    ensures buddy.BlockAddr(0, u) / 4096 - 512 == FirstPage(buddy) + u
    ensures buddy.BlockAddr(0, u) == (512 + FirstPage(buddy) + u) * 4096
  {
    buddy.AlignedEnd();
  }

  /** Unit u's frame. */
  ghost predicate IsFrame(pages: seq<nat>, buddy: BuddyBlocks, u: nat, f: nat)
    reads buddy
  {
    0 <= FirstPage(buddy) + u < |pages| && pages[FirstPage(buddy) + u] == f
  }

  lemma FreeBelow(buddy: BuddyBlocks)
    requires buddy.State()
    ensures forall u | u in buddy.free :: u < buddy.units
  {
    buddy.ArraysFit();
  }

  /** dynmem_alloc_nolock of one page: one unit. */
  method AllocUnit(buddy: BuddyBlocks) returns (ptr: nat, ghost u: nat)
    requires buddy.Valid() && buddy.levels <= INT_BITS && AddressesRight(buddy.free)
    modifies buddy`free, buddy`used, buddy.bits, buddy.bitmaps
    ensures buddy.Valid() && (ptr == 0 <==> old(buddy.free) == {})
    ensures ptr == 0 ==> buddy.free == old(buddy.free)
    ensures ptr != 0 ==>
              && ptr == buddy.BlockAddr(0, u) && u < buddy.units
              && u in old(buddy.free) && buddy.free == old(buddy.free) - {u}
  {
    hide AddressesRight, NoWhole, BuddyBlocks.State, AllocLevel, FitLen, BuddyBlocks.BlockAddr;
    OnePage();
    NoneFree(buddy.free);
    FreeBelow(buddy);
    var length;
    ghost var block;
    ptr, length, block := AllocRight(buddy, 4096);
    u := block;
    assert Blocks.Units(0, u) == {u};
  }

  /** dynmem_alloc_nolock of one page, and virt_to_phys_dynmem of its address: the frame of a unit that was free;
      None when none was. */
  method AllocFrame(m: seq<Dynmem.Span>, buddy: BuddyBlocks, ghost tables: PageTables)
    returns (frame: Option<nat>, ghost u: nat)
    requires PoolKept(Dynmem.Units(m), buddy, tables) && buddy.levels <= INT_BITS && AddressesRight(buddy.free)
    modifies buddy`free, buddy`used, buddy.bits, buddy.bitmaps
    ensures buddy.Valid() && (frame.None? <==> old(buddy.free) == {})
    ensures frame.None? ==> buddy.free == old(buddy.free)
    ensures frame.Some? ==>
              && u in old(buddy.free) && buddy.free == old(buddy.free) - {u}
              && frame.value in tables.pool && IsFrame(Dynmem.Units(m), buddy, u, frame.value)
              && FramesOf(Dynmem.Units(m), FirstPage(buddy), buddy.free) == tables.pool - {frame.value}
  {
    hide Dynmem.Units, AddressesRight, BuddyBlocks.Encoded, BuddyBlocks.Layout, PageTables.Valid, FramesOf;
    ghost var free, pages, first := buddy.free, Dynmem.Units(m), FirstPage(buddy);
    var ptr;
    ptr, u := AllocUnit(buddy);
    if ptr == 0 {
      return None, u;
    }
    UnitPage(buddy, u);
    FramesLess(pages, first, free, u);
    frame := Dynmem.VirtToPhys(m, ptr / 4096 - 512);
  }

  lemma EntryTable(mem: Memory, root: nat, plan: Plan, upper: nat, index: nat)
    requires Tree(mem, root, plan) && upper in mem && index < 512 && Level(plan.roles[upper]) < 3
    requires mem[upper][index].Present? && !mem[upper][index].huge
    ensures mem[upper][index].frame in mem
    ensures plan.roles[mem[upper][index].frame] == Sub(plan.roles[upper], index)
  {
    assert EntryFits(mem, plan, upper, index);
  }

  /** page_get_or_alloc: the table that is there, or a cleared one in the frame of a unit that was free; None when the
      table is missing and no unit is free. */
  method GetOrAlloc(m: seq<Dynmem.Span>, buddy: BuddyBlocks, tables: PageTables, upper: nat, index: nat, flags: Flags)
    returns (t: Option<nat>, ghost u: nat)
    requires PoolKept(Dynmem.Units(m), buddy, tables) && buddy.levels <= INT_BITS && AddressesRight(buddy.free)
    requires upper in tables.mem && index < 512 && Level(tables.plan.roles[upper]) < 3
    requires tables.mem[upper][index].Present? ==> !tables.mem[upper][index].huge
    modifies tables, buddy`free, buddy`used, buddy.bits, buddy.bitmaps
    ensures PoolKept(Dynmem.Units(m), buddy, tables) && tables.Frames() == old(tables.Frames())
    ensures t.None? <==> old(buddy.free) == {} && old(tables.mem)[upper][index] == Empty
    ensures t.None? || old(tables.mem)[upper][index].Present? ==>
              buddy.free == old(buddy.free) && tables.mem == old(tables.mem) && tables.pool == old(tables.pool)
    ensures t.Some? && old(tables.mem)[upper][index] == Empty ==>
              && u in old(buddy.free) && buddy.free == old(buddy.free) - {u}
              && IsFrame(Dynmem.Units(m), buddy, u, t.value)
    ensures LinksKept(old(tables.mem), tables.mem, tables.root, flags)
    ensures t.Some? && old(tables.mem)[upper][index] == Empty ==>
              upper in tables.mem && tables.mem[upper][index] == Present(t.value, false, flags)
    ensures t.Some? ==> t.value in tables.mem && tables.plan.roles[t.value] == Sub(old(tables.plan).roles[upper], index)
    ensures forall w: nat :: Lookup(tables.mem, tables.root, w) == Lookup(old(tables.mem), tables.root, w)
  {
    hide Dynmem.Units, AddressesRight, BuddyBlocks.Valid, Lookup, Tree, PageTables.Frames;
    hide PageTables.Count, FramesOf, LinksKept;
    SameLinksKept(tables.mem, tables.root, flags);
    if tables.mem[upper][index].Present? {
      EntryTable(tables.mem, tables.root, tables.plan, upper, index);
      return Some(tables.mem[upper][index].frame), 0;
    }
    t, u := AllocFrame(m, buddy, tables);
    if t.Some? {
      tables.UseFrame(t.value, upper, index, flags);
    }
  }

  lemma InAll(n: nat, u: nat)
    requires u < n
    ensures u in Blocks.AllUnits(n)
  {
  }

  /** dynmem_dealloc_nolock of the page of a frame: its unit, which was not free, is. */
  method FreeFrame(m: seq<Dynmem.Span>, buddy: BuddyBlocks, frame: nat, ghost u: nat)
    requires buddy.Valid() && buddy.Aligned() && Dynmem.Normalised(m) && 0 <= FirstPage(buddy)
    requires u < buddy.units && u !in buddy.free && IsFrame(Dynmem.Units(m), buddy, u, frame)
    modifies buddy`free, buddy`used, buddy.bits, buddy.bitmaps
    ensures buddy.Valid() && buddy.free == old(buddy.free) + {u}
  {
    hide Dynmem.Units, BuddyBlocks.Encoded;
    OnePage();
    Dynmem.UnitsCover(m, frame);
    Dynmem.UnitsIncrease(m);
    var n := Dynmem.PhysToVirt(m, frame);
    assert n.value == FirstPage(buddy) + u;
    UnitPage(buddy, u);
    assert Blocks.Units(0, u) == {u};
    InAll(buddy.units, u);
    FreeByAddress(buddy, (512 + n.value) * 4096, 4096, 0, u);
  }

  lemma TableThere(mem: Memory, root: nat, plan: Plan, r: Role)
    requires Tree(mem, root, plan) && r in plan.at
    ensures plan.at[r] in mem
  {
  }

  lemma NotFree(pages: seq<nat>, first: nat, free: set<nat>, u: nat, pool: set<nat>, t: nat)
    requires pool == FramesOf(pages, first, free) && first + u < |pages| && pages[first + u] == t && t !in pool
    ensures u !in free
  {
  }

  /** pagetable_mmio_unmap's return of a table that is empty: its unit is free again. */
  method FreeIfEmpty(m: seq<Dynmem.Span>, buddy: BuddyBlocks, tables: PageTables, leaves: bool, upper: nat, index: nat,
                     t: nat, ghost v: nat, ghost l: nat, ghost u: nat)
    requires PoolKept(Dynmem.Units(m), buddy, tables) && Dynmem.Normalised(m)
    requires 1 <= l < 4 && RoleFor(v, l - 1) in tables.plan.at
    requires tables.plan.at[RoleFor(v, l - 1)] == upper && index == Index(v, l - 1)
    requires leaves ==> RoleFor(v, l) in tables.plan.at && tables.plan.at[RoleFor(v, l)] == t
    requires u < buddy.units && IsFrame(Dynmem.Units(m), buddy, u, t)
    modifies tables, buddy`free, buddy`used, buddy.bits, buddy.bitmaps
    ensures PoolKept(Dynmem.Units(m), buddy, tables) && tables.Frames() == old(tables.Frames())
    ensures buddy.free ==
            if leaves && EmptyTable(old(tables.mem)[t]) then old(buddy.free) + {u} else old(buddy.free)
    ensures u !in old(buddy.free) || !leaves
    ensures LinksGo(old(tables.mem), tables.mem, tables.root)
    ensures leaves ==> NoneOrInUse(tables.mem, tables.plan, v, l)
    ensures forall w: nat :: Lookup(tables.mem, tables.root, w) == Lookup(old(tables.mem), tables.root, w)
  {
    hide Dynmem.Units, BuddyBlocks.Valid, Lookup, Tree, PageTables.Frames, FramesOf, EmptyTable;
    hide LinksGo, Index, RoleFor, NoneOrInUse, Shrinks, GoneUnmapped, OffWalkSame;
    ghost var pages, first, free := Dynmem.Units(m), FirstPage(buddy), buddy.free;
    var empty := false;
    if leaves {
      TableThere(tables.mem, tables.root, tables.plan, RoleFor(v, l));
      NotFree(pages, first, free, u, tables.pool, t);
      FramesMore(pages, first, free, u);
      empty := tables.IsEmpty(t);
    }
    tables.FreeIfEmpty(leaves, upper, index, t, v, l);
    if empty {
      FreeFrame(m, buddy, t, u);
    }
  }
}
