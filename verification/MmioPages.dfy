/** pagetable_mmio_map and pagetable_mmio_unmap of kernel/src/arch/x86_64/memory.c.  Addresses are counted in
    pages of 4 KiB; a range [begin, end) lies below the last of the 2^36 virtual pages. */
module MmioPages {
  import opened Options
  import opened Paging
  import opened PageFreeing
  import opened PageIterators
  import opened PageRights
  import opened Pigeonhole

  lemma SmallPrefix(v: nat)
    requires v < 0x10_0000_0000
    ensures Prefix(v, 0) == 0
  {
    assert Prefix(v, 3) < 0x800_0000;
    assert Prefix(v, 2) < 0x4_0000;
    assert Prefix(v, 1) < 512;
  }

  /** Roles of the tables on the way to a page, and the page's digits. */
  lemma SameTable(v: nat, w: nat, l: nat)
    requires v < 0x10_0000_0000 && w < 0x10_0000_0000 && l < 4
    ensures RoleFor(v, l) == RoleFor(w, l) <==> Prefix(v, l) == Prefix(w, l)
  {
    if l == 0 {
      SmallPrefix(v);
      SmallPrefix(w);
    } else {
      SameTable(v, w, l - 1);
      assert Prefix(v, l) == 512 * Prefix(v, l - 1) + Index(v, l - 1);
      assert Prefix(w, l) == 512 * Prefix(w, l - 1) + Index(w, l - 1);
    }
  }

  /** The page v and everything under the same 2 MiB entry. */
  predicate InStep(v: nat, step: nat, w: nat)
  {
    v <= w < v + step
  }

  /** What the pages of one step are mapped to. */
  function StepMapping(step: nat, frame: nat, flags: Flags): Mapping
  {
    if step == 512 then Huge(frame, flags) else Small(frame, flags)
  }

  /** Page w of [begin, end) is mapped by a 2 MiB entry: its 2 MiB block lies in the range and has no page
      table yet. */
  predicate HugeBlock(mem: Memory, root: nat, begin: nat, end: nat, w: nat)
  {
    var block := w - w % 512;
    begin <= block && block + 512 <= end && TableAt(mem, root, block, 3).None?
  }

  /** What page w of [begin, end) becomes mapped to. */
  function RangeMapping(mem: Memory, root: nat, begin: nat, end: nat, phys: nat, flags: Flags, w: nat): Mapping
    requires begin <= w
  {
    if HugeBlock(mem, root, begin, end, w) then Huge(phys + (w - w % 512 - begin), flags)
    else Small(phys + (w - begin), flags)
  }

  lemma InBlock(v: nat, w: nat)
    requires v % 512 == 0 && v <= w < v + 512
    ensures w - w % 512 == v
  {
    assert w / 512 == v / 512;
  }

  lemma NextBlock(v: nat)
    requires v % 512 == 0
    ensures (v + 512) % 512 == 0 && (v + 512) / 512 == v / 512 + 1
  {
  }

  lemma Carry(x: nat, y: nat)
    requires x <= y <= x + 1
    ensures x / 512 <= y / 512 <= x / 512 + 1
    ensures x / 512 != y / 512 <==> x % 512 > y % 512
  {
  }

  lemma NextInBlock(v: nat)
    ensures (v + 1) % 512 != 0 ==> v + 1 - (v + 1) % 512 == v - v % 512
  {
    Carry(v, v + 1);
  }

  /** A step of the loop maps the pages it covers as the whole loop should. */
  lemma StepIsRange(mem: Memory, root: nat, begin: nat, end: nat, phys: nat, flags: Flags, v: nat, step: nat)
    requires begin <= v < end
    requires v % 512 != 0 ==> !HugeBlock(mem, root, begin, end, v)
    requires step == if v % 512 == 0 && 512 <= end - v && TableAt(mem, root, v, 3).None? then 512 else 1
    ensures forall w: nat | InStep(v, step, w) ::
              RangeMapping(mem, root, begin, end, phys, flags, w) == StepMapping(step, phys + (v - begin), flags)
    ensures (v + step) % 512 != 0 ==> !HugeBlock(mem, root, begin, end, v + step)
  {
    hide TableAt;
    if step == 512 {
      forall w: nat | InStep(v, step, w)
        ensures RangeMapping(mem, root, begin, end, phys, flags, w) == Huge(phys + (v - begin), flags)
      {
        InBlock(v, w);
      }
      NextBlock(v);
    } else {
      assert !HugeBlock(mem, root, begin, end, v);
      NextInBlock(v);
    }
  }

  lemma AtBegin(mem: Memory, root: nat, begin: nat, end: nat)
    ensures begin % 512 != 0 ==> !HugeBlock(mem, root, begin, end, begin)
  {
  }

  /** A 2 MiB entry that maps page w maps pages of [begin, end) only. */
  predicate HugeWithin(mem: Memory, root: nat, begin: nat, end: nat, w: nat)
  {
    Lookup(mem, root, w).Huge? ==> begin <= w - w % 512 && w - w % 512 + 512 <= end
  }

  /** A round of pagetable_mmio_unmap for page v meets no assertion: the page has a page table, whatever its entry,
      or begins a block that a 2 MiB entry maps. */
  predicate Clearable(mem: Memory, root: nat, v: nat)
  {
    TableAt(mem, root, v, 3).Some? || (Lookup(mem, root, v).Huge? && v % 512 == 0)
  }

  /** Unmapping from page begin on passes page w: it has a page table, or a 2 MiB entry maps it whose block does not
      begin before. */
  predicate Passes(mem: Memory, root: nat, begin: nat, w: nat)
  {
    TableAt(mem, root, w, 3).Some? || (Lookup(mem, root, w).Huge? && begin <= w - w % 512)
  }

  /** Where unmapping [begin, end) ends: past end, if a 2 MiB entry reaches beyond. */
  function UnmapEnd(mem: Memory, root: nat, begin: nat, end: nat): (stop: nat)
  {
    if end <= begin then begin
    else if Lookup(mem, root, end - 1).Huge? then (end - 1) / 512 * 512 + 512
    else end
  }

  lemma RootEntry(mem: Memory, root: nat, plan: Plan, i: nat)
    requires Tree(mem, root, plan) && i < 512
    ensures root in mem && plan.roles[root] == Root && (mem[root][i].Present? ==> !mem[root][i].huge)
  {
    assert EntryFits(mem, plan, root, i);
  }

  /** No 2 MiB entry above the third level. */
  lemma NotHuge(mem: Memory, root: nat, plan: Plan, f: nat, i: nat)
    requires Tree(mem, root, plan) && f in mem && i < 512 && Level(plan.roles[f]) < 2
    ensures mem[f][i].Present? ==> !mem[f][i].huge
  {
    assert EntryFits(mem, plan, f, i);
  }

  lemma FrameOfRole(mem: Memory, root: nat, plan: Plan, f: nat)
    requires Tree(mem, root, plan) && f in mem
    ensures f in plan.roles && plan.roles[f] in plan.at && plan.at[plan.roles[f]] == f
  {
  }

  /** The page table entry of a page that is not mapped. */
  lemma PtEntry(mem: Memory, root: nat, plan: Plan, v: nat)
    requires Tree(mem, root, plan) && RoleFor(v, 3) in plan.at && Lookup(mem, root, v) == Unmapped
    ensures EntryAt(mem, plan.at[RoleFor(v, 3)], Index(v, 3)) == Empty
  {
    LookupByRole(mem, root, plan, v);
  }

  /** The page directory entry of a page that is not mapped: empty, or a link to a page table. */
  lemma PdtEntry(mem: Memory, root: nat, plan: Plan, v: nat)
    requires Tree(mem, root, plan) && RoleFor(v, 2) in plan.at && Lookup(mem, root, v) == Unmapped
    ensures var e := EntryAt(mem, plan.at[RoleFor(v, 2)], Index(v, 2));
            && (e.Present? ==> !e.huge)
            && (e.Present? <==> RoleFor(v, 3) in plan.at)
  {
    LookupByRole(mem, root, plan, v);
    assert EntryFits(mem, plan, plan.at[RoleFor(v, 2)], Index(v, 2));
    if RoleFor(v, 3) in plan.at {
      assert Linked(mem, plan, RoleFor(v, 3));
    }
  }

  lemma TableElsewhere(mem0: Memory, plan0: Plan, mem: Memory, plan: Plan, root: nat, v: nat, w: nat)
    requires Tree(mem0, root, plan0) && Tree(mem, root, plan) && v < 0x10_0000_0000 && w < 0x10_0000_0000
    requires forall r | Level(r) == 3 && r != RoleFor(v, 3) :: r in plan.at <==> r in plan0.at
    requires w / 512 != v / 512
    ensures TableAt(mem, root, w, 3).None? <==> TableAt(mem0, root, w, 3).None?
  {
    SameBlock(v, w);
    TableByRole(mem, root, plan, w, 3);
    TableByRole(mem0, root, plan0, w, 3);
  }

  /** Only tables on the way to v were added, so other 2 MiB blocks have a page table as before. */
  lemma TablesElsewhere(mem0: Memory, plan0: Plan, mem: Memory, plan: Plan, root: nat, v: nat)
    requires Tree(mem0, root, plan0) && Tree(mem, root, plan) && v < 0x10_0000_0000
    requires forall r | Level(r) == 3 && r != RoleFor(v, 3) :: r in plan.at <==> r in plan0.at
    ensures forall w: nat | w < 0x10_0000_0000 && w / 512 != v / 512 ::
              TableAt(mem, root, w, 3).None? <==> TableAt(mem0, root, w, 3).None?
  {
    forall w: nat | w < 0x10_0000_0000 && w / 512 != v / 512
      ensures TableAt(mem, root, w, 3).None? <==> TableAt(mem0, root, w, 3).None?
    {
      TableElsewhere(mem0, plan0, mem, plan, root, v, w);
    }
  }

  /** The tables on the way to a mapped page. */
  lemma MappedWalk(mem: Memory, root: nat, plan: Plan, v: nat)
    requires Tree(mem, root, plan) && Lookup(mem, root, v) != Unmapped
    ensures RoleFor(v, 0) in plan.at && plan.at[RoleFor(v, 0)] == root
    ensures RoleFor(v, 1) in plan.at && RoleFor(v, 2) in plan.at && plan.at[RoleFor(v, 2)] in mem
    ensures plan.at[RoleFor(v, 2)] in plan.roles && plan.roles[plan.at[RoleFor(v, 2)]] == RoleFor(v, 2)
    ensures var e := mem[plan.at[RoleFor(v, 2)]][Index(v, 2)];
            e.Present? && (e.huge <==> Lookup(mem, root, v).Huge?) && (e.huge <==> RoleFor(v, 3) !in plan.at)
    ensures RoleFor(v, 3) in plan.at ==>
              var pt := plan.at[RoleFor(v, 3)];
              && pt in mem && pt in plan.roles && plan.roles[pt] == RoleFor(v, 3)
              && mem[pt][Index(v, 3)].Present? && !mem[pt][Index(v, 3)].huge
  {
    LookupByRole(mem, root, plan, v);
    if RoleFor(v, 3) in plan.at {
      WalkTables(mem, root, plan, v, 3);
      assert EntryFits(mem, plan, plan.at[RoleFor(v, 3)], Index(v, 3));
    } else {
      WalkTables(mem, root, plan, v, 2);
      assert EntryFits(mem, plan, plan.at[RoleFor(v, 2)], Index(v, 2));
    }
  }

  lemma ShrinkKeys(mem0: Memory, mem: Memory, root: nat, plan0: Plan, plan: Plan, v: nat)
    requires Tree(mem0, root, plan0) && Tree(mem, root, plan) && Shrinks(mem0, plan0, mem, plan, v)
    ensures mem.Keys <= mem0.Keys
  {
    forall f | f in mem.Keys
      ensures f in mem0.Keys
    {
      assert plan.roles[f] in plan0.at && plan0.at[plan.roles[f]] == f;
    }
  }

  /** Tables that are not on the way to v keep their contents. */
  lemma OthersSame(mem0: Memory, mem: Memory, root: nat, plan0: Plan, plan: Plan, v: nat)
    requires Tree(mem0, root, plan0) && Tree(mem, root, plan) && Shrinks(mem0, plan0, mem, plan, v)
    requires v < 0x10_0000_0000
    ensures forall u: nat, l: nat | u < 0x10_0000_0000 && l < 4 && Prefix(u, l) != Prefix(v, l) ::
              TableContents(mem, root, u, l) == TableContents(mem0, root, u, l)
  {
    forall u: nat, l: nat | u < 0x10_0000_0000 && l < 4 && Prefix(u, l) != Prefix(v, l)
      ensures TableContents(mem, root, u, l) == TableContents(mem0, root, u, l)
    {
      ContentsByRole(mem0, root, plan0, u, l);
      ContentsByRole(mem, root, plan, u, l);
      SameTable(u, v, l);
    }
  }

  lemma NoneIfHuge(mem0: Memory, plan0: Plan, mem: Memory, plan: Plan, v: nat)
    requires Shrinks(mem0, plan0, mem, plan, v) && RoleFor(v, 3) !in plan0.at
    ensures NoneOrInUse(mem, plan, v, 3)
  {
  }

  /** A table the walk has left is gone or in use. */
  lemma LeftInUse(mem: Memory, root: nat, plan: Plan, v: nat, next: nat)
    requires Tree(mem, root, plan)
    requires Prefix(v, 3) != Prefix(next, 3) ==> NoneOrInUse(mem, plan, v, 3)
    requires Prefix(v, 2) != Prefix(next, 2) ==> NoneOrInUse(mem, plan, v, 2)
    requires Prefix(v, 1) != Prefix(next, 1) ==> NoneOrInUse(mem, plan, v, 1)
    ensures forall l: nat | 1 <= l < 4 && Prefix(v, l) != Prefix(next, l) ::
              TableContents(mem, root, v, l) != Some(ZeroTable())
  {
    forall l: nat | 1 <= l < 4 && Prefix(v, l) != Prefix(next, l)
      ensures TableContents(mem, root, v, l) != Some(ZeroTable())
    {
      ContentsByRole(mem, root, plan, v, l);
      assert EmptyTable(ZeroTable());
      assert l == 1 || l == 2 || l == 3;
    }
  }

  lemma Carries(v: nat, step: nat)
    requires step == 1 || (step == 512 && v % 512 == 0)
    ensures step == 1 ==> (v / 512 != (v + step) / 512 <==> v % 512 > (v + step) % 512)
    ensures step == 512 ==> (v + step) % 512 == v % 512
    ensures v / 512 / 512 != (v + step) / 512 / 512 <==> v / 512 % 512 > (v + step) / 512 % 512
    ensures v / 512 / 512 / 512 != (v + step) / 512 / 512 / 512 <==>
              v / 512 / 512 % 512 > (v + step) / 512 / 512 % 512
  {
    if step == 1 {
      Carry(v, v + 1);
    } else {
      NextBlock(v);
    }
    Carry(v / 512, (v + step) / 512);
    Carry(v / 512 / 512, (v + step) / 512 / 512);
  }

  /** The source compares the iterators' indices to see which tables it leaves. */
  lemma Leaves(it: PageIterator, next: PageIterator, v: nat, step: nat)
    requires v + step < 0x10_0000_0000 && it == FromVirt(v) && next == FromVirt(v + step)
    requires step == 1 || (step == 512 && v % 512 == 0)
    ensures step == 1 ==> (Prefix(v, 3) != Prefix(v + step, 3) <==> it.ptei > next.ptei)
    ensures step == 512 ==> !(it.ptei > next.ptei)
    ensures Prefix(v, 2) != Prefix(v + step, 2) <==> it.pdti > next.pdti
    ensures Prefix(v, 1) != Prefix(v + step, 1) <==> it.pdpi > next.pdpi
  {
    hide FromVirt, Prefix, Index, PageOf, Digits;
    FromVirtDigits(v);
    FromVirtDigits(v + step);
    IndexIsDigit(v);
    IndexIsDigit(v + step);
    Carries(v, step);
  }

  /** A 2 MiB entry maps all pages of its block alike. */
  lemma HugeAlike(mem: Memory, root: nat, plan: Plan, v: nat, w: nat)
    requires Tree(mem, root, plan) && v < 0x10_0000_0000 && w < 0x10_0000_0000 && v / 512 == w / 512
    ensures Lookup(mem, root, v).Huge? <==> Lookup(mem, root, w).Huge?
  {
    LookupByRole(mem, root, plan, v);
    LookupByRole(mem, root, plan, w);
    SameBlock(v, w);
  }

  lemma SamePrefix(v: nat, u: nat, l: nat)
    requires u / 512 == v / 512 && 1 <= l < 4
    ensures Prefix(u, l) == Prefix(v, l)
  {
    IndexIsDigit(u);
    IndexIsDigit(v);
  }

  /** No empty table stays behind the loop. */
  ghost predicate TidyUpTo(mem: Memory, root: nat, begin: nat, v: nat)
  {
    forall u: nat, l: nat | begin <= u < v && 1 <= l < 4 && Prefix(u, l) != Prefix(v, l) ::
      TableContents(mem, root, u, l) != Some(ZeroTable())
  }

  lemma TidyYet(mem: Memory, root: nat, begin: nat)
    ensures TidyUpTo(mem, root, begin, begin)
  {
  }

  lemma TidyIs(mem: Memory, root: nat, begin: nat, v: nat)
    requires TidyUpTo(mem, root, begin, v)
    ensures forall u: nat, l: nat | begin <= u < v && 1 <= l < 4 && Prefix(u, l) != Prefix(v, l) ::
              TableContents(mem, root, u, l) != Some(ZeroTable())
  {
  }

  lemma TidyStep(mem0: Memory, mem: Memory, root: nat, begin: nat, v: nat, step: nat)
    requires v + step < 0x10_0000_0000 && (step == 1 || (step == 512 && v % 512 == 0))
    requires TidyUpTo(mem0, root, begin, v)
    requires forall u: nat, l: nat | u < 0x10_0000_0000 && l < 4 && Prefix(u, l) != Prefix(v, l) ::
               TableContents(mem, root, u, l) == TableContents(mem0, root, u, l)
    requires forall l: nat | 1 <= l < 4 && Prefix(v, l) != Prefix(v + step, l) ::
               TableContents(mem, root, v, l) != Some(ZeroTable())
    ensures TidyUpTo(mem, root, begin, v + step)
  {
    hide Prefix, TableAt;
    forall u: nat, l: nat | begin <= u < v + step && 1 <= l < 4 && Prefix(u, l) != Prefix(v + step, l)
      ensures TableContents(mem, root, u, l) != Some(ZeroTable())
    {
      if Prefix(u, l) == Prefix(v, l) {
        TableByPrefix(mem, root, u, v, l);
      } else if v <= u {
        SamePrefix(v, u, l);
        assert false;
      }
    }
  }

  /** The 2 MiB entries of a mapped range lie inside it. */
  lemma RangeWithin(mem: Memory, root: nat, begin: nat, end: nat, phys: nat, flags: Flags, w: nat)
    requires begin <= w < end
    ensures var m := RangeMapping(mem, root, begin, end, phys, flags, w);
            m != Unmapped && (m.Huge? ==> begin <= w - w % 512 && w - w % 512 + 512 <= end)
  {
  }

  lemma NoneGone(mem: Memory, root: nat, plan: Plan)
    ensures GoneUnmapped(mem, root, plan, plan)
  {
  }

  lemma OnlyOldRoles(plan0: Plan, mem: Memory, plan: Plan, mem1: Memory, v: nat)
    requires Shrinks(mem1, plan0, mem, plan, v)
    ensures forall r | r in plan.at :: r in plan0.at
  {
  }

  /** Clearing the page's own entry first makes no difference to the others. */
  lemma GaveBackBefore(mem0: Memory, mem1: Memory, plan0: Plan, plan: Plan, v: nat)
    requires GaveBack(mem1, plan0, plan, v) && OffWalkSame(mem0, plan0, mem1, plan0, v)
    ensures GaveBack(mem0, plan0, plan, v)
  {
  }

  lemma NoneGiven(mem: Memory, plan: Plan, v: nat)
    ensures GaveBack(mem, plan, plan, v)
  {
  }

  // ---------- what unmapping passes ----------

  /** Pages that are mapped, by entries that map no other, are passed, and nothing beyond is cleared. */
  lemma MappedPasses(mem: Memory, root: nat, plan: Plan, begin: nat, end: nat)
    requires Tree(mem, root, plan) && end <= 0x10_0000_0000
    requires forall w: nat | begin <= w < end ::
               Lookup(mem, root, w) != Unmapped && HugeWithin(mem, root, begin, end, w)
    ensures forall w: nat | begin <= w < end :: Passes(mem, root, begin, w)
    ensures UnmapEnd(mem, root, begin, end) == if begin < end then end else begin
  {
    hide Tree, Lookup, TableAt;
    forall w: nat | begin <= w < end
      ensures Passes(mem, root, begin, w)
    {
      MappedWalk(mem, root, plan, w);
      TableByRole(mem, root, plan, w, 3);
    }
    if begin < end {
      assert HugeWithin(mem, root, begin, end, end - 1);
    }
  }

  lemma NotClearable(mem: Memory, root: nat, plan: Plan, v: nat)
    requires Tree(mem, root, plan)
    requires RoleFor(v, 2) in plan.at ==>
               && RoleFor(v, 3) !in plan.at
               && (EntryAt(mem, plan.at[RoleFor(v, 2)], Index(v, 2)) == Empty || v % 512 != 0)
    ensures !Clearable(mem, root, v)
  {
    TableByRole(mem, root, plan, v, 3);
    LookupByRole(mem, root, plan, v);
    ParentPresent(mem, root, plan, RoleFor(v, 3));
  }

  lemma TableNotHuge(mem: Memory, root: nat, plan: Plan, v: nat)
    requires Tree(mem, root, plan)
    ensures TableAt(mem, root, v, 3).Some? ==> !Lookup(mem, root, v).Huge?
  {
    TableByRole(mem, root, plan, v, 3);
    LookupByRole(mem, root, plan, v);
  }

  lemma TableClearable(mem: Memory, root: nat, plan: Plan, v: nat)
    requires Tree(mem, root, plan) && RoleFor(v, 3) in plan.at
    ensures Clearable(mem, root, v) && !Lookup(mem, root, v).Huge?
  {
    TableByRole(mem, root, plan, v, 3);
    LookupByRole(mem, root, plan, v);
  }

  /** A page table's entries are not 2 MiB entries. */
  lemma SmallHere(mem: Memory, root: nat, plan: Plan, v: nat)
    requires Tree(mem, root, plan) && RoleFor(v, 3) in plan.at
    ensures EntryAt(mem, plan.at[RoleFor(v, 3)], Index(v, 3)).Present? ==>
              !EntryAt(mem, plan.at[RoleFor(v, 3)], Index(v, 3)).huge
  {
    assert EntryFits(mem, plan, plan.at[RoleFor(v, 3)], Index(v, 3));
  }

  lemma BlockClearable(mem: Memory, root: nat, plan: Plan, v: nat)
    requires Tree(mem, root, plan) && RoleFor(v, 2) in plan.at && plan.at[RoleFor(v, 2)] in mem
    requires var e := mem[plan.at[RoleFor(v, 2)]][Index(v, 2)]; e.Present? && e.huge
    ensures Lookup(mem, root, v).Huge? && RoleFor(v, 3) !in plan.at
    ensures v % 512 == 0 ==> Clearable(mem, root, v)
  {
    LookupByRole(mem, root, plan, v);
    NoTableYet(mem, root, plan, plan.at[RoleFor(v, 2)], Index(v, 2));
  }

  /** Beyond the pages of a round the same pages have a page table as before. */
  lemma TablesBeyond(mem0: Memory, plan0: Plan, mem: Memory, plan: Plan, root: nat, v: nat, step: nat)
    requires Tree(mem0, root, plan0) && Tree(mem, root, plan) && v + step < 0x10_0000_0000
    requires step == 1 || (step == 512 && v % 512 == 0)
    requires (forall r | r in plan.at :: r in plan0.at) && GaveBack(mem0, plan0, plan, v)
    requires Prefix(v, 3) == Prefix(v + step, 3) ==> forall r | r in plan0.at && Level(r) == 3 :: r in plan.at
    ensures forall w: nat | v + step <= w < 0x10_0000_0000 ::
              TableAt(mem, root, w, 3).None? <==> TableAt(mem0, root, w, 3).None?
  {
    hide Tree, TableAt, EmptyOffWalk;
    forall w: nat | v + step <= w < 0x10_0000_0000
      ensures TableAt(mem, root, w, 3).None? <==> TableAt(mem0, root, w, 3).None?
    {
      TableByRole(mem, root, plan, w, 3);
      TableByRole(mem0, root, plan0, w, 3);
      SameTable(w, v, 3);
      IndexIsDigit(v);
      IndexIsDigit(w);
      IndexIsDigit(v + step);
    }
  }

  /** Between rounds, from mem0, the pages from begin up to v are cleared. */
  ghost predicate ClearedUpTo(mem0: Memory, mem: Memory, root: nat, begin: nat, end: nat, v: nat)
  {
    && (forall w: nat | w < 0x10_0000_0000 ::
          Lookup(mem, root, w) == if begin <= w < v then Unmapped else Lookup(mem0, root, w))
    && (forall w: nat | v <= w < 0x10_0000_0000 ::
          TableAt(mem, root, w, 3).None? <==> TableAt(mem0, root, w, 3).None?)
    && (forall w: nat | begin <= w < v :: Passes(mem0, root, begin, w))
    && (v % 512 != 0 && begin <= v - v % 512 && v < 0x10_0000_0000 ==> !Lookup(mem0, root, v).Huge?)
    && (v <= end || v == begin || (v % 512 == 0 && v < end + 512 && Lookup(mem0, root, v - 512).Huge?))
  }

  lemma NothingCleared(mem: Memory, root: nat, begin: nat, end: nat)
    ensures ClearedUpTo(mem, mem, root, begin, end, begin)
  {
    hide Lookup, TableAt;
  }

  lemma UpTo(mem0: Memory, mem: Memory, root: nat, begin: nat, end: nat, v: nat)
    requires ClearedUpTo(mem0, mem, root, begin, end, v)
    ensures forall w: nat | w < 0x10_0000_0000 ::
              Lookup(mem, root, w) == if begin <= w < v then Unmapped else Lookup(mem0, root, w)
    ensures forall w: nat | begin <= w < v :: Passes(mem0, root, begin, w)
  {
    hide Lookup, TableAt;
  }

  /** What a round meets, and what it clears. */
  lemma RoundMeets(mem0: Memory, plan0: Plan, mem: Memory, root: nat, begin: nat, end: nat, v: nat)
    requires Tree(mem0, root, plan0) && ClearedUpTo(mem0, mem, root, begin, end, v)
    requires begin <= v < end < 0x10_0000_0000
    requires end <= 0xF_FFFF_FE00 || !Lookup(mem0, root, end - 1).Huge?
    ensures Clearable(mem, root, v) <==> Passes(mem0, root, begin, v)
    ensures Lookup(mem, root, v) == Lookup(mem0, root, v)
    ensures Lookup(mem, root, v).Huge? && v % 512 == 0 ==> v + 512 < 0x10_0000_0000
  {
    hide Tree, Lookup, TableAt;
    if v == 0xF_FFFF_FE00 {
      HugeAlike(mem0, root, plan0, v, end - 1);
    }
  }

  lemma RoundClears(mem0: Memory, plan0: Plan, mem1: Memory, mem: Memory, root: nat, begin: nat, end: nat, v: nat,
                    step: nat)
    requires Tree(mem0, root, plan0) && ClearedUpTo(mem0, mem1, root, begin, end, v) && begin <= v < end
    requires v + step < 0x10_0000_0000 && Passes(mem0, root, begin, v)
    requires step == if Lookup(mem1, root, v).Huge? then 512 else 1
    requires step == 512 ==> v % 512 == 0
    requires forall w: nat | w < 0x10_0000_0000 ::
               Lookup(mem, root, w) == if InStep(v, step, w) then Unmapped else Lookup(mem1, root, w)
    requires forall w: nat | v + step <= w < 0x10_0000_0000 ::
               TableAt(mem, root, w, 3).None? <==> TableAt(mem1, root, w, 3).None?
    ensures ClearedUpTo(mem0, mem, root, begin, end, v + step)
  {
    hide Tree, Lookup, TableAt;
    forall w: nat | begin <= w < v + step
      ensures Passes(mem0, root, begin, w)
    {
      if step == 512 && v <= w {
        HugeAlike(mem0, root, plan0, v, w);
      }
    }
    if (v + step) % 512 != 0 {
      HugeAlike(mem0, root, plan0, v, v + 1);
    }
  }

  lemma BlockEnd(end: nat, v: nat)
    requires v % 512 == 0 && end <= v < end + 512 && 0 < end
    ensures v >= 512 && (end - 1) / 512 * 512 + 512 == v && (v - 512) / 512 == (end - 1) / 512
  {
    assert v == 512 * (v / 512);
  }

  /** Where the loop ends. */
  lemma LoopEnds(mem0: Memory, plan0: Plan, mem: Memory, root: nat, begin: nat, end: nat, v: nat)
    requires Tree(mem0, root, plan0) && ClearedUpTo(mem0, mem, root, begin, end, v)
    requires end <= v && end < 0x10_0000_0000 && if begin < end then begin <= v else v == begin
    ensures v == UnmapEnd(mem0, root, begin, end)
    ensures forall w: nat | begin <= w < end :: Passes(mem0, root, begin, w)
  {
    hide Tree, Lookup, TableAt;
    if begin < end {
      assert Passes(mem0, root, begin, end - 1);
      if v == end {
        TableNotHuge(mem0, root, plan0, end - 1);
        if end % 512 == 0 {
          BlockEnd(end, v);
        } else {
          assert end - end % 512 == end - 1 - (end - 1) % 512;
          HugeAlike(mem0, root, plan0, end, end - 1);
        }
      } else {
        BlockEnd(end, v);
        HugeAlike(mem0, root, plan0, v - 512, end - 1);
      }
    }
  }

  // ---------- how many tables a range needs ----------

  /** The tables that mapping page w of [begin, end) uses, beside the root table: no page table where a 2 MiB entry
      maps it. */
  ghost function NeededFor(mem: Memory, root: nat, begin: nat, end: nat, w: nat): set<Role>
  {
    {RoleFor(w, 1), RoleFor(w, 2)} + if HugeBlock(mem, root, begin, end, w) then {} else {RoleFor(w, 3)}
  }

  /** The tables that mapping the pages from begin up to, not including, upto uses. */
  ghost function Needed(mem: Memory, root: nat, begin: nat, end: nat, upto: nat): set<Role>
    decreases upto
  {
    if upto <= begin then {}
    else Needed(mem, root, begin, end, upto - 1) + NeededFor(mem, root, begin, end, upto - 1)
  }

  lemma {:induction false} NeededHas(mem: Memory, root: nat, begin: nat, end: nat, upto: nat, w: nat)
    requires begin <= w < upto
    ensures NeededFor(mem, root, begin, end, w) <= Needed(mem, root, begin, end, upto)
    decreases upto
  {
    hide NeededFor;
    if w == upto - 1 {
    } else {
      NeededHas(mem, root, begin, end, upto - 1, w);
    }
  }

  lemma NeededMore(mem: Memory, root: nat, begin: nat, end: nat, upto: nat)
    requires begin < upto
    ensures Needed(mem, root, begin, end, upto) ==
            Needed(mem, root, begin, end, upto - 1) + NeededFor(mem, root, begin, end, upto - 1)
  {
  }

  lemma NeededForSize(mem: Memory, root: nat, begin: nat, end: nat, w: nat)
    ensures |NeededFor(mem, root, begin, end, w)| <= 3
  {
    var s: set<Role> := if HugeBlock(mem, root, begin, end, w) then {} else {RoleFor(w, 3)};
    hide HugeBlock, RoleFor;
    UnionAtMost({RoleFor(w, 1)}, {RoleFor(w, 2)});
    assert {RoleFor(w, 1)} + {RoleFor(w, 2)} == {RoleFor(w, 1), RoleFor(w, 2)};
    UnionAtMost({RoleFor(w, 1), RoleFor(w, 2)}, s);
  }

  lemma NeededNone(mem: Memory, root: nat, begin: nat, end: nat)
    ensures Needed(mem, root, begin, end, begin) == {}
    ensures end <= begin ==> Needed(mem, root, begin, end, end) == {}
  {
  }

  /** At most three for each page. */
  lemma {:induction false} NeededSize(mem: Memory, root: nat, begin: nat, end: nat, upto: nat)
    requires begin <= upto
    ensures |Needed(mem, root, begin, end, upto)| <= 3 * (upto - begin)
    decreases upto
  {
    hide Needed, NeededFor;
    if upto == begin {
      NeededNone(mem, root, begin, end);
    } else {
      NeededMore(mem, root, begin, end, upto);
      NeededSize(mem, root, begin, end, upto - 1);
      NeededForSize(mem, root, begin, end, upto - 1);
      UnionAtMost(Needed(mem, root, begin, end, upto - 1), NeededFor(mem, root, begin, end, upto - 1));
    }
  }

  lemma SameDirectories(v: nat, w: nat)
    requires RoleFor(v, 2) == RoleFor(w, 2)
    ensures RoleFor(v, 1) == RoleFor(w, 1)
  {
    assert RoleFor(v, 2).parent == RoleFor(v, 1) && RoleFor(w, 2).parent == RoleFor(w, 1);
  }

  lemma SameNeeded(mem: Memory, root: nat, begin: nat, end: nat, v: nat, w: nat)
    requires v <= w < v + 512 && w < 0x10_0000_0000 && v % 512 == 0 && HugeBlock(mem, root, begin, end, v)
    ensures NeededFor(mem, root, begin, end, w) == NeededFor(mem, root, begin, end, v)
  {
    assert w - w % 512 == v && v - v % 512 == v && v / 512 == w / 512;
    SameBlock(v, w);
    SameDirectories(v, w);
  }

  /** The pages of a step use the tables of its first page. */
  lemma {:induction false} NeededStep(mem: Memory, root: nat, begin: nat, end: nat, v: nat, step: nat)
    requires begin <= v && v + step <= end < 0x10_0000_0000 && 0 < step && (step == 1 || v % 512 == 0) && step <= 512
    requires step > 1 ==> HugeBlock(mem, root, begin, end, v)
    ensures Needed(mem, root, begin, end, v + step) ==
            Needed(mem, root, begin, end, v) + NeededFor(mem, root, begin, end, v)
    decreases step
  {
    hide NeededFor;
    if step == 1 {
    } else {
      NeededStep(mem, root, begin, end, v, step - 1);
      SameNeeded(mem, root, begin, end, v, v + step - 1);
    }
  }

  /** There are as many frames as tables that mapping [begin, end) uses are missing from `at`. */
  ghost predicate Suffices(mem: Memory, root: nat, at: set<Role>, frames: nat, begin: nat, end: nat)
  {
    |Needed(mem, root, begin, end, end) - at| <= frames
  }

  /** Mapping page w of [begin, end) uses a table of level l. */
  predicate NeedsTable(mem: Memory, root: nat, begin: nat, end: nat, w: nat, l: nat)
  {
    l == 1 || l == 2 || (l == 3 && !HugeBlock(mem, root, begin, end, w))
  }

  /** A table that page w needs and that the walk to the page does not meet. */
  ghost predicate Misses(mem: Memory, root: nat, begin: nat, end: nat, w: nat, r: Role)
  {
    exists l: nat | l < 4 ::
      NeedsTable(mem, root, begin, end, w, l) && r == RoleFor(w, l) && TableAt(mem, root, w, l).None?
  }

  lemma MissesFor(mem: Memory, root: nat, plan: Plan, begin: nat, end: nat, w: nat, r: Role)
    requires Tree(mem, root, plan) && w < 0x10_0000_0000
    ensures r in NeededFor(mem, root, begin, end, w) && r !in plan.at <==> Misses(mem, root, begin, end, w, r)
  {
    hide Tree, HugeBlock, TableAt, RoleFor;
    TableByRole(mem, root, plan, w, 1);
    TableByRole(mem, root, plan, w, 2);
    TableByRole(mem, root, plan, w, 3);
    assert NeedsTable(mem, root, begin, end, w, 1) && NeedsTable(mem, root, begin, end, w, 2);
    assert NeedsTable(mem, root, begin, end, w, 3) <==> !HugeBlock(mem, root, begin, end, w);
  }

  /** The missing tables are those that some page of the range misses. */
  lemma {:induction false} MissingTable(mem: Memory, root: nat, plan: Plan, begin: nat, end: nat, upto: nat, r: Role)
    requires Tree(mem, root, plan) && upto < 0x10_0000_0000
    ensures r in Needed(mem, root, begin, end, upto) - plan.at.Keys <==>
            exists w: nat | begin <= w < upto :: Misses(mem, root, begin, end, w, r)
    decreases upto
  {
    hide Tree, NeededFor, Misses;
    if upto > begin {
      MissingTable(mem, root, plan, begin, end, upto - 1, r);
      MissesFor(mem, root, plan, begin, end, upto - 1, r);
    }
  }

  /** Three frames a page are always enough. */
  lemma SufficesAlways(mem: Memory, root: nat, at: set<Role>, frames: nat, begin: nat, end: nat)
    requires begin <= end && frames >= 3 * (end - begin)
    ensures Suffices(mem, root, at, frames, begin, end)
  {
    hide Needed;
    NeededSize(mem, root, begin, end, end);
    SubsetSize(Needed(mem, root, begin, end, end) - at, Needed(mem, root, begin, end, end));
  }

  /** Two frames are enough for a block of 2 MiB that has no page table. */
  lemma SufficesBlock(mem: Memory, root: nat, at: set<Role>, frames: nat, v: nat)
    requires v % 512 == 0 && v + 512 < 0x10_0000_0000 && TableAt(mem, root, v, 3).None? && frames >= 2
    ensures Suffices(mem, root, at, frames, v, v + 512)
  {
    hide TableAt, RoleFor;
    assert HugeBlock(mem, root, v, v + 512, v);
    NeededNone(mem, root, v, v + 512);
    NeededStep(mem, root, v, v + 512, v, 512);
    UnionAtMost({RoleFor(v, 1)}, {RoleFor(v, 2)});
    assert {RoleFor(v, 1)} + {RoleFor(v, 2)} == {RoleFor(v, 1), RoleFor(v, 2)};
    SubsetSize(Needed(mem, root, v, v + 512, v + 512) - at, {RoleFor(v, 1), RoleFor(v, 2)});
  }

  /** Tables that were not there, made from frames of a pool. */
  lemma FramesLeft(at0: set<Role>, pool0: nat, at: set<Role>, pool: nat, needed: set<Role>)
    requires at == at0 + needed && |at| + pool == |at0| + pool0
    ensures |needed - at0| <= pool0 && pool == pool0 - |needed - at0|
  {
    assert at == at0 + (needed - at0);
    DisjointUnionSize(at0, needed - at0);
  }

  lemma FrameMoves(tables: set<nat>, pool: set<nat>, f: nat, at: set<Role>, r: Role)
    requires f in pool && r !in at && tables !! pool
    ensures (tables + {f}) + (pool - {f}) == tables + pool && tables + {f} !! pool - {f}
    ensures |at + {r}| + |pool - {f}| == |at| + |pool|
  {
    DisjointUnionSize(at, {r});
    assert pool == (pool - {f}) + {f};
    DisjointUnionSize(pool - {f}, {f});
  }

  lemma MoreKeys(plan: Plan, r: Role, f: nat)
    requires r !in plan.at
    ensures var more := PlanWith(plan, r, f);
            && more.at.Keys == plan.at.Keys + {r} && f in more.roles && more.roles[f] == r
            && forall r' | r' in plan.at :: r' in more.at && more.at[r'] == plan.at[r']
  {
  }

  lemma FramesShort(at0: set<Role>, pool0: nat, at: set<Role>, needed: set<Role>, r: Role)
    requires at0 <= at <= at0 + needed && |at| == |at0| + pool0 && r in needed && r !in at
    ensures |needed - at0| > pool0
  {
    var more := at - at0;
    assert at == at0 + more;
    DisjointUnionSize(at0, more);
    assert r !in more;
    DisjointUnionSize(more, {r});
    SubsetSize(more + {r}, needed - at0);
  }

  lemma {:induction false} NeededGrows(mem: Memory, root: nat, begin: nat, end: nat, v: nat, upto: nat)
    requires begin <= v <= upto
    ensures Needed(mem, root, begin, end, v) <= Needed(mem, root, begin, end, upto)
    decreases upto
  {
    hide NeededFor;
    if upto == v {
    } else {
      NeededGrows(mem, root, begin, end, v, upto - 1);
    }
  }

  /** The size of the next step of the loop. */
  predicate IsStep(mem: Memory, root: nat, end: nat, v: nat, step: nat)
  {
    step == if v % 512 == 0 && v + 512 <= end && TableAt(mem, root, v, 3).None? then 512 else 1
  }

  /** The tables of one step of the loop. */
  lemma StepNeeds(mem: Memory, root: nat, begin: nat, end: nat, v: nat, step: nat)
    requires begin <= v < end && IsStep(mem, root, end, v, step)
    requires v % 512 != 0 ==> !HugeBlock(mem, root, begin, end, v)
    ensures NeededFor(mem, root, begin, end, v) ==
            {RoleFor(v, 1), RoleFor(v, 2)} + if step == 512 then {} else {RoleFor(v, 3)}
    ensures v + step <= end && (step == 1 || (step == 512 && v % 512 == 0 && HugeBlock(mem, root, begin, end, v)))
  {
    hide TableAt;
  }

  /** From at0 to at the tables for the pages before `upto` were made. */
  ghost predicate TablesUpTo(mem: Memory, root: nat, begin: nat, end: nat, upto: nat, at0: set<Role>, at: set<Role>)
  {
    at == at0 + Needed(mem, root, begin, end, upto)
  }

  lemma NoTablesYet(mem: Memory, root: nat, begin: nat, end: nat, at0: set<Role>)
    ensures TablesUpTo(mem, root, begin, end, begin, at0, at0)
  {
    NeededNone(mem, root, begin, end);
  }

  lemma EnoughFrames(mem: Memory, root: nat, begin: nat, end: nat, upto: nat, at0: set<Role>, pool0: nat,
                     at: set<Role>, pool: nat)
    requires TablesUpTo(mem, root, begin, end, upto, at0, at) && |at| + pool == |at0| + pool0
    requires upto == if begin < end then end else begin
    ensures Suffices(mem, root, at0, pool0, begin, end)
  {
    NeededNone(mem, root, begin, end);
    FramesLeft(at0, pool0, at, pool, Needed(mem, root, begin, end, upto));
  }

  /** From at1 to at the tables of a step of the loop were made. */
  ghost predicate TookTables(at1: set<Role>, at: set<Role>, v: nat, step: nat)
  {
    at == at1 + {RoleFor(v, 1), RoleFor(v, 2)} + if step == 512 then {} else {RoleFor(v, 3)}
  }

  /** Or some of them, and one is still missing. */
  ghost predicate LacksTable(at1: set<Role>, at: set<Role>, v: nat, step: nat)
  {
    && at1 <= at <= at1 + {RoleFor(v, 1), RoleFor(v, 2)}
    && (RoleFor(v, 2) !in at || (step == 1 && RoleFor(v, 3) !in at))
  }

  lemma Stepped(mem: Memory, root: nat, begin: nat, end: nat, v: nat, step: nat, at0: set<Role>, at1: set<Role>,
                at: set<Role>)
    requires begin <= v < end < 0x10_0000_0000 && IsStep(mem, root, end, v, step)
    requires v % 512 != 0 ==> !HugeBlock(mem, root, begin, end, v)
    requires TablesUpTo(mem, root, begin, end, v, at0, at1)
    requires TookTables(at1, at, v, step)
    ensures TablesUpTo(mem, root, begin, end, v + step, at0, at)
  {
    hide Needed, HugeBlock, TableAt, IsStep;
    StepNeeds(mem, root, begin, end, v, step);
    hide NeededFor;
    NeededStep(mem, root, begin, end, v, step);
  }

  /** From mem0 to mem the pages before `upto` are mapped, and the blocks beyond have page tables as before. */
  ghost predicate MappedUpTo(mem0: Memory, mem: Memory, root: nat, begin: nat, end: nat, phys: nat, flags: Flags,
                             upto: nat)
  {
    && (forall w: nat | w < 0x10_0000_0000 ::
          Lookup(mem, root, w) ==
          if begin <= w < upto then RangeMapping(mem0, root, begin, end, phys, flags, w) else Lookup(mem0, root, w))
    && (forall w: nat | upto <= w < end && w % 512 == 0 ::
          TableAt(mem, root, w, 3).None? <==> TableAt(mem0, root, w, 3).None?)
    && (upto % 512 != 0 ==> !HugeBlock(mem0, root, begin, end, upto))
  }

  lemma NothingYet(mem: Memory, root: nat, begin: nat, end: nat, phys: nat, flags: Flags)
    ensures MappedUpTo(mem, mem, root, begin, end, phys, flags, begin)
  {
    hide TableAt, Lookup;
    AtBegin(mem, root, begin, end);
  }

  lemma StillUnmapped(mem0: Memory, mem: Memory, root: nat, begin: nat, end: nat, phys: nat, flags: Flags, v: nat)
    requires MappedUpTo(mem0, mem, root, begin, end, phys, flags, v) && v < 0x10_0000_0000
    ensures Lookup(mem, root, v) == Lookup(mem0, root, v)
  {
    hide TableAt, Lookup, HugeBlock;
  }

  lemma AllMapped(mem0: Memory, mem: Memory, root: nat, begin: nat, end: nat, phys: nat, flags: Flags, upto: nat)
    requires MappedUpTo(mem0, mem, root, begin, end, phys, flags, upto)
    ensures forall w: nat | w < 0x10_0000_0000 ::
              Lookup(mem, root, w) ==
              if begin <= w < upto then RangeMapping(mem0, root, begin, end, phys, flags, w) else Lookup(mem0, root, w)
  {
    hide TableAt, Lookup, HugeBlock, RangeMapping;
  }

  /** One round of the loop maps the pages of its step, or none. */
  lemma RoundMaps(mem0: Memory, mem1: Memory, mem: Memory, root: nat, begin: nat, end: nat, phys: nat, flags: Flags,
                  v: nat, step: nat)
    requires MappedUpTo(mem0, mem1, root, begin, end, phys, flags, v) && begin <= v < end
    requires step == if v % 512 == 0 && 512 <= end - v && TableAt(mem1, root, v, 3).None? then 512 else 1
    requires forall w: nat | w < 0x10_0000_0000 ::
               Lookup(mem, root, w) ==
               if InStep(v, step, w) then StepMapping(step, phys + (v - begin), flags) else Lookup(mem1, root, w)
    requires forall w: nat | w < 0x10_0000_0000 && w / 512 != v / 512 ::
               TableAt(mem, root, w, 3).None? <==> TableAt(mem1, root, w, 3).None?
    requires end < 0x10_0000_0000
    ensures MappedUpTo(mem0, mem, root, begin, end, phys, flags, v + step)
    ensures IsStep(mem0, root, end, v, step) && (v % 512 != 0 ==> !HugeBlock(mem0, root, begin, end, v))
  {
    hide TableAt, Lookup, HugeBlock, RangeMapping, StepMapping;
    StepIsRange(mem0, root, begin, end, phys, flags, v, step);
  }

  lemma RoundFaults(mem0: Memory, mem1: Memory, mem: Memory, root: nat, begin: nat, end: nat, phys: nat, flags: Flags,
                    v: nat, step: nat)
    requires MappedUpTo(mem0, mem1, root, begin, end, phys, flags, v) && begin <= v < end
    requires forall w: nat | w < 0x10_0000_0000 :: Lookup(mem, root, w) == Lookup(mem1, root, w)
    ensures forall w: nat | w < 0x10_0000_0000 ::
              Lookup(mem, root, w) ==
              if begin <= w < v then RangeMapping(mem0, root, begin, end, phys, flags, w) else Lookup(mem0, root, w)
    ensures v % 512 != 0 ==> !HugeBlock(mem0, root, begin, end, v)
    ensures step == (if v % 512 == 0 && 512 <= end - v && TableAt(mem1, root, v, 3).None? then 512 else 1) ==>
              IsStep(mem0, root, end, v, step)
  {
    hide TableAt, Lookup, HugeBlock, RangeMapping;
  }

  lemma Faulted(mem: Memory, root: nat, begin: nat, end: nat, v: nat, step: nat, at0: set<Role>, pool0: nat,
                at1: set<Role>, at: set<Role>)
    requires begin <= v < end && (v % 512 != 0 ==> !HugeBlock(mem, root, begin, end, v))
    requires TablesUpTo(mem, root, begin, end, v, at0, at1)
    requires LacksTable(at1, at, v, step) && |at| == |at0| + pool0
    requires RoleFor(v, 2) in at ==> IsStep(mem, root, end, v, step)
    ensures !Suffices(mem, root, at0, pool0, begin, end)
  {
    if RoleFor(v, 2) in at {
      StepNeeds(mem, root, begin, end, v, step);
    }
    var r := if RoleFor(v, 2) !in at then RoleFor(v, 2) else RoleFor(v, 3);
    assert {RoleFor(v, 1), RoleFor(v, 2), r} <= NeededFor(mem, root, begin, end, v);
    hide Needed, NeededFor, HugeBlock, IsStep;
    NeededHas(mem, root, begin, end, end, v);
    NeededGrows(mem, root, begin, end, v, end);
    FramesShort(at0, pool0, at, Needed(mem, root, begin, end, end), r);
  }

  /** What the pages [begin, stop) allow once they are mapped with these flags: a bit that the flags have and that the
      entries had that linked their tables before.  Other pages allow what they did. */
  ghost predicate RightsMapped(mem0: Memory, mem: Memory, root: nat, begin: nat, stop: nat, flags: Flags)
  {
    forall w: nat, b: nat | w < 0x10_0000_0000 ::
      Allows(mem, root, w, b) <==>
      if begin <= w < stop then LinksAllow(mem0, root, w, b) && Has(flags, b) else Allows(mem0, root, w, b)
  }

  lemma RangeFlags(mem: Memory, root: nat, begin: nat, end: nat, phys: nat, flags: Flags, w: nat)
    requires begin <= w
    ensures var m := RangeMapping(mem, root, begin, end, phys, flags, w); m != Unmapped && FlagsOf(m) == flags
  {
  }

  lemma MappedRights(mem0: Memory, mem: Memory, root: nat, begin: nat, end: nat, phys: nat, flags: Flags, stop: nat)
    requires LinksKept(mem0, mem, root, flags)
    requires forall w: nat | w < 0x10_0000_0000 ::
               Lookup(mem, root, w) ==
               if begin <= w < stop then RangeMapping(mem0, root, begin, end, phys, flags, w) else Lookup(mem0, root, w)
    ensures RightsMapped(mem0, mem, root, begin, stop, flags)
  {
    hide Lookup, RangeMapping, LinksKept, Allows, LinksAllow, FlagsOf, Has;
    forall w: nat, b: nat | w < 0x10_0000_0000
      ensures Allows(mem, root, w, b) <==>
              if begin <= w < stop then LinksAllow(mem0, root, w, b) && Has(flags, b) else Allows(mem0, root, w, b)
    {
      if begin <= w < stop {
        RangeFlags(mem0, root, begin, end, phys, flags, w);
        NewAllows(mem0, mem, root, flags, w, b);
      } else {
        OldAllows(mem0, mem, root, flags, w, b);
      }
    }
  }

  /** Mapped and unmapped again, every page allows what it did. */
  lemma RightsBack(mem0: Memory, mem1: Memory, mem: Memory, root: nat, begin: nat, stop: nat, flags: Flags)
    requires RightsMapped(mem0, mem1, root, begin, stop, flags) && LinksGo(mem1, mem, root)
    requires forall w: nat | w < 0x10_0000_0000 && !(begin <= w < stop) :: Lookup(mem, root, w) == Lookup(mem1, root, w)
    requires forall w: nat | begin <= w < stop :: Lookup(mem, root, w) == Lookup(mem0, root, w) == Unmapped
    ensures forall w: nat, b: nat | w < 0x10_0000_0000 :: Allows(mem, root, w, b) <==> Allows(mem0, root, w, b)
  {
    hide Lookup, LinksGo;
    forall w: nat, b: nat | w < 0x10_0000_0000
      ensures Allows(mem, root, w, b) <==> Allows(mem0, root, w, b)
    {
      if !(begin <= w < stop) {
        LeftAllows(mem1, mem, root, w, b);
      }
    }
  }

  class PageTables {
    var mem: Memory
    const root: nat
    /** The frames that dynmem_alloc_nolock can still hand out. */
    var pool: set<nat>
    ghost var plan: Plan

    ghost predicate Valid()
      reads this
    {
      Tree(mem, root, plan) && pool !! mem.Keys
    }

    /** All frames that hold a table or may come to hold one. */
    ghost function Frames(): set<nat>
      reads this
    {
      mem.Keys + pool
    }

    /** How many tables there are and can still be made. */
    ghost function Count(): nat
      reads this
    {
      |plan.at.Keys| + |pool|
    }

    /** There are frames for the tables that mapping [begin, end) lacks. */
    ghost predicate Enough(begin: nat, end: nat)
      reads this
    {
      Suffices(mem, root, plan.at.Keys, |pool|, begin, end)
    }

    lemma EnoughForBlock(v: nat)
      requires v % 512 == 0 && v + 512 < 0x10_0000_0000 && TableAt(mem, root, v, 3).None? && |pool| >= 2
      ensures Enough(v, v + 512)
    {
      hide TableAt, Suffices;
      SufficesBlock(mem, root, plan.at.Keys, |pool|, v);
    }

    constructor (root: nat, mem: Memory, pool: set<nat>, ghost plan: Plan)
      requires Tree(mem, root, plan) && pool !! mem.Keys
      ensures Valid() && this.root == root && this.mem == mem && this.pool == pool && this.plan == plan
    {
      this.root, this.mem, this.pool, this.plan := root, mem, pool, plan;
    }

    /** Clear a frame and link it as a table. */
    method LinkFrame(upper: nat, index: nat, f: nat, flags: Flags)
      requires Tree(mem, root, plan) && upper in mem && index < 512 && f !in mem
      requires mem[upper][index] == Empty && Level(plan.roles[upper]) < 3
      modifies this`mem, this`plan
      ensures Tree(mem, root, plan) && mem.Keys == old(mem).Keys + {f}
      ensures plan == PlanWith(old(plan), Sub(old(plan).roles[upper], index), f)
      ensures forall w: nat :: Lookup(mem, root, w) == Lookup(old(mem), root, w)
      ensures LinksKept(old(mem), mem, root, flags)
      ensures mem[upper][index] == Present(f, false, flags)
    {
      hide Lookup, Tree;
      FrameOfRole(mem, root, plan, upper);
      LinkNewLinks(mem, root, plan, upper, index, f, flags);
      LinkNewTree(mem, root, plan, upper, index, f, flags);
      forall w: nat
        ensures Lookup(LinkNew(mem, upper, index, f, flags), root, w) == Lookup(mem, root, w)
      {
        LinkNewSame(mem, root, plan, upper, index, f, flags, w);
      }
      ghost var r := Sub(plan.roles[upper], index);
      mem := mem[f := ZeroTable()];
      mem := Write(mem, upper, index, Present(f, false, flags));
      plan := PlanWith(plan, r, f);
    }

    /** A frame of the pool is cleared and linked. */
    method UseFrame(f: nat, upper: nat, index: nat, flags: Flags)
      requires Valid() && upper in mem && index < 512 && Level(plan.roles[upper]) < 3
      requires mem[upper][index] == Empty && f in pool
      modifies this
      ensures Valid() && Frames() == old(Frames()) && Count() == old(Count()) && pool == old(pool) - {f}
      ensures f in mem && f in plan.roles && plan.roles[f] == Sub(old(plan).roles[upper], index)
      ensures plan.at.Keys == old(plan).at.Keys + {plan.roles[f]}
      ensures forall r | r in old(plan).at :: r in plan.at && plan.at[r] == old(plan).at[r]
      ensures forall w: nat :: Lookup(mem, root, w) == Lookup(old(mem), root, w)
      ensures LinksKept(old(mem), mem, root, flags)
      ensures upper in mem && mem[upper][index] == Present(f, false, flags)
    {
      hide Tree, Lookup, PlanWith, LinksKept;
      NoTableYet(mem, root, plan, upper, index);
      FrameOfRole(mem, root, plan, upper);
      FrameMoves(mem.Keys, pool, f, plan.at.Keys, Sub(plan.roles[upper], index));
      MoreKeys(plan, Sub(plan.roles[upper], index), f);
      pool := pool - {f};
      LinkFrame(upper, index, f, flags);
    }

    /** page_get_or_alloc.  When no frame is left the source clears a table at NULL, which faults: None. */
    method GetOrAlloc(upper: nat, index: nat, flags: Flags) returns (t: Option<nat>)
      requires Valid() && upper in mem && index < 512 && Level(plan.roles[upper]) < 3
      requires mem[upper][index].Present? ==> !mem[upper][index].huge
      modifies this
      ensures Valid() && Frames() == old(Frames()) && Count() == old(Count())
      ensures t.None? <==> old(pool) == {} && old(mem)[upper][index] == Empty
      ensures t.None? ==> mem == old(mem) && plan == old(plan) && pool == {}
      ensures t.None? ==> Sub(plan.roles[upper], index) !in plan.at
      ensures t.Some? ==> upper in mem && t.value in mem && plan.roles[t.value] == Sub(old(plan).roles[upper], index)
      ensures t.Some? ==> forall r :: r in plan.at <==> r in old(plan).at || r == plan.roles[t.value]
      ensures forall r | r in old(plan).at :: r in plan.at && plan.at[r] == old(plan).at[r]
      ensures forall w: nat :: Lookup(mem, root, w) == Lookup(old(mem), root, w)
      ensures LinksKept(old(mem), mem, root, flags)
      ensures t.Some? && old(mem)[upper][index] == Empty ==> mem[upper][index] == Present(t.value, false, flags)
    {
      hide Frames, Count, LinksKept;
      SameLinksKept(mem, root, flags);
      if mem[upper][index].Present? {
        t := Some(mem[upper][index].frame);
        assert EntryFits(mem, plan, upper, index);
      } else if pool == {} {
        NoTableYet(mem, root, plan, upper, index);
        t := None;
      } else {
        var f :| f in pool;
        UseFrame(f, upper, index, flags);
        t := Some(f);
      }
    }

    /** The write of a 4 KiB or 2 MiB entry that was not present. */
    method MapEntry(f: nat, i: nat, e: Entry, ghost v: nat, ghost step: nat)
      requires Valid() && f in mem && i < 512 && v + step < 0x10_0000_0000 && mem[f][i] == Empty && e.Present?
      requires if e.huge then step == 512 && Level(plan.roles[f]) == 2 && v % 512 == 0
               else step == 1 && Level(plan.roles[f]) == 3
      requires Under(v, plan.roles[f], i)
      modifies this`mem
      ensures Valid() && mem.Keys == old(mem).Keys && Frames() == old(Frames())
      ensures forall w: nat | w < 0x10_0000_0000 ::
                Lookup(mem, root, w) ==
                if InStep(v, step, w) then StepMapping(step, e.frame, e.flags) else Lookup(old(mem), root, w)
      ensures LinksKept(old(mem), mem, root, e.flags)
    {
      WriteLeafLinks(mem, root, plan, f, i, e, e.flags);
      hide LinksKept;
      forall w: nat | w < 0x10_0000_0000
        ensures Lookup(Write(mem, f, i, e), root, w) ==
                if InStep(v, step, w) then StepMapping(step, e.frame, e.flags) else Lookup(mem, root, w)
      {
        WriteLeaf(mem, root, plan, f, i, e, w);
        SameBlock(v, w);
      }
      WriteLeafTree(mem, root, plan, f, i, e);
      mem := Write(mem, f, i, e);
    }

    /** The page directory on the way to v, made where it is missing. */
    method DirectoryFor(it: PageIterator, flags: Flags, ghost v: nat) returns (pdt: Option<nat>)
      requires Valid() && v < 0x10_0000_0000 && it == FromVirt(v)
      modifies this
      ensures Valid() && Frames() == old(Frames()) && Count() == old(Count())
      ensures old(plan).at.Keys <= plan.at.Keys <= old(plan).at.Keys + {RoleFor(v, 1), RoleFor(v, 2)}
      ensures if pdt.None? then pool == {} && RoleFor(v, 2) !in plan.at
              else plan.at.Keys == old(plan).at.Keys + {RoleFor(v, 1), RoleFor(v, 2)}
      ensures pdt.Some? ==> pdt.value in mem && pdt.value in plan.roles && plan.roles[pdt.value] == RoleFor(v, 2)
      ensures pdt.Some? ==> RoleFor(v, 2) in plan.at && plan.at[RoleFor(v, 2)] == pdt.value
      ensures forall r | Level(r) == 3 :: r in plan.at <==> r in old(plan).at
      ensures forall w: nat :: Lookup(mem, root, w) == Lookup(old(mem), root, w)
      ensures LinksKept(old(mem), mem, root, flags)
    {
      hide Lookup, Tree, FromVirt, Prefix, Index, Frames, Count, LinksKept;
      ghost var mem0 := mem;
      FromVirtDigits(v);
      RootEntry(mem, root, plan, it.pl4i);
      var pdpt := GetOrAlloc(root, it.pl4i, flags);
      if pdpt.None? {
        ParentPresent(mem, root, plan, RoleFor(v, 2));
        return None;
      }
      NotHuge(mem, root, plan, pdpt.value, it.pdpi);
      ghost var mem1 := mem;
      pdt := GetOrAlloc(pdpt.value, it.pdpi, flags);
      LinksKeptTransitive(mem0, mem1, mem, root, flags);
      if pdt.Some? {
        FrameOfRole(mem, root, plan, pdt.value);
      }
    }

    /** The first branch of the loop of pagetable_mmio_map. */
    method MapHuge(it: PageIterator, pdt: nat, frame: nat, flags: Flags, ghost v: nat) returns (next: PageIterator)
      requires Valid() && v + 512 < 0x10_0000_0000 && v % 512 == 0 && it == FromVirt(v)
      requires pdt in mem && plan.roles[pdt] == RoleFor(v, 2) && mem[pdt][it.pdti] == Empty
      modifies this`mem
      ensures Valid() && Frames() == old(Frames()) && Count() == old(Count()) && next == FromVirt(v + 512)
      ensures forall w: nat | w < 0x10_0000_0000 ::
                Lookup(mem, root, w) ==
                if InStep(v, 512, w) then Huge(frame, flags) else Lookup(old(mem), root, w)
      ensures LinksKept(old(mem), mem, root, flags)
    {
      hide LinksKept;
      FromVirtDigits(v);
      MapEntry(pdt, it.pdti, Present(frame, true, flags), v, 512);
      NextIsPlusBlock(it, v);
      next := NextPdti(it);
    }

    /** The second branch. */
    method MapSmall(it: PageIterator, pdt: nat, frame: nat, flags: Flags, ghost v: nat)
      returns (next: Option<PageIterator>)
      requires Valid() && v + 1 < 0x10_0000_0000 && it == FromVirt(v)
      requires pdt in mem && plan.roles[pdt] == RoleFor(v, 2) && Lookup(mem, root, v) == Unmapped
      modifies this
      ensures Valid() && Frames() == old(Frames()) && Count() == old(Count())
      ensures if next.None? then pool == {} && RoleFor(v, 3) !in plan.at && plan.at.Keys == old(plan).at.Keys
              else next.value == FromVirt(v + 1) && plan.at.Keys == old(plan).at.Keys + {RoleFor(v, 3)}
      ensures forall w: nat | w < 0x10_0000_0000 ::
                Lookup(mem, root, w) ==
                if next.Some? && InStep(v, 1, w) then Small(frame, flags) else Lookup(old(mem), root, w)
      ensures forall r | Level(r) == 3 && r != RoleFor(v, 3) :: r in plan.at <==> r in old(plan).at
      ensures LinksKept(old(mem), mem, root, flags)
    {
      hide Lookup, Tree, FromVirt, Prefix, Index, Frames, LinksKept;
      ghost var mem0 := mem;
      FromVirtDigits(v);
      FrameOfRole(mem, root, plan, pdt);
      PdtEntry(mem, root, plan, v);
      var pt := GetOrAlloc(pdt, it.pdti, flags);
      if pt.None? {
        return None;
      }
      FrameOfRole(mem, root, plan, pt.value);
      PtEntry(mem, root, plan, v);
      ghost var mem1 := mem;
      MapEntry(pt.value, it.ptei, Present(frame, false, flags), v, 1);
      LinksKeptTransitive(mem0, mem1, mem, root, flags);
      NextIsPlusOne(it, v);
      next := Some(NextPage(it));
    }

    /** One round of the loop of pagetable_mmio_map, for page v with `left` pages still to map; None for a fault. */
    method MapStep(it: PageIterator, left: nat, frame: nat, flags: Flags, ghost v: nat)
      returns (step: nat, next: Option<PageIterator>)
      requires Valid() && v + left < 0x10_0000_0000 && 0 < left && it == FromVirt(v)
      requires Lookup(mem, root, v) == Unmapped
      modifies this
      ensures Valid() && Frames() == old(Frames()) && Count() == old(Count())
      ensures next.Some? || RoleFor(v, 2) in plan.at ==>
                step == if v % 512 == 0 && 512 <= left && TableAt(old(mem), root, v, 3).None? then 512 else 1
      ensures if next.None? then pool == {} && LacksTable(old(plan).at.Keys, plan.at.Keys, v, step)
              else next.value == FromVirt(v + step) && TookTables(old(plan).at.Keys, plan.at.Keys, v, step)
      ensures forall w: nat | w < 0x10_0000_0000 ::
                Lookup(mem, root, w) ==
                if next.Some? && InStep(v, step, w) then StepMapping(step, frame, flags)
                else Lookup(old(mem), root, w)
      ensures forall w: nat | w < 0x10_0000_0000 && w / 512 != v / 512 ::
                TableAt(mem, root, w, 3).None? <==> TableAt(old(mem), root, w, 3).None?
      ensures LinksKept(old(mem), mem, root, flags)
    {
      hide Tree, FromVirt, RoleFor, TableAt, Lookup, Prefix, Index, Frames, Count, LinksKept;
      TableByRole(mem, root, plan, v, 3);
      IndexIsDigit(v);
      ghost var mem0, plan0 := mem, plan;
      var pdt := DirectoryFor(it, flags, v);
      if pdt.None? {
        TablesElsewhere(mem0, plan0, mem, plan, root, v);
        return 0, None;
      }
      ghost var mem1 := mem;
      FromVirtDigits(v);
      PdtEntry(mem, root, plan, v);
      if !mem[pdt.value][it.pdti].Present? && it.ptei == 0 && left >= 512 {
        step := 512;
        var n := MapHuge(it, pdt.value, frame, flags, v);
        next := Some(n);
      } else {
        step := 1;
        next := MapSmall(it, pdt.value, frame, flags, v);
      }
      LinksKeptTransitive(mem0, mem1, mem, root, flags);
      TablesElsewhere(mem0, plan0, mem, plan, root, v);
    }

    lemma CountIs()
      ensures Count() == |plan.at.Keys| + |pool|
    {
    }

    /** What holds between two rounds: from mem0, where the tables of at0 were there and `count` could be, the pages
        before v are mapped and their tables made. */
    ghost predicate Mapped(mem0: Memory, at0: set<Role>, count: nat, frames: set<nat>, begin: nat, end: nat,
                           phys: nat, flags: Flags, v: nat)
      reads this
    {
      && Valid() && Frames() == frames && Count() == count
      && TablesUpTo(mem0, root, begin, end, v, at0, plan.at.Keys)
      && MappedUpTo(mem0, mem, root, begin, end, phys, flags, v) && LinksKept(mem0, mem, root, flags)
    }

    lemma StartsMapped(begin: nat, end: nat, phys: nat, flags: Flags)
      requires Valid()
      ensures Mapped(mem, plan.at.Keys, |plan.at.Keys| + |pool|, Frames(), begin, end, phys, flags, begin)
    {
      hide Tree, TableAt, Lookup, Frames, RangeMapping, HugeBlock, MappedUpTo, Needed, TablesUpTo, LinksKept;
      SameLinksKept(mem, root, flags);
      NothingYet(mem, root, begin, end, phys, flags);
      NoTablesYet(mem, root, begin, end, plan.at.Keys);
    }

    lemma EndsMapped(mem0: Memory, at0: set<Role>, pool0: nat, frames: set<nat>, begin: nat, end: nat, phys: nat,
                     flags: Flags, upto: nat)
      requires Mapped(mem0, at0, |at0| + pool0, frames, begin, end, phys, flags, upto)
      requires upto == if begin < end then end else begin
      ensures Valid() && Frames() == frames && Suffices(mem0, root, at0, pool0, begin, end)
      ensures forall w: nat | w < 0x10_0000_0000 ::
                Lookup(mem, root, w) ==
                if begin <= w < upto then RangeMapping(mem0, root, begin, end, phys, flags, w)
                else Lookup(mem0, root, w)
      ensures LinksKept(mem0, mem, root, flags)
      ensures RightsMapped(mem0, mem, root, begin, upto, flags)
    {
      hide Tree, TableAt, Lookup, Frames, RangeMapping, HugeBlock, MappedUpTo, Suffices, TablesUpTo, Valid;
      hide LinksKept, RightsMapped;
      AllMapped(mem0, mem, root, begin, end, phys, flags, upto);
      MappedRights(mem0, mem, root, begin, end, phys, flags, upto);
      EnoughFrames(mem0, root, begin, end, upto, at0, pool0, plan.at.Keys, |pool|);
    }

    /** One round within the loop: on to the next pages, or a fault with too few frames. */
    method MapRound(it: PageIterator, begin: nat, end: nat, phys: nat, flags: Flags, offset: nat, ghost mem0: Memory,
                    ghost at0: set<Role>, ghost pool0: nat, ghost frames: set<nat>)
      returns (step: nat, next: Option<PageIterator>)
      requires begin + offset < end < 0x10_0000_0000 && it == FromVirt(begin + offset)
      requires Mapped(mem0, at0, |at0| + pool0, frames, begin, end, phys, flags, begin + offset)
      requires Lookup(mem0, root, begin + offset) == Unmapped
      modifies this
      ensures next.Some? ==>
                && 0 < step && begin + offset + step <= end && next.value == FromVirt(begin + offset + step)
                && Mapped(mem0, at0, |at0| + pool0, frames, begin, end, phys, flags, begin + offset + step)
      ensures next.None? ==>
                Valid() && Frames() == frames && pool == {} && !Suffices(mem0, root, at0, pool0, begin, end)
      ensures next.None? ==> forall w: nat | w < 0x10_0000_0000 ::
                Lookup(mem, root, w) ==
                if begin <= w < begin + offset then RangeMapping(mem0, root, begin, end, phys, flags, w)
                else Lookup(mem0, root, w)
      ensures next.None? ==> LinksKept(mem0, mem, root, flags)
      ensures next.None? ==> RightsMapped(mem0, mem, root, begin, begin + offset, flags)
    {
      hide Tree, FromVirt, TableAt, Lookup, Frames, Count, RangeMapping, StepMapping, HugeBlock, MappedUpTo;
      hide Suffices, TookTables, LacksTable, IsStep, TablesUpTo, Valid, LinksKept, RightsMapped;
      ghost var v, mem1, at1 := begin + offset, mem, plan.at.Keys;
      StillUnmapped(mem0, mem, root, begin, end, phys, flags, v);
      step, next := MapStep(it, end - begin - offset, phys + offset, flags, v);
      LinksKeptTransitive(mem0, mem1, mem, root, flags);
      if next.None? {
        CountIs();
        RoundFaults(mem0, mem1, mem, root, begin, end, phys, flags, v, step);
        MappedRights(mem0, mem, root, begin, end, phys, flags, v);
        Faulted(mem0, root, begin, end, v, step, at0, pool0, at1, plan.at.Keys);
      } else {
        RoundMaps(mem0, mem1, mem, root, begin, end, phys, flags, v, step);
        Stepped(mem0, root, begin, end, v, step, at0, at1, plan.at.Keys);
      }
    }

    /** pagetable_mmio_map.  The source asserts that no page of the range is mapped yet.  There are enough frames
        exactly when there are as many as tables are missing; else the fault comes when none is left, after the pages
        before `stop` are mapped. */
    method Map(begin: nat, end: nat, phys: nat, flags: Flags) returns (ok: bool, ghost stop: nat)
      requires Valid() && end < 0x10_0000_0000
      requires forall w: nat | begin <= w < end :: Lookup(mem, root, w) == Unmapped
      modifies this
      ensures Valid() && Frames() == old(Frames())
      ensures ok <==> old(Enough(begin, end))
      ensures if ok then stop == (if begin < end then end else begin) else begin <= stop < end && pool == {}
      ensures forall w: nat | w < 0x10_0000_0000 ::
                Lookup(mem, root, w) ==
                if begin <= w < stop then RangeMapping(old(mem), root, begin, end, phys, flags, w)
                else Lookup(old(mem), root, w)
      ensures LinksKept(old(mem), mem, root, flags)
      ensures RightsMapped(old(mem), mem, root, begin, stop, flags)
    {
      hide Tree, FromVirt, TableAt, Lookup, Frames, Count, RangeMapping, StepMapping, HugeBlock, MappedUpTo;
      hide Suffices, TablesUpTo, Valid, Mapped, RightsMapped, LinksKept;
      ghost var mem0, at0, pool0, frames := mem, plan.at.Keys, |pool|, Frames();
      var it := FromVirt(begin);
      var offset := 0;
      StartsMapped(begin, end, phys, flags);
      while begin + offset < end
        invariant it == FromVirt(begin + offset) && (begin + offset <= end || offset == 0)
        invariant Mapped(mem0, at0, |at0| + pool0, frames, begin, end, phys, flags, begin + offset)
      {
        var step, next := MapRound(it, begin, end, phys, flags, offset, mem0, at0, pool0, frames);
        if next.None? {
          return false, begin + offset;
        }
        offset, it := offset + step, next.value;
      }
      EndsMapped(mem0, at0, pool0, frames, begin, end, phys, flags, begin + offset);
      return true, begin + offset;
    }

    /** page_get_assert: None when the entry is not present, and the assertion fails. */
    method GetAssert(upper: nat, index: nat, ghost v: nat, ghost l: nat) returns (t: Option<nat>)
      requires Valid() && l < 3 && RoleFor(v, l) in plan.at && plan.at[RoleFor(v, l)] == upper && index == Index(v, l)
      requires upper in mem && (mem[upper][index].Present? ==> !mem[upper][index].huge)
      ensures t.Some? <==> RoleFor(v, l + 1) in plan.at
      ensures t.Some? <==> mem[upper][index].Present?
      ensures t.Some? ==> t.value == plan.at[RoleFor(v, l + 1)] && t.value in mem
      ensures t.Some? ==> t.value in plan.roles && plan.roles[t.value] == RoleFor(v, l + 1)
    {
      NoTableYet(mem, root, plan, upper, index);
      assert EntryFits(mem, plan, upper, index);
      if mem[upper][index].Present? {
        t := Some(mem[upper][index].frame);
      } else {
        t := None;
      }
    }

    /** pagetable_is_empty */
    method IsEmpty(t: nat) returns (empty: bool)
      requires t in mem
      ensures empty <==> EmptyTable(mem[t])
    {
      for i := 0 to 512
        invariant forall j | 0 <= j < i :: mem[t][j] == Empty
      {
        if mem[t][i].Present? {
          return false;
        }
      }
      return true;
    }

    /** if (pagetable_is_empty(t)) { dynmem_dealloc_nolock(t); upper[index] = 0; } */
    method GiveBack(upper: nat, index: nat, t: nat)
      requires upper in mem && index < 512 && t in mem && t != upper && pool !! mem.Keys
      modifies this`mem, this`pool
      ensures mem == if EmptyTable(old(mem)[t]) then Unlink(old(mem), upper, index, t) else old(mem)
      ensures pool == if EmptyTable(old(mem)[t]) then old(pool) + {t} else old(pool)
      ensures pool !! mem.Keys && Frames() == old(Frames())
    {
      var empty := IsEmpty(t);
      if empty {
        mem := mem[upper := mem[upper][index := Empty]] - {t};
        pool := pool + {t};
      }
    }

    /** Give back the table t of level l on the way to v, if the iterator leaves it and it is empty. */
    method FreeIfEmpty(leaves: bool, upper: nat, index: nat, t: nat, ghost v: nat, ghost l: nat)
      requires Valid() && 1 <= l < 4 && RoleFor(v, l - 1) in plan.at
      requires plan.at[RoleFor(v, l - 1)] == upper && index == Index(v, l - 1)
      requires leaves ==> RoleFor(v, l) in plan.at && plan.at[RoleFor(v, l)] == t
      modifies this
      ensures Valid() && Shrinks(old(mem), old(plan), mem, plan, v) && Frames() == old(Frames())
      ensures forall r | r in old(plan).at && r !in plan.at :: r == RoleFor(v, l) && WasEmpty(old(mem), old(plan), r)
      ensures !leaves ==> plan == old(plan)
      ensures leaves ==> t in old(mem)
      ensures pool == if leaves && EmptyTable(old(mem)[t]) then old(pool) + {t} else old(pool)
      ensures GoneUnmapped(mem, root, old(plan), plan) && OffWalkSame(old(mem), old(plan), mem, plan, v)
      ensures forall r | r in plan.at :: r in old(plan).at && plan.at[r] == old(plan).at[r]
      ensures forall w: nat :: Lookup(mem, root, w) == Lookup(old(mem), root, w)
      ensures leaves ==> NoneOrInUse(mem, plan, v, l)
      ensures forall k: nat | k < l :: RoleFor(v, k) in old(plan).at ==> RoleFor(v, k) in plan.at
      ensures forall k: nat | l < k < 4 && NoneOrInUse(old(mem), old(plan), v, k) :: NoneOrInUse(mem, plan, v, k)
      ensures LinksGo(old(mem), mem, root)
    {
      hide LinksGo;
      hide Tree, Lookup, NothingBelow, Shrinks, WasEmpty, GoneUnmapped, OffWalkSame, NoneOrInUse, Freed, FreedPlan;
      if leaves {
        FreedLinks(mem, root, plan, v, l);
        FreedTree(mem, root, plan, v, l);
        FreedShrinks(mem, root, plan, v, l);
        FreedInUse(mem, root, plan, v, l);
        FreedEmpty(mem, root, plan, v, l);
        FreedIs(mem, root, plan, v, l);
        ghost var plan' := FreedPlan(mem, plan, v, l);
        GiveBack(upper, index, t);
        plan := plan';
      } else {
        SameLinksGo(mem, root);
        NothingFreed(mem, root, plan, v);
      }
    }

    /** The first half of a round of the loop of pagetable_mmio_unmap: clear v's entry. */
    method ClearEntry(f: nat, i: nat, ghost v: nat, ghost step: nat)
      requires Valid() && f in mem && i < 512 && v + step < 0x10_0000_0000
      requires Under(v, plan.roles[f], i)
      requires mem[f][i].Present? ==> (mem[f][i].huge <==> step == 512)
      requires if step == 512 then Level(plan.roles[f]) == 2 && v % 512 == 0 && mem[f][i].Present?
               else step == 1 && Level(plan.roles[f]) == 3
      modifies this`mem
      ensures Valid() && Shrinks(old(mem), plan, mem, plan, v) && mem.Keys == old(mem).Keys
      ensures OffWalkSame(old(mem), plan, mem, plan, v)
      ensures forall w: nat | w < 0x10_0000_0000 ::
                Lookup(mem, root, w) == if InStep(v, step, w) then Unmapped else Lookup(old(mem), root, w)
      ensures LinksGo(old(mem), mem, root)
    {
      WriteLeafLinks(mem, root, plan, f, i, Empty, 1);
      hide LinksGo;
      forall w: nat | w < 0x10_0000_0000
        ensures Lookup(Write(mem, f, i, Empty), root, w) ==
                if InStep(v, step, w) then Unmapped else Lookup(mem, root, w)
      {
        WriteLeaf(mem, root, plan, f, i, Empty, w);
        SameBlock(v, w);
      }
      WriteLeafTree(mem, root, plan, f, i, Empty);
      mem := Write(mem, f, i, Empty);
    }

    /** The page directory pointer table and the page directory on the way to v; ok is false when an assertion
        fails. */
    method WalkAssert(it: PageIterator, ghost v: nat) returns (ok: bool, pdpt: nat, pdt: nat)
      requires Valid() && v < 0x10_0000_0000 && it == FromVirt(v)
      ensures ok <==> RoleFor(v, 2) in plan.at && mem[plan.at[RoleFor(v, 2)]][it.pdti].Present?
      ensures ok ==> RoleFor(v, 1) in plan.at && plan.at[RoleFor(v, 1)] == pdpt
      ensures ok ==> RoleFor(v, 2) in plan.at && plan.at[RoleFor(v, 2)] == pdt && pdt in mem
      ensures ok ==> pdt in plan.roles && plan.roles[pdt] == RoleFor(v, 2)
    {
      hide Tree, FromVirt, TableAt, Lookup, Index, Prefix;
      ok, pdpt, pdt := false, 0, 0;
      FromVirtDigits(v);
      RootRole(mem, root, plan, v);
      RootEntry(mem, root, plan, it.pl4i);
      ParentPresent(mem, root, plan, RoleFor(v, 2));
      var p := GetAssert(root, it.pl4i, v, 0);
      if p.None? {
        return;
      }
      NotHuge(mem, root, plan, p.value, it.pdpi);
      var d := GetAssert(p.value, it.pdpi, v, 1);
      if d.None? {
        return;
      }
      ok, pdpt, pdt := mem[d.value][it.pdti].Present?, p.value, d.value;
    }

    /** Where the walk meets no page table, or a block's inside, an assertion fails. */
    lemma NoneClearable(v: nat)
      requires Valid() && v + 1 < 0x10_0000_0000
      requires RoleFor(v, 2) in plan.at ==>
                 var e := mem[plan.at[RoleFor(v, 2)]][Index(v, 2)]; e.Present? ==> e.huge && v % 512 != 0
      ensures !Clearable(mem, root, v)
    {
      hide Index, Prefix, Lookup, TableAt;
      if RoleFor(v, 2) in plan.at {
        var pdt := plan.at[RoleFor(v, 2)];
        NoTableYet(mem, root, plan, pdt, Index(v, 2));
      }
      NotClearable(mem, root, plan, v);
    }

    method ClearStep(it: PageIterator, ghost v: nat)
      returns (ok: bool, pdpt: nat, pdt: nat, pt: nat, step: nat, next: PageIterator)
      requires Valid() && it == FromVirt(v) && v + 1 < 0x10_0000_0000
      requires Lookup(mem, root, v).Huge? && v % 512 == 0 ==> v + 512 < 0x10_0000_0000
      modifies this`mem
      ensures ok <==> Clearable(old(mem), root, v)
      ensures !ok ==> mem == old(mem)
      ensures Valid() && Shrinks(old(mem), plan, mem, plan, v) && mem.Keys == old(mem).Keys
      ensures OffWalkSame(old(mem), plan, mem, plan, v)
      ensures ok ==> step == (if Lookup(old(mem), root, v).Huge? then 512 else 1) && next == FromVirt(v + step)
      ensures ok && step == 512 ==> next.ptei == 0 && it.ptei == 0 && v % 512 == 0
      ensures ok ==> RoleFor(v, 1) in plan.at && plan.at[RoleFor(v, 1)] == pdpt
      ensures ok ==> RoleFor(v, 2) in plan.at && plan.at[RoleFor(v, 2)] == pdt
      ensures ok ==> if step == 512 then RoleFor(v, 3) !in plan.at
                     else RoleFor(v, 3) in plan.at && plan.at[RoleFor(v, 3)] == pt
      ensures ok ==> forall w: nat | w < 0x10_0000_0000 ::
                Lookup(mem, root, w) == if InStep(v, step, w) then Unmapped else Lookup(old(mem), root, w)
      ensures LinksGo(old(mem), mem, root)
    {
      hide Tree, FromVirt, TableAt, Lookup, Clearable, Shrinks, OffWalkSame, LinksGo;
      SameLinksGo(mem, root);
      NothingFreed(mem, root, plan, v);
      FromVirtDigits(v);
      IndexIsDigit(v);
      pt, step, next := 0, 0, it;
      ok, pdpt, pdt := WalkAssert(it, v);
      if !ok || (mem[pdt][it.pdti].huge && it.ptei != 0) {
        ok := false;
        NoneClearable(v);
        return;
      }
      if mem[pdt][it.pdti].huge {
        BlockClearable(mem, root, plan, v);
        step := 512;
        ClearEntry(pdt, it.pdti, v, 512);
        NextIsPlusBlock(it, v);
        next := NextPdti(it);
      } else {
        var t := GetAssert(pdt, it.pdti, v, 2);
        pt, step := t.value, 1;
        TableClearable(mem, root, plan, v);
        SmallHere(mem, root, plan, v);
        ClearEntry(pt, it.ptei, v, 1);
        NextIsPlusOne(it, v);
        next := NextPage(it);
      }
    }

    /** The second half of a round: give back the tables that the iterator leaves and that are empty. */
    method FreeStep(it: PageIterator, next: PageIterator, pdpt: nat, pdt: nat, pt: nat, ghost v: nat)
      requires Valid() && v < 0x10_0000_0000 && it == FromVirt(v)
      requires RoleFor(v, 1) in plan.at && plan.at[RoleFor(v, 1)] == pdpt
      requires RoleFor(v, 2) in plan.at && plan.at[RoleFor(v, 2)] == pdt
      requires it.ptei > next.ptei ==> RoleFor(v, 3) in plan.at && plan.at[RoleFor(v, 3)] == pt
      modifies this
      ensures Valid() && Shrinks(old(mem), old(plan), mem, plan, v) && Frames() == old(Frames())
      ensures GaveBack(old(mem), old(plan), plan, v) && GoneUnmapped(mem, root, old(plan), plan)
      ensures forall w: nat :: Lookup(mem, root, w) == Lookup(old(mem), root, w)
      ensures !(it.ptei > next.ptei) ==> forall r | r in old(plan).at && Level(r) == 3 :: r in plan.at
      ensures it.ptei > next.ptei ==> NoneOrInUse(mem, plan, v, 3)
      ensures it.pdti > next.pdti ==> NoneOrInUse(mem, plan, v, 2)
      ensures it.pdpi > next.pdpi ==> NoneOrInUse(mem, plan, v, 1)
      ensures LinksGo(old(mem), mem, root)
    {
      hide LinksGo;
      hide Tree, FromVirt, TableAt, Lookup, NoneOrInUse, WasEmpty, OffWalkSame, Shrinks, GoneUnmapped, GaveBack;
      FromVirtDigits(v);
      RootRole(mem, root, plan, v);
      ghost var mem0, plan0 := mem, plan;
      FreeIfEmpty(it.ptei > next.ptei, pdt, it.pdti, pt, v, 3);
      ghost var mem1, plan1 := mem, plan;
      GaveBackOne(mem0, plan0, mem0, plan0, plan1, v, 3);
      FreeIfEmpty(it.pdti > next.pdti, pdpt, it.pdpi, pdt, v, 2);
      ghost var mem2, plan2 := mem, plan;
      GaveBackOne(mem0, plan0, mem1, plan1, plan2, v, 2);
      ShrinksTransitive(mem0, plan0, mem1, plan1, mem2, plan2, v);
      OffWalkTransitive(mem0, plan0, mem1, plan1, mem2, plan2, v);
      LinksGoTransitive(mem0, mem1, mem2, root);
      GoneTransitive(mem1, mem2, root, plan0, plan1, plan2);
      FreeIfEmpty(it.pdpi > next.pdpi, root, it.pl4i, pdpt, v, 1);
      GaveBackOne(mem0, plan0, mem2, plan2, plan, v, 1);
      ShrinksTransitive(mem0, plan0, mem2, plan2, mem, plan, v);
      LinksGoTransitive(mem0, mem2, mem, root);
      GoneTransitive(mem2, mem, root, plan0, plan2, plan);
    }

    /** One round of the loop of pagetable_mmio_unmap; ok is false when an assertion fails, and nothing happens. */
    method UnmapStep(it: PageIterator, ghost v: nat) returns (ok: bool, step: nat, next: PageIterator)
      requires Valid() && it == FromVirt(v) && v + 1 < 0x10_0000_0000
      requires Lookup(mem, root, v).Huge? && v % 512 == 0 ==> v + 512 < 0x10_0000_0000
      modifies this
      ensures Valid() && mem.Keys <= old(mem).Keys && Frames() == old(Frames())
      ensures ok <==> Clearable(old(mem), root, v)
      ensures !ok ==> mem == old(mem) && plan == old(plan) && pool == old(pool)
      ensures ok ==> next == FromVirt(v + step) && step == if Lookup(old(mem), root, v).Huge? then 512 else 1
      ensures ok ==> v + step < 0x10_0000_0000 && (step == 512 ==> v % 512 == 0)
      ensures ok ==> forall w: nat | w < 0x10_0000_0000 ::
                Lookup(mem, root, w) == if InStep(v, step, w) then Unmapped else Lookup(old(mem), root, w)
      ensures GaveBack(old(mem), old(plan), plan, v) && GoneUnmapped(mem, root, old(plan), plan)
      ensures ok ==> forall w: nat | v + step <= w < 0x10_0000_0000 ::
                TableAt(mem, root, w, 3).None? <==> TableAt(old(mem), root, w, 3).None?
      ensures forall r | r in plan.at :: r in old(plan).at
      ensures forall u: nat, l: nat | u < 0x10_0000_0000 && l < 4 && Prefix(u, l) != Prefix(v, l) ::
                TableContents(mem, root, u, l) == TableContents(old(mem), root, u, l)
      ensures ok ==> forall l: nat | 1 <= l < 4 && Prefix(v, l) != Prefix(v + step, l) ::
                TableContents(mem, root, v, l) != Some(ZeroTable())
      ensures LinksGo(old(mem), mem, root)
    {
      hide LinksGo;
      hide Tree, FromVirt, Prefix, TableAt, Lookup, NoneOrInUse, Shrinks, GaveBack, GoneUnmapped, OffWalkSame;
      hide Clearable;
      ghost var mem0, plan0 := mem, plan;
      NoneGone(mem, root, plan);
      NoneGiven(mem, plan, v);
      var pdpt, pdt, pt;
      ok, pdpt, pdt, pt, step, next := ClearStep(it, v);
      if !ok {
        return;
      }
      ghost var mem1 := mem;
      Leaves(it, next, v, step);
      FreeStep(it, next, pdpt, pdt, pt, v);
      LinksGoTransitive(mem0, mem1, mem, root);
      GaveBackBefore(mem0, mem1, plan0, plan, v);
      OnlyOldRoles(plan0, mem, plan, mem1, v);
      TablesBeyond(mem0, plan0, mem, plan, root, v, step);
      ShrinksTransitive(mem0, plan0, mem1, plan0, mem, plan, v);
      ShrinkKeys(mem0, mem, root, plan0, plan, v);
      OthersSame(mem0, mem, root, plan0, plan, v);
      if step == 512 {
        NoneIfHuge(mem0, plan0, mem, plan, v);
      }
      LeftInUse(mem, root, plan, v, v + step);
    }

    /** pagetable_mmio_unmap.  It goes through exactly when every page of the range is passed; else an assertion fails
        at the first that is not, after those before it are cleared.  A 2 MiB entry that reaches beyond the range is
        cleared as a whole. */
    method Unmap(begin: nat, end: nat) returns (ok: bool, ghost stop: nat)
      requires Valid() && end < 0x10_0000_0000
      requires begin < end && 0xF_FFFF_FE00 < end ==> !Lookup(mem, root, end - 1).Huge?
      modifies this
      ensures Valid() && mem.Keys <= old(mem).Keys && Frames() == old(Frames())
      ensures ok <==> forall w: nat | begin <= w < end :: Passes(old(mem), root, begin, w)
      ensures if ok then stop == UnmapEnd(old(mem), root, begin, end)
              else begin <= stop < end && !Passes(old(mem), root, begin, stop)
      ensures forall w: nat | begin <= w < stop && w < end :: Passes(old(mem), root, begin, w)
      ensures forall w: nat | w < 0x10_0000_0000 ::
                Lookup(mem, root, w) == if begin <= w < stop then Unmapped else Lookup(old(mem), root, w)
      ensures GoneUnmapped(mem, root, old(plan), plan)
      ensures forall v: nat, l: nat | begin <= v < stop && 1 <= l < 4 && Prefix(v, l) != Prefix(stop, l) ::
                TableContents(mem, root, v, l) != Some(ZeroTable())
      ensures LinksGo(old(mem), mem, root)
    {
      hide LinksGo;
      hide Tree, FromVirt, Prefix, TableAt, TableContents, Lookup, GaveBack, GoneUnmapped, Frames, Passes, Clearable;
      hide ClearedUpTo, TidyUpTo, UnmapEnd;
      ghost var mem0, plan0 := mem, plan;
      NoneGone(mem, root, plan);
      SameLinksGo(mem, root);
      NothingCleared(mem, root, begin, end);
      TidyYet(mem, root, begin);
      var it := FromVirt(begin);
      var offset := 0;
      while begin + offset < end
        invariant Valid() && it == FromVirt(begin + offset) && mem.Keys <= mem0.Keys
        invariant Frames() == old(Frames()) && GoneUnmapped(mem, root, plan0, plan)
        invariant begin + offset < 0x10_0000_0000 || offset == 0
        invariant end <= begin ==> offset == 0
        invariant ClearedUpTo(mem0, mem, root, begin, end, begin + offset)
        invariant LinksGo(mem0, mem, root)
        invariant TidyUpTo(mem, root, begin, begin + offset)
      {
        var step, next;
        ghost var v, mem1, plan1 := begin + offset, mem, plan;
        RoundMeets(mem0, plan0, mem1, root, begin, end, v);
        ok, step, next := UnmapStep(it, v);
        LinksGoTransitive(mem0, mem1, mem, root);
        if !ok {
          UpTo(mem0, mem, root, begin, end, v);
          TidyIs(mem, root, begin, v);
          return false, v;
        }
        RoundClears(mem0, plan0, mem1, mem, root, begin, end, v, step);
        TidyStep(mem1, mem, root, begin, v, step);
        GoneTransitive(mem1, mem, root, plan0, plan1, plan);
        offset, it := offset + step, next;
      }
      LoopEnds(mem0, plan0, mem, root, begin, end, begin + offset);
      UpTo(mem0, mem, root, begin, end, begin + offset);
      TidyIs(mem, root, begin, begin + offset);
      return true, begin + offset;
    }

    /** Of a range all of which is mapped, by entries that map no other page, exactly the pages of the range are
        cleared. */
    method UnmapAll(begin: nat, end: nat)
      requires Valid() && end < 0x10_0000_0000
      requires forall w: nat | begin <= w < end :: Lookup(mem, root, w) != Unmapped
      requires forall w: nat | begin <= w < end :: HugeWithin(mem, root, begin, end, w)
      modifies this
      ensures Valid() && Frames() == old(Frames())
      ensures forall w: nat | w < 0x10_0000_0000 ::
                Lookup(mem, root, w) == if begin <= w < end then Unmapped else Lookup(old(mem), root, w)
      ensures LinksGo(old(mem), mem, root)
    {
      hide LinksGo;
      hide Tree, TableAt, Lookup, Frames, Passes, UnmapEnd;
      MappedPasses(mem, root, plan, begin, end);
      ghost var stop;
      var ok;
      ok, stop := Unmap(begin, end);
    }

    /** Unmapping a range right after mapping it goes through and restores the translation of every page. */
    method MapThenUnmap(begin: nat, end: nat, phys: nat, flags: Flags) returns (ok: bool)
      requires Valid() && end < 0x10_0000_0000
      requires forall w: nat | begin <= w < end :: Lookup(mem, root, w) == Unmapped
      modifies this
      ensures Valid() && Frames() == old(Frames())
      ensures ok <==> old(Enough(begin, end))
      ensures ok ==> forall w: nat | w < 0x10_0000_0000 :: Lookup(mem, root, w) == Lookup(old(mem), root, w)
      ensures ok ==> forall w: nat, b: nat | w < 0x10_0000_0000 ::
                Allows(mem, root, w, b) <==> Allows(old(mem), root, w, b)
    {
      hide LinksGo, RightsMapped, Allows;
      hide Tree, TableAt, Lookup, Frames, Enough;
      ghost var stop;
      ok, stop := Map(begin, end, phys, flags);
      if ok {
        ghost var mem1 := mem;
        forall w: nat | begin <= w < end
          ensures HugeWithin(mem, root, begin, end, w)
        {
          RangeWithin(old(mem), root, begin, end, phys, flags, w);
        }
        UnmapAll(begin, end);
        RightsBack(old(mem), mem1, mem, root, begin, stop, flags);
      }
    }
  }

  lemma BlockFrame(begin: nat, phys: nat, w: nat)
    requires begin <= w - w % 512
    ensures (phys + (w - w % 512 - begin)) % 512 == 0 <==> phys % 512 == begin % 512
  {
    var q, a, b := w / 512, phys / 512, begin / 512;
    var d := phys % 512 - begin % 512;
    assert w - w % 512 == 512 * q && phys == 512 * a + phys % 512 && begin == 512 * b + begin % 512;
    assert phys + (w - w % 512 - begin) == 512 * (q + a - b) + d;
  }

  /** A page of the range translates to its own offset from phys exactly when no 2 MiB entry covers it or phys
      and begin agree modulo 2 MiB. */
  lemma TranslatesExactlyIff(mem: Memory, root: nat, begin: nat, end: nat, phys: nat, flags: Flags, w: nat)
    requires begin <= w < end
    ensures Translate(RangeMapping(mem, root, begin, end, phys, flags, w), w) == Some(phys + (w - begin)) <==>
            (HugeBlock(mem, root, begin, end, w) ==> phys % 512 == begin % 512)
  {
    hide TableAt;
    if HugeBlock(mem, root, begin, end, w) {
      BlockFrame(begin, phys, w);
    }
  }

  /** Where they do not agree the first page of a block already translates wrongly: one page off when phys is one
      page past a multiple of 2 MiB (its lowest frame bit is read as the page attribute bit), and otherwise not at
      all (a reserved bit). */
  lemma MisalignedStart(mem: Memory, root: nat, begin: nat, end: nat, phys: nat, flags: Flags)
    requires begin % 512 == 0 && begin + 512 <= end && TableAt(mem, root, begin, 3).None?
    ensures Translate(RangeMapping(mem, root, begin, end, phys, flags, begin), begin) ==
            if phys % 512 <= 1 then Some(phys - phys % 512) else None
  {
    hide TableAt;
    assert HugeBlock(mem, root, begin, end, begin);
  }
}
