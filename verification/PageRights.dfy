/** What the processor allows at a page: the flags that are set in every entry of its walk (Intel SDM volume 3A,
    section 4.6).  The flags of the entries that link tables matter as much as those of the last one. */
module PageRights {
  import opened Options
  import opened PageFreeing
  import opened Paging

  /** PAGE_FLAG_PRESENT and PAGE_FLAG_WRITABLE, as numbers of bits. */
  const PRESENT: nat := 0
  const WRITABLE: nat := 1

  /** Bit b of the flags is set. */
  function Has(flags: nat, b: nat): bool
    decreases b
  {
    if b == 0 then flags % 2 == 1 else Has(flags / 2, b - 1)
  }

  /** The entry that the walk to v meets in the table of level l. */
  function WalkEntry(mem: Memory, root: nat, v: nat, l: nat): Entry
    requires l < 4
  {
    match TableAt(mem, root, v, l)
    case None => Empty
    case Some(f) => EntryAt(mem, f, Index(v, l))
  }

  /** The entry met at level l links a table. */
  predicate LinksAt(mem: Memory, root: nat, v: nat, l: nat)
    requires l < 3
  {
    Next(WalkEntry(mem, root, v, l)).Some?
  }

  /** All entries of the walk to v that link tables have bit b. */
  ghost predicate LinksAllow(mem: Memory, root: nat, v: nat, b: nat)
  {
    forall l: nat | l < 3 && LinksAt(mem, root, v, l) :: Has(WalkEntry(mem, root, v, l).flags, b)
  }

  /** Page v is mapped, and all entries of the walk to it have bit b. */
  ghost predicate Allows(mem: Memory, root: nat, v: nat, b: nat)
  {
    && Lookup(mem, root, v) != Unmapped
    && forall l: nat | l < 4 && WalkEntry(mem, root, v, l).Present? :: Has(WalkEntry(mem, root, v, l).flags, b)
  }

  /** Page v may be read and written. */
  ghost predicate Usable(mem: Memory, root: nat, v: nat)
  {
    Allows(mem, root, v, PRESENT) && Allows(mem, root, v, WRITABLE)
  }

  function FlagsOf(m: Mapping): nat
    requires m != Unmapped
  {
    match m
    case Small(_, flags) => flags
    case Huge(_, flags) => flags
    case Giant(_, flags) => flags
  }

  lemma NextTable(mem: Memory, root: nat, v: nat, l: nat)
    requires l < 3
    ensures TableAt(mem, root, v, l + 1) == Next(WalkEntry(mem, root, v, l))
  {
  }

  /** The walk's last entry, and the table it is in. */
  lemma LastEntry(mem: Memory, root: nat, v: nat)
    ensures match Lookup(mem, root, v)
            case Unmapped => true
            case Small(_, flags) =>
              && LinksAt(mem, root, v, 0) && LinksAt(mem, root, v, 1) && LinksAt(mem, root, v, 2)
              && WalkEntry(mem, root, v, 3).Present? && WalkEntry(mem, root, v, 3).flags == flags
            case Huge(_, flags) =>
              && LinksAt(mem, root, v, 0) && LinksAt(mem, root, v, 1) && !LinksAt(mem, root, v, 2)
              && WalkEntry(mem, root, v, 2).Present? && WalkEntry(mem, root, v, 2).flags == flags
              && WalkEntry(mem, root, v, 3) == Empty
            case Giant(_, flags) =>
              && LinksAt(mem, root, v, 0) && !LinksAt(mem, root, v, 1) && !LinksAt(mem, root, v, 2)
              && WalkEntry(mem, root, v, 1).Present? && WalkEntry(mem, root, v, 1).flags == flags
              && WalkEntry(mem, root, v, 2) == Empty && WalkEntry(mem, root, v, 3) == Empty
  {
    hide Index, EntryAt;
    NextTable(mem, root, v, 0);
    NextTable(mem, root, v, 1);
    NextTable(mem, root, v, 2);
  }

  /** The entries that link tables, and the one that maps the page. */
  lemma AllowsIff(mem: Memory, root: nat, v: nat, b: nat)
    ensures Allows(mem, root, v, b) <==>
              && Lookup(mem, root, v) != Unmapped && LinksAllow(mem, root, v, b)
              && Has(FlagsOf(Lookup(mem, root, v)), b)
  {
    hide WalkEntry, Lookup, Has;
    LastEntry(mem, root, v);
    if Lookup(mem, root, v) != Unmapped && LinksAllow(mem, root, v, b) && Has(FlagsOf(Lookup(mem, root, v)), b) {
      forall l: nat | l < 4 && WalkEntry(mem, root, v, l).Present?
        ensures Has(WalkEntry(mem, root, v, l).flags, b)
      {
        assert l < 3 ==> LinksAt(mem, root, v, l) || !LinksAt(mem, root, v, l);
      }
    }
  }

  /** From mem0 to mem entries that link tables stay, and new ones have the given flags. */
  ghost predicate LinksKept(mem0: Memory, mem: Memory, root: nat, flags: Flags)
  {
    forall v: nat, l: nat {:trigger WalkEntry(mem, root, v, l)} | v < 0x10_0000_0000 && l < 3 ::
      if LinksAt(mem0, root, v, l) then WalkEntry(mem, root, v, l) == WalkEntry(mem0, root, v, l)
      else LinksAt(mem, root, v, l) ==> WalkEntry(mem, root, v, l).flags == flags
  }

  lemma SameLinksKept(mem: Memory, root: nat, flags: Flags)
    ensures LinksKept(mem, mem, root, flags)
  {
  }

  lemma LinksKeptTransitive(mem0: Memory, mem1: Memory, mem: Memory, root: nat, flags: Flags)
    requires LinksKept(mem0, mem1, root, flags) && LinksKept(mem1, mem, root, flags)
    ensures LinksKept(mem0, mem, root, flags)
  {
    hide WalkEntry;
    forall v: nat, l: nat | v < 0x10_0000_0000 && l < 3
      ensures if LinksAt(mem0, root, v, l) then WalkEntry(mem, root, v, l) == WalkEntry(mem0, root, v, l)
              else LinksAt(mem, root, v, l) ==> WalkEntry(mem, root, v, l).flags == flags
    {
      assert WalkEntry(mem1, root, v, l) == WalkEntry(mem1, root, v, l);
    }
  }

  /** From mem0 to mem entries that link tables only go. */
  ghost predicate LinksGo(mem0: Memory, mem: Memory, root: nat)
  {
    forall v: nat, l: nat {:trigger WalkEntry(mem, root, v, l)} |
      v < 0x10_0000_0000 && l < 3 && LinksAt(mem, root, v, l) ::
      WalkEntry(mem, root, v, l) == WalkEntry(mem0, root, v, l)
  }

  lemma SameLinksGo(mem: Memory, root: nat)
    ensures LinksGo(mem, mem, root)
  {
  }

  lemma LinksGoTransitive(mem0: Memory, mem1: Memory, mem: Memory, root: nat)
    requires LinksGo(mem0, mem1, root) && LinksGo(mem1, mem, root)
    ensures LinksGo(mem0, mem, root)
  {
    hide WalkEntry;
    forall v: nat, l: nat | v < 0x10_0000_0000 && l < 3 && LinksAt(mem, root, v, l)
      ensures WalkEntry(mem, root, v, l) == WalkEntry(mem0, root, v, l)
    {
      assert WalkEntry(mem1, root, v, l) == WalkEntry(mem, root, v, l);
    }
  }

  // ---------- what the rights become ----------

  /** A page just mapped has a bit exactly when the flags have it and the entries that linked its tables before. */
  lemma NewAllows(mem0: Memory, mem: Memory, root: nat, flags: Flags, v: nat, b: nat)
    requires LinksKept(mem0, mem, root, flags) && v < 0x10_0000_0000
    requires Lookup(mem, root, v) != Unmapped && FlagsOf(Lookup(mem, root, v)) == flags
    ensures Allows(mem, root, v, b) <==> LinksAllow(mem0, root, v, b) && Has(flags, b)
  {
    AllowsIff(mem, root, v, b);
    hide WalkEntry, Lookup, Has;
    forall l: nat | l < 3
      ensures LinksAt(mem0, root, v, l) ==> WalkEntry(mem, root, v, l) == WalkEntry(mem0, root, v, l)
      ensures !LinksAt(mem0, root, v, l) && LinksAt(mem, root, v, l) ==> WalkEntry(mem, root, v, l).flags == flags
    {
      assert WalkEntry(mem, root, v, l) == WalkEntry(mem, root, v, l);
    }
  }

  /** A page mapped as before has the bits it had. */
  lemma OldAllows(mem0: Memory, mem: Memory, root: nat, flags: Flags, v: nat, b: nat)
    requires LinksKept(mem0, mem, root, flags) && v < 0x10_0000_0000
    requires Lookup(mem, root, v) == Lookup(mem0, root, v)
    ensures Allows(mem, root, v, b) <==> Allows(mem0, root, v, b)
  {
    AllowsIff(mem, root, v, b);
    AllowsIff(mem0, root, v, b);
    LastEntry(mem, root, v);
    LastEntry(mem0, root, v);
    hide WalkEntry, Lookup, Has;
    forall l: nat | l < 3
      ensures LinksAt(mem0, root, v, l) ==> WalkEntry(mem, root, v, l) == WalkEntry(mem0, root, v, l)
    {
      assert WalkEntry(mem, root, v, l) == WalkEntry(mem, root, v, l);
    }
  }

  lemma LeftAllows(mem0: Memory, mem: Memory, root: nat, v: nat, b: nat)
    requires LinksGo(mem0, mem, root) && v < 0x10_0000_0000
    requires Lookup(mem, root, v) == Lookup(mem0, root, v)
    ensures Allows(mem, root, v, b) <==> Allows(mem0, root, v, b)
  {
    AllowsIff(mem, root, v, b);
    AllowsIff(mem0, root, v, b);
    LastEntry(mem, root, v);
    LastEntry(mem0, root, v);
    hide WalkEntry, Lookup, Has;
    forall l: nat | l < 3
      ensures LinksAt(mem, root, v, l) ==> WalkEntry(mem, root, v, l) == WalkEntry(mem0, root, v, l)
    {
      assert WalkEntry(mem, root, v, l) == WalkEntry(mem, root, v, l);
    }
  }

  /** Every entry that links a table allows reading and writing. */
  ghost predicate LinksUsable(mem: Memory, root: nat)
  {
    forall v: nat, l: nat {:trigger WalkEntry(mem, root, v, l)} |
      v < 0x10_0000_0000 && l < 3 && LinksAt(mem, root, v, l) ::
      Has(WalkEntry(mem, root, v, l).flags, PRESENT) && Has(WalkEntry(mem, root, v, l).flags, WRITABLE)
  }

  lemma KernelFlags()
    ensures Has(KERNEL_PAGE_FLAG, PRESENT) && Has(KERNEL_PAGE_FLAG, WRITABLE)
  {
  }

  lemma UsableKept(mem0: Memory, mem: Memory, root: nat)
    requires LinksUsable(mem0, root)
    requires LinksKept(mem0, mem, root, KERNEL_PAGE_FLAG) || LinksGo(mem0, mem, root)
    ensures LinksUsable(mem, root)
  {
    KernelFlags();
    hide WalkEntry, Has;
    forall v: nat, l: nat | v < 0x10_0000_0000 && l < 3 && LinksAt(mem, root, v, l)
      ensures Has(WalkEntry(mem, root, v, l).flags, PRESENT) && Has(WalkEntry(mem, root, v, l).flags, WRITABLE)
    {
      assert WalkEntry(mem0, root, v, l) == WalkEntry(mem0, root, v, l);
    }
  }

  /** A page mapped with the kernel's flags is usable where all links are. */
  lemma UsableHere(mem: Memory, root: nat, v: nat)
    requires LinksUsable(mem, root) && v < 0x10_0000_0000
    requires Lookup(mem, root, v) != Unmapped && FlagsOf(Lookup(mem, root, v)) == KERNEL_PAGE_FLAG
    ensures Usable(mem, root, v)
  {
    KernelFlags();
    AllowsIff(mem, root, v, PRESENT);
    AllowsIff(mem, root, v, WRITABLE);
    hide WalkEntry, Has, Lookup;
  }

  // ---------- by roles ----------

  lemma WalkEntryByRole(mem: Memory, root: nat, plan: Plan, v: nat, l: nat)
    requires Tree(mem, root, plan) && l < 4
    ensures WalkEntry(mem, root, v, l) ==
            if RoleFor(v, l) in plan.at then EntryAt(mem, plan.at[RoleFor(v, l)], Index(v, l)) else Empty
  {
    TableByRole(mem, root, plan, v, l);
  }

  /** A link met on the walk is the one to the table of the level below. */
  lemma LinkedChild(mem: Memory, root: nat, plan: Plan, v: nat, l: nat)
    requires Tree(mem, root, plan) && l < 3 && LinksAt(mem, root, v, l)
    ensures RoleFor(v, l) in plan.at && RoleFor(v, l + 1) in plan.at
    ensures WalkEntry(mem, root, v, l) == EntryAt(mem, plan.at[RoleFor(v, l)], Index(v, l))
  {
    WalkEntryByRole(mem, root, plan, v, l);
    assert EntryFits(mem, plan, plan.at[RoleFor(v, l)], Index(v, l));
  }

  lemma OneTable(mem: Memory, root: nat, plan: Plan, r: Role, f: nat)
    requires Tree(mem, root, plan) && f in mem && r in plan.at
    ensures plan.at[r] == f <==> r == plan.roles[f]
  {
  }

  lemma LinkNewEntries(mem: Memory, root: nat, plan: Plan, f: nat, i: nat, t: nat, flags: Flags, r: Role, j: nat)
    requires Tree(mem, root, plan) && f in mem && i < 512 && t !in mem && j < 512
    requires mem[f][i] == Empty && Sub(plan.roles[f], i) !in plan.at
    ensures var mem', plan' := LinkNew(mem, f, i, t, flags), PlanWith(plan, Sub(plan.roles[f], i), t);
            (if r in plan'.at then EntryAt(mem', plan'.at[r], j) else Empty) ==
            if r == plan.roles[f] && j == i then Present(t, false, flags)
            else if r in plan.at then EntryAt(mem, plan.at[r], j) else Empty
  {
    hide EntryFits, Linked;
    if r in plan.at {
      OneTable(mem, root, plan, r, f);
    }
  }

  /** Linking a cleared table. */
  lemma LinkNewLinks(mem: Memory, root: nat, plan: Plan, f: nat, i: nat, t: nat, flags: Flags)
    requires Tree(mem, root, plan) && f in mem && i < 512 && t !in mem
    requires mem[f][i] == Empty && Level(plan.roles[f]) < 3
    ensures LinksKept(mem, LinkNew(mem, f, i, t, flags), root, flags)
  {
    var mem', plan' := LinkNew(mem, f, i, t, flags), PlanWith(plan, Sub(plan.roles[f], i), t);
    LinkNewTree(mem, root, plan, f, i, t, flags);
    forall v: nat, l: nat | v < 0x10_0000_0000 && l < 3
      ensures if LinksAt(mem, root, v, l) then WalkEntry(mem', root, v, l) == WalkEntry(mem, root, v, l)
              else LinksAt(mem', root, v, l) ==> WalkEntry(mem', root, v, l).flags == flags
    {
      WalkEntryByRole(mem, root, plan, v, l);
      WalkEntryByRole(mem', root, plan', v, l);
      LinkNewEntries(mem, root, plan, f, i, t, flags, RoleFor(v, l), Index(v, l));
    }
  }

  /** Setting or clearing an entry that maps pages. */
  lemma WriteLeafLinks(mem: Memory, root: nat, plan: Plan, f: nat, i: nat, e: Entry, flags: Flags)
    requires Tree(mem, root, plan) && f in mem && i < 512
    requires LeafEntry(e, Level(plan.roles[f])) && LeafEntry(mem[f][i], Level(plan.roles[f]))
    ensures LinksKept(mem, Write(mem, f, i, e), root, flags) && LinksGo(mem, Write(mem, f, i, e), root)
  {
    var mem' := Write(mem, f, i, e);
    WriteLeafTree(mem, root, plan, f, i, e);
    forall v: nat, l: nat | v < 0x10_0000_0000 && l < 3
      ensures LinksAt(mem, root, v, l) || LinksAt(mem', root, v, l) ==>
                WalkEntry(mem', root, v, l) == WalkEntry(mem, root, v, l)
    {
      WalkEntryByRole(mem, root, plan, v, l);
      WalkEntryByRole(mem', root, plan, v, l);
      hide EntryFits, Linked;
      if RoleFor(v, l) in plan.at {
        OneTable(mem, root, plan, RoleFor(v, l), f);
      }
    }
  }

  lemma FreedEntries(mem: Memory, plan: Plan, v: nat, l: nat, r: Role, j: nat)
    requires Consistent(plan) && 1 <= l < 4 && RoleFor(v, l - 1) in plan.at && RoleFor(v, l) in plan.at && j < 512
    requires plan.at[RoleFor(v, l - 1)] in mem && plan.at[RoleFor(v, l)] in mem
    ensures var mem', plan' := Freed(mem, plan, v, l), FreedPlan(mem, plan, v, l);
            r in plan'.at && EntryAt(mem', plan'.at[r], j) != Empty ==>
              r in plan.at && plan'.at[r] == plan.at[r] && EntryAt(mem', plan'.at[r], j) == EntryAt(mem, plan.at[r], j)
  {
    hide EmptyTable;
  }

  /** Giving back a table on the way to v. */
  lemma FreedLinks(mem: Memory, root: nat, plan: Plan, v: nat, l: nat)
    requires Tree(mem, root, plan) && 1 <= l < 4 && RoleFor(v, l) in plan.at
    ensures RoleFor(v, l - 1) in plan.at
    ensures plan.at[RoleFor(v, l - 1)] in mem && plan.at[RoleFor(v, l)] in mem
    ensures LinksGo(mem, Freed(mem, plan, v, l), root)
  {
    FreedTree(mem, root, plan, v, l);
    var mem', plan' := Freed(mem, plan, v, l), FreedPlan(mem, plan, v, l);
    forall w: nat, k: nat | w < 0x10_0000_0000 && k < 3 && LinksAt(mem', root, w, k)
      ensures WalkEntry(mem', root, w, k) == WalkEntry(mem, root, w, k)
    {
      WalkEntryByRole(mem, root, plan, w, k);
      WalkEntryByRole(mem', root, plan', w, k);
      FreedEntries(mem, plan, v, l, RoleFor(w, k), Index(w, k));
    }
  }
}
