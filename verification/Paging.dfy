/** Four-level page tables in memory, and the walk the processor makes through them (Intel SDM volume 3A,
    section 4.5).  Addresses are counted in 4 KiB pages: a virtual page number has four base-512 digits,
    one per level; a frame is a physical page number. */
module Paging {
  import opened Options

  /** The flags of an entry in use: bit 0 is PAGE_FLAG_PRESENT. */
  type Flags = f: nat | f % 2 == 1 witness 1

  /** page_entry_t: the address field as a frame, PAGE_FLAG_HUGE, and the remaining flags; Empty is an
      entry without PAGE_FLAG_PRESENT. */
  datatype Entry = Empty | Present(frame: nat, huge: bool, flags: Flags)

  /** PAGE_FLAG_PRESENT | PAGE_FLAG_WRITABLE */
  const KERNEL_PAGE_FLAG: Flags := 3

  /** pagetable_t */
  type Table = t: seq<Entry> | |t| == 512 witness seq(512, _ => Empty)

  /** Physical memory, as far as it holds page tables. */
  type Memory = map<nat, Table>

  /** memset(table, 0, sizeof(pagetable_t)) */
  function ZeroTable(): Table
  {
    seq(512, _ => Empty)
  }

  /** The leading digits of v that lead to the table of level l: none for the root, all four for l = 4. */
  function Prefix(v: nat, l: nat): nat
    requires l <= 4
    decreases 4 - l
  {
    if l == 4 then v else Prefix(v, l + 1) / 512
  }

  /** The digit of v that indexes the table of level l. */
  function Index(v: nat, l: nat): (i: nat)
    requires l < 4
    ensures i < 512
  {
    Prefix(v, l + 1) % 512
  }

  function EntryAt(mem: Memory, f: nat, i: nat): Entry
    requires i < 512
  {
    if f in mem then mem[f][i] else Empty
  }

  /** The table an entry points to. */
  function Next(e: Entry): Option<nat>
  {
    if e.Present? && !e.huge then Some(e.frame) else None
  }

  /** The frame of the level-l table on the way to v. */
  function TableAt(mem: Memory, root: nat, v: nat, l: nat): Option<nat>
    requires l < 4
  {
    if l == 0 then Some(root)
    else
      match TableAt(mem, root, v, l - 1)
      case None => None
      case Some(f) => Next(EntryAt(mem, f, Index(v, l - 1)))
  }

  /** The walk to a table depends on the digits above it only. */
  lemma {:induction false} TableByPrefix(mem: Memory, root: nat, u: nat, v: nat, l: nat)
    requires l < 4 && Prefix(u, l) == Prefix(v, l)
    ensures TableAt(mem, root, u, l) == TableAt(mem, root, v, l)
  {
    if l == 0 {
    } else {
      TableByPrefix(mem, root, u, v, l - 1);
    }
  }

  /** How v is mapped: not at all, or by an entry for 4 KiB, 2 MiB or 1 GiB. */
  datatype Mapping =
    | Unmapped
    | Small(frame: nat, flags: Flags)
    | Huge(frame: nat, flags: Flags)
    | Giant(frame: nat, flags: Flags)

  function GiantEntry(e: Entry): Mapping
  {
    if e.Present? && e.huge then Giant(e.frame, e.flags) else Unmapped
  }

  /** A page without a table of level 2: the size bit at level 1 maps 1 GiB, and at level 0 is reserved. */
  function LookupGiant(mem: Memory, root: nat, v: nat): Mapping
  {
    match TableAt(mem, root, v, 1)
    case None => Unmapped
    case Some(pdpt) => GiantEntry(EntryAt(mem, pdpt, Index(v, 1)))
  }

  function Lookup(mem: Memory, root: nat, v: nat): Mapping
  {
    match TableAt(mem, root, v, 2)
    case None => LookupGiant(mem, root, v)
    case Some(pdt) =>
      match EntryAt(mem, pdt, Index(v, 2))
      case Empty => Unmapped
      case Present(frame, true, flags) => Huge(frame, flags)
      case Present(pt, false, _) =>
        match EntryAt(mem, pt, Index(v, 3))
        case Empty => Unmapped
        case Present(frame, _, flags) => Small(frame, flags)
  }

  /** The frame v translates to.  A 2 MiB entry takes its frame from bits 21 and up; bit 12 selects the page
      attribute table, and bits 13 to 20 are reserved, so that a one there faults.  So for 1 GiB, with bit 30. */
  function Translate(m: Mapping, v: nat): Option<nat>
  {
    match m
    case Unmapped => None
    case Small(frame, _) => Some(frame)
    case Huge(frame, _) => if frame % 512 <= 1 then Some(frame - frame % 512 + v % 512) else None
    case Giant(frame, _) =>
      if frame % 0x4_0000 <= 1 then Some(frame - frame % 0x4_0000 + v % 0x4_0000) else None
  }

  // ---------- what a table is for ----------

  /** The place of a table in the hierarchy: the root, or below entry i of its parent's table. */
  datatype Role = Root | Sub(parent: Role, i: nat)

  function Level(r: Role): nat
  {
    match r
    case Root => 0
    case Sub(parent, _) => 1 + Level(parent)
  }

  /** The role of the level-l table on the way to v. */
  function RoleFor(v: nat, l: nat): (r: Role)
    requires l < 4
    ensures Level(r) == l
  {
    if l == 0 then Root else Sub(RoleFor(v, l - 1), Index(v, l - 1))
  }

  /** v lies below entry i of the table with role r. */
  predicate Under(v: nat, r: Role, i: nat)
  {
    Level(r) < 4 && RoleFor(v, Level(r)) == r && Index(v, Level(r)) == i
  }

  /** Which table has which role; each map is the inverse of the other. */
  datatype Plan = Plan(at: map<Role, nat>, roles: map<nat, Role>)

  ghost predicate Consistent(plan: Plan)
  {
    && (forall r | r in plan.at :: plan.at[r] in plan.roles && plan.roles[plan.at[r]] == r && Level(r) < 4)
    && (forall f | f in plan.roles :: plan.roles[f] in plan.at && plan.at[plan.roles[f]] == f)
  }

  /** Entry i of table f: a link to the table with the child's role, a 2 MiB entry only at level 2, and a
      4 KiB entry only at level 3. */
  ghost predicate EntryFits(mem: Memory, plan: Plan, f: nat, i: nat)
    requires f in plan.roles && i < 512
  {
    match EntryAt(mem, f, i)
    case Empty => true
    case Present(frame, huge, _) =>
      var r := plan.roles[f];
      if Level(r) == 3 then !huge
      else if huge then Level(r) == 2
      else Sub(r, i) in plan.at && plan.at[Sub(r, i)] == frame
  }

  /** The table with role r is linked from its parent's table. */
  ghost predicate Linked(mem: Memory, plan: Plan, r: Role)
    requires r in plan.at
  {
    r == Root ||
    (r.i < 512 && r.parent in plan.at && Next(EntryAt(mem, plan.at[r.parent], r.i)) == Some(plan.at[r]))
  }

  /** The tables in memory are those of the plan, linked as one tree from the root. */
  ghost predicate Tree(mem: Memory, root: nat, plan: Plan)
  {
    && Consistent(plan) && plan.roles.Keys == mem.Keys
    && root in plan.roles && plan.roles[root] == Root
    && (forall f, i {:trigger EntryFits(mem, plan, f, i)} | f in plan.roles && 0 <= i < 512 ::
          EntryFits(mem, plan, f, i))
    && (forall r {:trigger Linked(mem, plan, r)} | r in plan.at :: Linked(mem, plan, r))
  }

  /** In a tree, the walk to v meets exactly the tables that have v's roles. */
  lemma {:induction false} TableByRole(mem: Memory, root: nat, plan: Plan, v: nat, l: nat)
    requires Tree(mem, root, plan) && l < 4
    ensures TableAt(mem, root, v, l) == if RoleFor(v, l) in plan.at then Some(plan.at[RoleFor(v, l)]) else None
  {
    if l == 0 {
    } else {
      TableByRole(mem, root, plan, v, l - 1);
      var r := RoleFor(v, l - 1);
      if RoleFor(v, l) in plan.at {
        assert Linked(mem, plan, RoleFor(v, l));
      } else if r in plan.at {
        assert EntryFits(mem, plan, plan.at[r], Index(v, l - 1));
      }
    }
  }

  lemma RootRole(mem: Memory, root: nat, plan: Plan, v: nat)
    requires Tree(mem, root, plan)
    ensures RoleFor(v, 0) in plan.at && plan.at[RoleFor(v, 0)] == root
  {
  }

  /** The contents of the level-l table on the way to v. */
  function TableContents(mem: Memory, root: nat, v: nat, l: nat): Option<Table>
    requires l < 4
  {
    match TableAt(mem, root, v, l)
    case None => None
    case Some(f) => if f in mem then Some(mem[f]) else None
  }

  /** The contents of the table with role r. */
  function TableOf(mem: Memory, plan: Plan, r: Role): Option<Table>
  {
    if r in plan.at && plan.at[r] in mem then Some(mem[plan.at[r]]) else None
  }

  /** In a tree they are those of the table with the role. */
  lemma ContentsByRole(mem: Memory, root: nat, plan: Plan, v: nat, l: nat)
    requires Tree(mem, root, plan) && l < 4
    ensures TableContents(mem, root, v, l) == TableOf(mem, plan, RoleFor(v, l))
  {
    TableByRole(mem, root, plan, v, l);
  }

  function SmallEntry(e: Entry): Mapping
  {
    if e.Present? then Small(e.frame, e.flags) else Unmapped
  }

  function HugeEntry(e: Entry): Mapping
  {
    if e.Present? then Huge(e.frame, e.flags) else Unmapped
  }

  /** How v is mapped, by roles. */
  function MappingIn(mem: Memory, plan: Plan, v: nat): Mapping
  {
    var pdt, pt := RoleFor(v, 2), RoleFor(v, 3);
    if pt in plan.at then SmallEntry(EntryAt(mem, plan.at[pt], Index(v, 3)))
    else if pdt in plan.at then HugeEntry(EntryAt(mem, plan.at[pdt], Index(v, 2)))
    else Unmapped
  }

  lemma LookupByRole(mem: Memory, root: nat, plan: Plan, v: nat)
    requires Tree(mem, root, plan)
    ensures Lookup(mem, root, v) == MappingIn(mem, plan, v)
  {
    TableByRole(mem, root, plan, v, 1);
    TableByRole(mem, root, plan, v, 2);
    TableByRole(mem, root, plan, v, 3);
    var pdpt, pdt := RoleFor(v, 1), RoleFor(v, 2);
    if pdpt in plan.at {
      assert EntryFits(mem, plan, plan.at[pdpt], Index(v, 1));
    }
    if pdt in plan.at {
      assert EntryFits(mem, plan, plan.at[pdt], Index(v, 2));
    }
  }

  // ---------- one write ----------

  /** Memory after entry i of table f is set to e. */
  function Write(mem: Memory, f: nat, i: nat, e: Entry): (mem': Memory)
    requires f in mem && i < 512
    ensures mem'.Keys == mem.Keys
  {
    mem[f := mem[f][i := e]]
  }

  /** An entry that maps pages at this level: 4 KiB at level 3, 2 MiB at level 2. */
  predicate LeafEntry(e: Entry, level: nat)
  {
    e == Empty || (e.Present? && (if level == 3 then !e.huge else level == 2 && e.huge))
  }

  lemma LeafNoLink(mem: Memory, plan: Plan, f: nat, i: nat, e: Entry, r: Role)
    requires Consistent(plan) && f in mem && f in plan.roles && i < 512 && r in plan.at && Linked(mem, plan, r)
    requires LeafEntry(mem[f][i], Level(plan.roles[f]))
    ensures Linked(Write(mem, f, i, e), plan, r)
  {
  }

  lemma WriteLeafTree(mem: Memory, root: nat, plan: Plan, f: nat, i: nat, e: Entry)
    requires Tree(mem, root, plan) && f in mem && i < 512
    requires LeafEntry(e, Level(plan.roles[f])) && LeafEntry(mem[f][i], Level(plan.roles[f]))
    ensures Tree(Write(mem, f, i, e), root, plan)
  {
    var mem' := Write(mem, f, i, e);
    forall g, j | g in plan.roles && 0 <= j < 512
      ensures EntryFits(mem', plan, g, j)
    {
      assert EntryFits(mem, plan, g, j);
    }
    forall r | r in plan.at
      ensures Linked(mem', plan, r)
    {
      LeafNoLink(mem, plan, f, i, e, r);
    }
  }

  lemma LeafMapping(mem: Memory, plan: Plan, f: nat, i: nat, e: Entry, v: nat)
    requires Consistent(plan) && f in mem && f in plan.roles && i < 512
    requires LeafEntry(e, Level(plan.roles[f])) && LeafEntry(mem[f][i], Level(plan.roles[f]))
    requires Level(plan.roles[f]) == 2 ==> Sub(plan.roles[f], i) !in plan.at
    ensures MappingIn(Write(mem, f, i, e), plan, v) ==
              if Under(v, plan.roles[f], i) && Level(plan.roles[f]) == 3 then SmallEntry(e)
              else if Under(v, plan.roles[f], i) && Level(plan.roles[f]) == 2 then HugeEntry(e)
              else MappingIn(mem, plan, v)
  {
  }

  /** An entry that links nothing has no table below it. */
  lemma NoTableYet(mem: Memory, root: nat, plan: Plan, f: nat, i: nat)
    requires Tree(mem, root, plan) && f in mem && i < 512
    ensures Sub(plan.roles[f], i) in plan.at ==> Next(mem[f][i]) == Some(plan.at[Sub(plan.roles[f], i)])
  {
    var r := Sub(plan.roles[f], i);
    if r in plan.at {
      assert Linked(mem, plan, r);
    }
  }

  /** After such a write only the pages under the entry can be mapped differently. */
  lemma WriteLeaf(mem: Memory, root: nat, plan: Plan, f: nat, i: nat, e: Entry, v: nat)
    requires Tree(mem, root, plan) && f in mem && i < 512
    requires LeafEntry(e, Level(plan.roles[f])) && LeafEntry(mem[f][i], Level(plan.roles[f]))
    ensures Tree(Write(mem, f, i, e), root, plan)
    ensures Lookup(Write(mem, f, i, e), root, v) ==
              if Under(v, plan.roles[f], i) && Level(plan.roles[f]) == 3 then SmallEntry(e)
              else if Under(v, plan.roles[f], i) && Level(plan.roles[f]) == 2 then HugeEntry(e)
              else Lookup(mem, root, v)
  {
    WriteLeafTree(mem, root, plan, f, i, e);
    LookupByRole(mem, root, plan, v);
    LookupByRole(Write(mem, f, i, e), root, plan, v);
    NoTableYet(mem, root, plan, f, i);
    LeafMapping(mem, plan, f, i, e, v);
  }

  // ---------- adding and removing a table ----------

  /** Memory after a cleared table t is linked at entry i of table f. */
  function LinkNew(mem: Memory, f: nat, i: nat, t: nat, flags: Flags): Memory
    requires f in mem && i < 512 && t !in mem
  {
    Write(mem[t := ZeroTable()], f, i, Present(t, false, flags))
  }

  function PlanWith(plan: Plan, r: Role, t: nat): Plan
  {
    Plan(plan.at[r := t], plan.roles[t := r])
  }

  lemma LinkNewEntry(mem: Memory, plan: Plan, f: nat, i: nat, t: nat, flags: Flags, g: nat, j: nat)
    requires Consistent(plan) && plan.roles.Keys == mem.Keys && f in mem && i < 512 && t !in mem && j < 512
    requires mem[f][i] == Empty && Level(plan.roles[f]) < 3 && Sub(plan.roles[f], i) !in plan.at
    requires g == t || (g in plan.roles && EntryFits(mem, plan, g, j))
    ensures g in PlanWith(plan, Sub(plan.roles[f], i), t).roles
    ensures EntryFits(LinkNew(mem, f, i, t, flags), PlanWith(plan, Sub(plan.roles[f], i), t), g, j)
  {
  }

  lemma LinkNewLinked(mem: Memory, plan: Plan, f: nat, i: nat, t: nat, flags: Flags, q: Role)
    requires Consistent(plan) && plan.roles.Keys == mem.Keys && f in mem && i < 512 && t !in mem
    requires mem[f][i] == Empty && Level(plan.roles[f]) < 3 && Sub(plan.roles[f], i) !in plan.at
    requires q == Sub(plan.roles[f], i) || (q in plan.at && Linked(mem, plan, q))
    ensures q in PlanWith(plan, Sub(plan.roles[f], i), t).at
    ensures Linked(LinkNew(mem, f, i, t, flags), PlanWith(plan, Sub(plan.roles[f], i), t), q)
  {
  }

  lemma LinkNewTree(mem: Memory, root: nat, plan: Plan, f: nat, i: nat, t: nat, flags: Flags)
    requires Tree(mem, root, plan) && f in mem && i < 512 && t !in mem
    requires mem[f][i] == Empty && Level(plan.roles[f]) < 3
    ensures Sub(plan.roles[f], i) !in plan.at
    ensures Tree(LinkNew(mem, f, i, t, flags), root, PlanWith(plan, Sub(plan.roles[f], i), t))
  {
    var r := Sub(plan.roles[f], i);
    var mem', plan' := LinkNew(mem, f, i, t, flags), PlanWith(plan, r, t);
    NoTableYet(mem, root, plan, f, i);
    forall g, j | g in plan'.roles && 0 <= j < 512
      ensures EntryFits(mem', plan', g, j)
    {
      LinkNewEntry(mem, plan, f, i, t, flags, g, j);
    }
    forall q | q in plan'.at
      ensures Linked(mem', plan', q)
    {
      LinkNewLinked(mem, plan, f, i, t, flags, q);
    }
  }

  lemma LinkMapping(mem: Memory, plan: Plan, f: nat, i: nat, t: nat, flags: Flags, v: nat)
    requires Consistent(plan) && plan.roles.Keys == mem.Keys && f in mem && i < 512 && t !in mem
    requires mem[f][i] == Empty && Level(plan.roles[f]) < 3 && Sub(plan.roles[f], i) !in plan.at
    requires RoleFor(v, 3) in plan.at ==> RoleFor(v, 2) in plan.at
    ensures MappingIn(LinkNew(mem, f, i, t, flags), PlanWith(plan, Sub(plan.roles[f], i), t), v) ==
            MappingIn(mem, plan, v)
  {
  }

  lemma ParentPresent(mem: Memory, root: nat, plan: Plan, r: Role)
    requires Tree(mem, root, plan) && r.Sub?
    ensures r in plan.at ==> r.parent in plan.at
  {
    if r in plan.at {
      assert Linked(mem, plan, r);
    }
  }

  /** A newly linked empty table changes no page's mapping. */
  lemma LinkNewSame(mem: Memory, root: nat, plan: Plan, f: nat, i: nat, t: nat, flags: Flags, v: nat)
    requires Tree(mem, root, plan) && f in mem && i < 512 && t !in mem
    requires mem[f][i] == Empty && Level(plan.roles[f]) < 3
    ensures Lookup(LinkNew(mem, f, i, t, flags), root, v) == Lookup(mem, root, v)
  {
    LinkNewTree(mem, root, plan, f, i, t, flags);
    LookupByRole(mem, root, plan, v);
    LookupByRole(LinkNew(mem, f, i, t, flags), root, PlanWith(plan, Sub(plan.roles[f], i), t), v);
    ParentPresent(mem, root, plan, RoleFor(v, 3));
    LinkMapping(mem, plan, f, i, t, flags, v);
  }

  predicate EmptyTable(t: Table)
  {
    forall i | 0 <= i < 512 :: t[i] == Empty
  }

  /** Memory after the table t linked at entry i of table f is unlinked and given back. */
  function Unlink(mem: Memory, f: nat, i: nat, t: nat): Memory
    requires f in mem && i < 512
  {
    Write(mem, f, i, Empty) - {t}
  }

  function PlanWithout(plan: Plan, r: Role, t: nat): Plan
  {
    Plan(plan.at - {r}, plan.roles - {t})
  }

  lemma UnlinkEntry(mem: Memory, plan: Plan, f: nat, i: nat, t: nat, g: nat, j: nat)
    requires Consistent(plan) && plan.roles.Keys == mem.Keys && f in mem && i < 512 && t in mem && f != t
    requires plan.roles[t] == Sub(plan.roles[f], i) && Level(plan.roles[f]) < 3
    requires g in mem && g != t && j < 512 && EntryFits(mem, plan, g, j)
    ensures g in PlanWithout(plan, plan.roles[t], t).roles
    ensures EntryFits(Unlink(mem, f, i, t), PlanWithout(plan, plan.roles[t], t), g, j)
  {
  }

  lemma UnlinkLinked(mem: Memory, plan: Plan, f: nat, i: nat, t: nat, q: Role)
    requires Consistent(plan) && plan.roles.Keys == mem.Keys && f in mem && i < 512 && t in mem && f != t
    requires EmptyTable(mem[t])
    requires plan.roles[t] == Sub(plan.roles[f], i) && q in plan.at && q != plan.roles[t] && Linked(mem, plan, q)
    ensures Linked(Unlink(mem, f, i, t), PlanWithout(plan, plan.roles[t], t), q)
  {
  }

  lemma UnlinkTree(mem: Memory, root: nat, plan: Plan, f: nat, i: nat, t: nat)
    requires Tree(mem, root, plan) && f in mem && i < 512 && t in mem
    requires Level(plan.roles[f]) < 3 && Next(mem[f][i]) == Some(t) && EmptyTable(mem[t])
    ensures f != t && plan.roles[t] == Sub(plan.roles[f], i)
    ensures Tree(Unlink(mem, f, i, t), root, PlanWithout(plan, plan.roles[t], t))
  {
    assert EntryFits(mem, plan, f, i);
    var r := Sub(plan.roles[f], i);
    var mem', plan' := Unlink(mem, f, i, t), PlanWithout(plan, r, t);
    forall g, j | g in plan'.roles && 0 <= j < 512
      ensures EntryFits(mem', plan', g, j)
    {
      UnlinkEntry(mem, plan, f, i, t, g, j);
    }
    forall q | q in plan'.at
      ensures Linked(mem', plan', q)
    {
      UnlinkLinked(mem, plan, f, i, t, q);
    }
  }

  lemma UnlinkMapping(mem: Memory, plan: Plan, f: nat, i: nat, t: nat, v: nat)
    requires Consistent(plan) && plan.roles.Keys == mem.Keys && f in mem && i < 512 && t in mem && f != t
    requires EmptyTable(mem[t]) && plan.roles[t] == Sub(plan.roles[f], i) && Level(plan.roles[f]) < 3
    requires RoleFor(v, 3) in plan.at ==> RoleFor(v, 2) in plan.at && RoleFor(v, 2) != plan.roles[t]
    ensures MappingIn(Unlink(mem, f, i, t), PlanWithout(plan, plan.roles[t], t), v) == MappingIn(mem, plan, v)
  {
  }

  /** No table hangs below an empty one. */
  lemma NoTablesBelow(mem: Memory, root: nat, plan: Plan, t: nat, v: nat)
    requires Tree(mem, root, plan) && t in mem && EmptyTable(mem[t])
    ensures RoleFor(v, 3) in plan.at ==> RoleFor(v, 2) != plan.roles[t]
  {
    if RoleFor(v, 2) == plan.roles[t] {
      NoTableYet(mem, root, plan, t, Index(v, 2));
    }
  }

  /** Unlinking an empty table changes no page's mapping; there was nothing mapped under it. */
  lemma UnlinkSame(mem: Memory, root: nat, plan: Plan, f: nat, i: nat, t: nat, v: nat)
    requires Tree(mem, root, plan) && f in mem && i < 512 && t in mem
    requires Level(plan.roles[f]) < 3 && Next(mem[f][i]) == Some(t) && EmptyTable(mem[t])
    ensures Lookup(Unlink(mem, f, i, t), root, v) == Lookup(mem, root, v)
  {
    UnlinkTree(mem, root, plan, f, i, t);
    LookupByRole(mem, root, plan, v);
    LookupByRole(Unlink(mem, f, i, t), root, PlanWithout(plan, plan.roles[t], t), v);
    ParentPresent(mem, root, plan, RoleFor(v, 3));
    NoTablesBelow(mem, root, plan, t, v);
    UnlinkMapping(mem, plan, f, i, t, v);
  }

  /** v lies below the table with role r. */
  predicate Below(v: nat, r: Role)
  {
    Level(r) < 4 && RoleFor(v, Level(r)) == r
  }

  /** No page below the table with role r is mapped. */
  ghost predicate NothingBelow(mem: Memory, root: nat, r: Role)
  {
    forall v: nat | v < 0x10_0000_0000 && Below(v, r) :: Lookup(mem, root, v) == Unmapped
  }

  /** A table of v's walk is linked only below one of the level above. */
  lemma {:induction false} Upward(mem: Memory, root: nat, plan: Plan, v: nat, k: nat, l: nat)
    requires Tree(mem, root, plan) && k <= l < 4
    ensures RoleFor(v, l) in plan.at ==> RoleFor(v, k) in plan.at
    decreases l
  {
    if k >= l {
    } else {
      ParentPresent(mem, root, plan, RoleFor(v, l));
      Upward(mem, root, plan, v, k, l - 1);
    }
  }

  lemma UnmappedBelowEmpty(mem: Memory, root: nat, plan: Plan, t: nat, v: nat)
    requires Tree(mem, root, plan) && t in mem && EmptyTable(mem[t]) && Below(v, plan.roles[t])
    ensures Lookup(mem, root, v) == Unmapped
  {
    var l := Level(plan.roles[t]);
    LookupByRole(mem, root, plan, v);
    if l < 3 {
      NoTableYet(mem, root, plan, t, Index(v, l));
      Upward(mem, root, plan, v, l + 1, 3);
    }
    if l < 2 {
      Upward(mem, root, plan, v, l + 1, 2);
    }
  }

  /** Nothing is mapped below an empty table. */
  lemma BelowEmpty(mem: Memory, root: nat, plan: Plan, t: nat)
    requires Tree(mem, root, plan) && t in mem && EmptyTable(mem[t])
    ensures NothingBelow(mem, root, plan.roles[t])
  {
    forall v: nat | v < 0x10_0000_0000 && Below(v, plan.roles[t])
      ensures Lookup(mem, root, v) == Unmapped
    {
      UnmappedBelowEmpty(mem, root, plan, t, v);
    }
  }
}
