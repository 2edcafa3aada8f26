/** pagetable_construct_kernel of kernel/src/arch/x86_64/memory.c, and the address space that it and
    pagetable_construct_dyn leave: a tree of tables that maps the kernel, the pages of the memory map and nothing
    else. */
module KernelTables {
  import opened Dynmem
  import opened DynPages
  import opened DynTables
  import opened Leftovers
  import opened PageIterators
  import opened PageRights
  import opened PagetableConstruct
  import opened Options
  import opened Paging

  /** KERNEL_START_PHYS and KERNEL_START_VIRT, in pages. */
  const KERNEL_PHYS: nat := 0x200
  const KERNEL_VIRT: nat := 0xF_FFF8_0000

  function HugeLink(frame: nat): Entry
  {
    Present(frame, true, KERNEL_PAGE_FLAG)
  }

  /** The directory of the kernel: 4 MiB of image, and the stack. */
  function KernelDirectory(stack: nat): Table
  {
    ZeroTable()[0 := HugeLink(KERNEL_PHYS)][1 := HugeLink(KERNEL_PHYS + 512)][0x78 := HugeLink(stack)]
  }

  /** Memory after pagetable_construct_kernel. */
  function WithKernel(mem0: Memory, root: nat, pdpt: nat, pdt: nat, stack: nat): Memory
  {
    mem0[root := ZeroTable()[511 := Link(pdpt)]][pdpt := ZeroTable()[510 := Link(pdt)]][pdt := KernelDirectory(stack)]
  }

  /** pagetable_construct_kernel, on static tables, which are zero at the start. */
  method PagetableConstructKernel(mem0: Memory, root: nat, pdpt: nat, pdt: nat, stack: nat) returns (mem: Memory)
    requires root in mem0 && pdpt in mem0 && pdt in mem0 && root != pdpt && root != pdt && pdpt != pdt
    requires mem0[root] == mem0[pdpt] == mem0[pdt] == ZeroTable()
    ensures mem == WithKernel(mem0, root, pdpt, pdt, stack)
  {
    mem := Write(mem0, root, 511, Link(pdpt));
    mem := Write(mem, pdpt, 510, Link(pdt));
    WriteTwice(mem, pdt, 0, HugeLink(KERNEL_PHYS), 1, HugeLink(KERNEL_PHYS + 512));
    mem := Write(mem, pdt, 0, HugeLink(KERNEL_PHYS));
    mem := Write(mem, pdt, 1, HugeLink(KERNEL_PHYS + 512));
    mem := Write(mem, pdt, 0x78, HugeLink(stack));
  }

  // ---------- the state after pagetable_construct ----------

  /** The root table, the pages of the memory map and which of them hold tables, the kernel's tables, and memory at
      the start. */
  datatype Boot = Boot(root: nat, pages: seq<nat>, built: Directories, count: nat, pdpt: nat, pdt: nat, stack: nat,
                       start: Memory)

  /** The kernel's tables are not among the pages, and they and the upper half of the root table are as
      pagetable_construct_kernel left them. */
  ghost predicate KernelOk(mem: Memory, b: Boot)
  {
    && b.root in mem && b.pdpt in mem && b.pdt in mem
    && b.root != b.pdpt && b.root != b.pdt && b.pdpt != b.pdt && b.pdpt !in b.pages && b.pdt !in b.pages
    && (forall i | 256 <= i < 512 :: mem[b.root][i] == if i == 511 then Link(b.pdpt) else Empty)
    && mem[b.pdpt] == ZeroTable()[510 := Link(b.pdt)] && mem[b.pdt] == KernelDirectory(b.stack)
  }

  /** What was in the first pages before does not spoil the tree. */
  ghost predicate StartFits(b: Boot)
  {
    LeftoversFit(b.start, b.root, b.pages)
  }

  ghost predicate BootOk(mem: Memory, b: Boot)
  {
    && KernelOk(mem, b) && Built(b.start, mem, b.root, b.pages, b.built, b.count)
    && 512 + |b.pages| <= 0x8_0000_0000
  }

  /** The kernel's tables outlast the construction of the other ones. */
  lemma KernelStays(mem0: Memory, mem: Memory, b: Boot, base: Memory)
    requires KernelOk(mem0, b) && Outside(base, mem, b.root, b.pages) && base.Keys == mem0.Keys
    requires base[b.root] == mem0[b.root] && base[b.pdpt] == mem0[b.pdpt] && base[b.pdt] == mem0[b.pdt]
    ensures KernelOk(mem, b)
  {
    assert b.root in mem && b.pdpt in mem && b.pdt in mem;
    assert mem[b.pdpt] == base[b.pdpt] && mem[b.pdt] == base[b.pdt];
    assert forall i | 256 <= i < 512 :: mem[b.root][i] == base[b.root][i];
  }

  // ---------- the roles of the tables ----------

  /** The role of a place, and the place of a role. */
  function PlaceRole(q: Place): (r: Role)
    ensures Level(r) == q.level
    decreases q.level
  {
    if q.level == 0 then Root else Sub(PlaceRole(Place(q.level - 1, q.prefix / 512)), q.prefix % 512)
  }

  function RolePlace(r: Role): (q: Place)
    ensures q.level == Level(r)
  {
    match r
    case Root => Place(0, 0)
    case Sub(parent, i) => Place(1 + RolePlace(parent).level, 512 * RolePlace(parent).prefix + i)
  }

  /** The digits of the prefix are as many as the level. */
  predicate Proper(q: Place)
    decreases q.level
  {
    if q.level == 0 then q.prefix == 0 else Proper(Place(q.level - 1, q.prefix / 512))
  }

  lemma {:induction false} PlaceOfRole(q: Place)
    requires Proper(q)
    ensures RolePlace(PlaceRole(q)) == q
    decreases q.level
  {
    if q.level == 0 {
    } else {
      PlaceOfRole(Place(q.level - 1, q.prefix / 512));
    }
  }

  /** A placed table is linked from the root table, or from a placed one. */
  lemma {:induction false} AtProper(mem: Memory, root: nat, pages: seq<nat>, at: Placement, n: nat, q: Place)
    requires Directory(mem, root, pages, at, n) && q in at
    ensures Proper(q) && 1 <= q.level < 4
    ensures if q.level == 1 then q.prefix / 512 == 0 else Place(q.level - 1, q.prefix / 512) in at
    decreases q.level
  {
    assert LinkedAt(mem, root, pages, at, q);
    if q.level == 1 {
      assert Proper(Place(0, 0));
    } else {
      AtProper(mem, root, pages, at, n, Place(q.level - 1, q.prefix / 512));
    }
  }

  /** The roles of the placed tables. */
  ghost function DynRoles(at: Placement): set<Role>
  {
    set q | q in at :: PlaceRole(q)
  }

  const KPdpt: Role := Sub(Root, 511)
  const KPdt: Role := Sub(Sub(Root, 511), 510)

  /** Which frame has which role: by the placement, and the kernel's. */
  ghost function RoleFrame(b: Boot, r: Role): nat
  {
    if r == Root then b.root
    else if r == KPdpt then b.pdpt
    else if r == KPdt then b.pdt
    else
      var q := RolePlace(r);
      if q in b.built.at && b.built.at[q] < |b.pages| then b.pages[b.built.at[q]] else 0
  }

  ghost function BootAt(b: Boot): map<Role, nat>
  {
    map r | r in DynRoles(b.built.at) + {Root, KPdpt, KPdt} :: RoleFrame(b, r)
  }

  ghost function RoleAt(at: map<Role, nat>, f: nat): (r: Role)
    requires f in at.Values
    ensures r in at && at[r] == f
  {
    var r :| r in at && at[r] == f;
    r
  }

  ghost function BootPlan(b: Boot): Plan
  {
    var at := BootAt(b);
    Plan(at, map f | f in at.Values :: RoleAt(at, f))
  }

  /** Memory as far as it is in the given frames. */
  function Restrict(mem: Memory, frames: set<nat>): Memory
  {
    map f | f in frames && f in mem :: mem[f]
  }

  /** The memory that holds the tables. */
  ghost function TableMemory(mem: Memory, b: Boot): Memory
  {
    Restrict(mem, BootAt(b).Values)
  }

  lemma TopRole(q: Place)
    requires q.level == 1 ==> q.prefix < 256
    requires q.level == 2 ==> q.prefix / 512 < 256
    ensures PlaceRole(q) != KPdpt && PlaceRole(q) != KPdt
  {
    if q.level == 2 {
      assert PlaceRole(q) == Sub(PlaceRole(Place(1, q.prefix / 512)), q.prefix % 512);
      assert PlaceRole(Place(1, q.prefix / 512)) == Sub(Root, q.prefix / 512 % 512);
    }
  }

  lemma PlaceInPages(mem: Memory, root: nat, pages: seq<nat>, at: Placement, n: nat, q: Place)
    requires Directory(mem, root, pages, at, n) && q in at
    ensures at[q] < n <= |pages| && pages[at[q]] in mem && pages[at[q]] != root && pages[at[q]] in pages
    ensures LinkedAt(mem, root, pages, at, q)
  {
  }

  lemma LastBelow(last: seq<nat>, n: nat)
    requires |last| == 4 && last[3] == 511 + n && 512 + n <= 0x8_0000_0000
    requires last[2] == last[3] / 512 && last[1] == last[2] / 512 && last[0] == last[1] / 512
    ensures last[0] < 256
  {
  }

  /** A placed table is below the lower half of the root table. */
  lemma DynRole(mem: Memory, b: Boot, q: Place)
    requires BootOk(mem, b) && q in b.built.at
    ensures var r := PlaceRole(q);
            && r in BootAt(b) && r != Root && r != KPdpt && r != KPdt && RolePlace(r) == q
            && b.built.at[q] < |b.pages| && BootAt(b)[r] == b.pages[b.built.at[q]]
    ensures 1 <= q.level < 4 && (q.level == 1 ==> q.prefix < 256)
    ensures q.level == 1 || Place(q.level - 1, q.prefix / 512) in b.built.at
  {
    hide Directory, Kept, AllPlaced;
    var at, last := b.built.at, b.built.last;
    AtProper(mem, b.root, b.pages, at, |b.pages|, q);
    PlaceOfRole(q);
    PlaceInPages(mem, b.root, b.pages, at, |b.pages|, q);
    LastBelow(last, |b.pages|);
    if q.level == 2 {
      AtProper(mem, b.root, b.pages, at, |b.pages|, Place(1, q.prefix / 512));
    }
    TopRole(q);
    assert PlaceRole(q) in DynRoles(at);
  }

  /** Each role is the root's, one of the kernel's two, or that of a placed table. */
  lemma RoleCases(b: Boot, r: Role) returns (q: Place)
    requires r in BootAt(b) && r != Root && r != KPdpt && r != KPdt
    ensures q in b.built.at && r == PlaceRole(q)
  {
    q :| q in b.built.at && r == PlaceRole(q);
  }

  // ---------- they form a tree ----------

  lemma BuiltPlace(mem: Memory, b: Boot, q: Place)
    requires BootOk(mem, b) && q in b.built.at
    ensures b.built.at[q] < |b.pages| && b.pages[b.built.at[q]] in mem && b.pages[b.built.at[q]] in b.pages
    ensures b.root !in b.pages && LinkedAt(mem, b.root, b.pages, b.built.at, q)
  {
    hide Directory;
    PlaceInPages(mem, b.root, b.pages, b.built.at, |b.pages|, q);
    RootNoPage(mem, b.root, b.pages, b.built.at, |b.pages|);
  }

  /** The frames of the tables are in memory. */
  lemma FrameInMemory(mem: Memory, b: Boot, r: Role)
    requires BootOk(mem, b) && r in BootAt(b)
    ensures BootAt(b)[r] in mem && Level(r) < 4
  {
    hide Built, PlaceRole, RolePlace;
    if r != Root && r != KPdpt && r != KPdt {
      var q := RoleCases(b, r);
      DynRole(mem, b, q);
      BuiltPlace(mem, b, q);
    }
  }

  lemma SamePlace(mem: Memory, b: Boot, q: Place, p: Place)
    requires BootOk(mem, b) && q in b.built.at && p in b.built.at
    requires b.built.at[q] < |b.pages| && b.built.at[p] < |b.pages|
    requires b.pages[b.built.at[q]] == b.pages[b.built.at[p]]
    ensures q == p
  {
  }

  /** Different roles are different frames'. */
  lemma FrameOnce(mem: Memory, b: Boot, r: Role, s: Role)
    requires BootOk(mem, b) && r in BootAt(b) && s in BootAt(b) && BootAt(b)[r] == BootAt(b)[s]
    ensures r == s
  {
    hide Built, PlaceRole, RolePlace;
    var kernel := {Root, KPdpt, KPdt};
    if r in kernel || s in kernel {
      var t := if r in kernel then s else r;
      if t !in kernel {
        var q := RoleCases(b, t);
        DynRole(mem, b, q);
        BuiltPlace(mem, b, q);
      }
    } else {
      var q := RoleCases(b, r);
      var p := RoleCases(b, s);
      DynRole(mem, b, q);
      DynRole(mem, b, p);
      SamePlace(mem, b, q, p);
    }
  }

  lemma BootConsistent(mem: Memory, b: Boot)
    requires BootOk(mem, b)
    ensures Consistent(BootPlan(b)) && BootPlan(b).roles.Keys == TableMemory(mem, b).Keys
    ensures BootPlan(b).at == BootAt(b)
    ensures forall r | r in BootAt(b) :: BootAt(b)[r] in BootPlan(b).roles && BootPlan(b).roles[BootAt(b)[r]] == r
  {
    hide BootOk, StartFits, BootAt;
    var at, plan := BootAt(b), BootPlan(b);
    forall r | r in at
      ensures at[r] in plan.roles && plan.roles[at[r]] == r && Level(r) < 4 && at[r] in mem
    {
      FrameInMemory(mem, b, r);
      assert at[r] in at.Values;
      FrameOnce(mem, b, plan.roles[at[r]], r);
    }
  }

  /** Entry i of a placed table is entry number 512 * prefix + i of its level. */
  lemma EntryOf(mem: Memory, b: Boot, q: Place, i: nat)
    requires BootOk(mem, b) && q in b.built.at && i < 512
    ensures b.built.at[q] < |b.pages|
    ensures EntryAt(mem, b.pages[b.built.at[q]], i) ==
            EntryNumber(mem, b.root, b.pages, b.built.at, q.level, 512 * q.prefix + i)
  {
    hide Built, PlaceRole, RolePlace;
    DynRole(mem, b, q);
    assert (512 * q.prefix + i) / 512 == q.prefix && (512 * q.prefix + i) % 512 == i;
  }

  lemma PageMapped(mem: Memory, b: Boot, e: nat)
    requires BootOk(mem, b) && 512 <= e <= b.built.last[3]
    ensures e - 512 < |b.pages|
    ensures EntryNumber(mem, b.root, b.pages, b.built.at, 3, e) == Link(b.pages[e - 512])
  {
    assert MappedAt(mem, b.root, b.pages, b.built.at, e - 512);
  }

  /** An entry in use links a placed table, or maps a page; another one may map pages. */
  lemma EntryInUse(mem: Memory, b: Boot, l: nat, e: nat)
    requires BootOk(mem, b) && StartFits(b) && l < 4 && (l == 0 ==> e < 256)
    ensures var at := b.built.at;
            var entry := EntryNumber(mem, b.root, b.pages, at, l, e);
            || LeafEntry(entry, l)
            || (l < 3 && Place(l + 1, e) in at && at[Place(l + 1, e)] < |b.pages| &&
                entry == Link(b.pages[at[Place(l + 1, e)]]))
  {
    hide Directory, EntryNumber, LeftoversFit;
    var last := b.built.last;
    if Unused(last, l, e) {
      LeftoverFits(b.start, mem, b.root, b.pages, b.built, b.count, l, e);
    } else if l == 3 {
      PageMapped(mem, b, e);
    } else {
      assert AllPlaced(b.built.at, last, l + 1);
      assert Place(l + 1, e) in b.built.at;
      BuiltPlace(mem, b, Place(l + 1, e));
    }
  }

  lemma PlacedEntry(mem: Memory, b: Boot, q: Place, i: nat)
    requires BootOk(mem, b) && StartFits(b) && q in b.built.at && i < 512
    ensures b.built.at[q] < |b.pages|
    ensures var at := b.built.at;
            var entry, child := EntryAt(mem, b.pages[at[q]], i), Place(q.level + 1, 512 * q.prefix + i);
            || LeafEntry(entry, q.level)
            || (q.level < 3 && child in at && at[child] < |b.pages| && entry == Link(b.pages[at[child]]))
  {
    hide BootOk, StartFits, EntryAt, EntryNumber, PlaceRole, RolePlace;
    DynRole(mem, b, q);
    EntryOf(mem, b, q, i);
    EntryInUse(mem, b, q.level, 512 * q.prefix + i);
  }

  /** Tables are in both memories alike. */
  lemma TableSame(mem: Memory, b: Boot, f: nat)
    requires f in TableMemory(mem, b).Keys
    ensures f in mem && TableMemory(mem, b)[f] == mem[f]
    ensures forall i | 0 <= i < 512 :: EntryAt(TableMemory(mem, b), f, i) == EntryAt(mem, f, i)
  {
  }

  lemma ChildRole(q: Place, i: nat)
    requires i < 512
    ensures PlaceRole(Place(q.level + 1, 512 * q.prefix + i)) == Sub(PlaceRole(q), i)
  {
    assert (512 * q.prefix + i) / 512 == q.prefix && (512 * q.prefix + i) % 512 == i;
  }

  /** An entry of a placed table maps a page, or links the table with the role below. */
  lemma DynEntry(mem: Memory, b: Boot, q: Place, i: nat)
    requires BootOk(mem, b) && StartFits(b) && q in b.built.at && i < 512
    ensures PlaceRole(q) in BootAt(b)
    ensures var entry, r := EntryAt(mem, BootAt(b)[PlaceRole(q)], i), Sub(PlaceRole(q), i);
            || LeafEntry(entry, q.level)
            || (q.level < 3 && r in BootAt(b) && entry == Link(BootAt(b)[r]))
  {
    hide BootOk, StartFits, EntryAt, BootAt, PlaceRole, RolePlace;
    DynRole(mem, b, q);
    PlacedEntry(mem, b, q, i);
    ChildRole(q, i);
    var child := Place(q.level + 1, 512 * q.prefix + i);
    if child in b.built.at {
      DynRole(mem, b, child);
    }
  }

  lemma RoleOfFrame(mem: Memory, b: Boot, r: Role)
    requires BootOk(mem, b) && r in BootAt(b)
    ensures BootAt(b)[r] in BootPlan(b).roles && BootPlan(b).roles[BootAt(b)[r]] == r && BootPlan(b).at == BootAt(b)
  {
    hide BootOk, StartFits, BootAt;
    BootConsistent(mem, b);
  }

  /** The table of a role, and its entries. */
  lemma RoleEntries(mem: Memory, b: Boot, r: Role)
    requires BootOk(mem, b) && r in BootAt(b)
    ensures r in BootPlan(b).at && BootPlan(b).at[r] == BootAt(b)[r]
    ensures forall i: nat | i < 512 :: EntryAt(TableMemory(mem, b), BootAt(b)[r], i) == EntryAt(mem, BootAt(b)[r], i)
  {
    hide BootOk, StartFits, BootAt;
    FrameInMemory(mem, b, r);
    assert BootAt(b)[r] in BootAt(b).Values;
  }

  /** Every entry of a placed table fits. */
  lemma DynEntryFits(mem: Memory, b: Boot, q: Place, i: nat)
    requires BootOk(mem, b) && StartFits(b) && q in b.built.at && i < 512
    ensures b.built.at[q] < |b.pages| && b.pages[b.built.at[q]] in BootPlan(b).roles
    ensures EntryFits(TableMemory(mem, b), BootPlan(b), b.pages[b.built.at[q]], i)
  {
    hide BootOk, StartFits, BootAt, BootPlan, TableMemory, PlaceRole, RolePlace;
    DynRole(mem, b, q);
    RoleOfFrame(mem, b, PlaceRole(q));
    RoleEntries(mem, b, PlaceRole(q));
    DynEntry(mem, b, q, i);
  }

  /** The entries that the kernel's tables begin with. */
  lemma KernelEntries(mem: Memory, b: Boot, i: nat)
    requires BootOk(mem, b) && i < 512
    ensures i >= 256 ==> EntryAt(mem, b.root, i) == if i == 511 then Link(b.pdpt) else Empty
    ensures EntryAt(mem, b.pdpt, i) == if i == 510 then Link(b.pdt) else Empty
    ensures EntryAt(mem, b.pdt, i) == Empty || (EntryAt(mem, b.pdt, i).Present? && EntryAt(mem, b.pdt, i).huge)
  {
    hide Built;
  }

  lemma KernelRoles(b: Boot)
    ensures Root in BootAt(b) && BootAt(b)[Root] == b.root
    ensures KPdpt in BootAt(b) && BootAt(b)[KPdpt] == b.pdpt
    ensures KPdt in BootAt(b) && BootAt(b)[KPdt] == b.pdt
  {
  }

  lemma RootEntryNumber(mem: Memory, b: Boot, i: nat)
    requires i < 256
    ensures EntryNumber(mem, b.root, b.pages, b.built.at, 0, i) == EntryAt(mem, b.root, i)
  {
  }

  lemma RootPlace()
    ensures PlaceRole(Place(0, 0)) == Root
  {
  }

  /** And every entry of the root table and the kernel's two. */
  lemma RootEntryFits(mem: Memory, b: Boot, i: nat)
    requires BootOk(mem, b) && StartFits(b) && i < 512
    ensures b.root in BootPlan(b).roles && EntryFits(TableMemory(mem, b), BootPlan(b), b.root, i)
  {
    hide Built, EntryNumber, BootAt, BootPlan, TableMemory, PlaceRole, BootOk, StartFits, RolePlace;
    KernelRoles(b);
    RoleOfFrame(mem, b, Root);
    RoleEntries(mem, b, Root);
    KernelEntries(mem, b, i);
    RootPlace();
    if i < 256 {
      EntryInUse(mem, b, 0, i);
      RootEntryNumber(mem, b, i);
      ChildRole(Place(0, 0), i);
      if Place(1, i) in b.built.at {
        DynRole(mem, b, Place(1, i));
      }
    }
  }

  lemma KernelEntryFits(mem: Memory, b: Boot, r: Role, i: nat)
    requires BootOk(mem, b) && r in {KPdpt, KPdt} && i < 512
    ensures r in BootAt(b) && BootAt(b)[r] in BootPlan(b).roles
    ensures EntryFits(TableMemory(mem, b), BootPlan(b), BootAt(b)[r], i)
  {
    hide BootAt, BootPlan, TableMemory, BootOk, StartFits;
    KernelRoles(b);
    RoleOfFrame(mem, b, r);
    RoleEntries(mem, b, r);
    KernelEntries(mem, b, i);
  }

  /** The link of a placed table. */
  lemma LinkOf(mem: Memory, b: Boot, q: Place)
    requires BootOk(mem, b) && q in b.built.at
    ensures var r := PlaceRole(q);
            && r in BootAt(b) && r.Sub? && r.i < 512 && r.parent in BootAt(b)
            && EntryAt(mem, BootAt(b)[r.parent], r.i) == Link(BootAt(b)[r])
  {
    hide Built, BootAt, BootOk, StartFits, FrameAt, EntryNumber, PlaceRole, RolePlace;
    DynRole(mem, b, q);
    BuiltPlace(mem, b, q);
    var p := Place(q.level - 1, q.prefix / 512);
    ChildRole(p, q.prefix % 512);
    if q.level == 1 {
      KernelRoles(b);
      RootEntryNumber(mem, b, q.prefix);
      RootPlace();
    } else {
      DynRole(mem, b, p);
      EntryOf(mem, b, p, q.prefix % 512);
    }
  }

  lemma DynLinked(mem: Memory, b: Boot, q: Place)
    requires BootOk(mem, b) && q in b.built.at
    ensures PlaceRole(q) in BootPlan(b).at && Linked(TableMemory(mem, b), BootPlan(b), PlaceRole(q))
  {
    hide BootPlan, TableMemory, BootAt, BootOk, StartFits, PlaceRole, RolePlace;
    DynRole(mem, b, q);
    LinkOf(mem, b, q);
    RoleEntries(mem, b, PlaceRole(q));
    RoleEntries(mem, b, PlaceRole(q).parent);
  }

  /** Every table is linked from the table of the role above. */
  lemma BootLinked(mem: Memory, b: Boot, r: Role)
    requires BootOk(mem, b) && r in BootAt(b)
    ensures r in BootPlan(b).at && Linked(TableMemory(mem, b), BootPlan(b), r)
  {
    BootConsistent(mem, b);
    if r !in {Root, KPdpt, KPdt} {
      var q := RoleCases(b, r);
      DynLinked(mem, b, q);
    } else if r != Root {
      KernelRoles(b);
      hide Built, BootAt, BootPlan, TableMemory;
      TableSame(mem, b, BootAt(b)[r.parent]);
    }
  }

  /** So the tables form a tree. */
  lemma BootTree(mem: Memory, b: Boot)
    requires BootOk(mem, b) && StartFits(b)
    ensures Tree(TableMemory(mem, b), b.root, BootPlan(b))
  {
    hide PlaceRole, RolePlace;
    BootConsistent(mem, b);
    KernelRoles(b);
    hide BootOk, StartFits, Built, BootAt, TableMemory, EntryFits, Linked;
    var plan := BootPlan(b);
    forall f, i | f in plan.roles && 0 <= i < 512
      ensures EntryFits(TableMemory(mem, b), plan, f, i)
    {
      var r := plan.roles[f];
      if r == Root {
        RootEntryFits(mem, b, i);
      } else if r in {KPdpt, KPdt} {
        KernelEntryFits(mem, b, r, i);
      } else {
        var q := RoleCases(b, r);
        DynRole(mem, b, q);
        DynEntryFits(mem, b, q, i);
      }
    }
    forall r | r in plan.at
      ensures Linked(TableMemory(mem, b), plan, r)
    {
      BootLinked(mem, b, r);
    }
  }

  /** The entry that links a table has the kernel's flags. */
  lemma BootLink(mem: Memory, b: Boot, r: Role)
    requires BootOk(mem, b) && r in BootAt(b) && r != Root
    ensures r in BootPlan(b).at && r.parent in BootPlan(b).at && r.i < 512
    ensures EntryAt(TableMemory(mem, b), BootPlan(b).at[r.parent], r.i) == Link(BootPlan(b).at[r])
  {
    BootConsistent(mem, b);
    if r !in {KPdpt, KPdt} {
      var q := RoleCases(b, r);
      hide BootPlan, TableMemory, BootAt, BootOk, StartFits, PlaceRole, RolePlace;
      DynRole(mem, b, q);
      LinkOf(mem, b, q);
      RoleEntries(mem, b, PlaceRole(q));
      RoleEntries(mem, b, PlaceRole(q).parent);
    } else {
      KernelRoles(b);
      hide Built, BootAt, BootPlan, TableMemory;
      TableSame(mem, b, BootAt(b)[r.parent]);
    }
  }

  lemma BootPlanAt(b: Boot)
    ensures BootPlan(b).at == BootAt(b)
  {
  }

  /** No link to a table takes a right away. */
  lemma BootLinksUsable(mem: Memory, b: Boot)
    requires BootOk(mem, b) && StartFits(b)
    ensures LinksUsable(TableMemory(mem, b), b.root)
  {
    hide BootOk, StartFits, TableMemory, WalkEntry, Has;
    KernelFlags();
    BootTree(mem, b);
    var tables, plan := TableMemory(mem, b), BootPlan(b);
    BootPlanAt(b);
    hide BootPlan, BootAt;
    forall v: nat, l: nat | v < 0x10_0000_0000 && l < 3 && LinksAt(tables, b.root, v, l)
      ensures WalkEntry(tables, b.root, v, l).flags == KERNEL_PAGE_FLAG
    {
      LinkedChild(tables, b.root, plan, v, l);
      BootLink(mem, b, RoleFor(v, l + 1));
    }
  }

  /** The tables are in the first pages, in all of them, and in the kernel's static tables. */
  function TableFrames(root: nat, pdpt: nat, pdt: nat, pages: seq<nat>, count: nat): set<nat>
  {
    {root, pdpt, pdt} + set k | 0 <= k < count && k < |pages| :: pages[k]
  }

  lemma FrameIsTable(mem: Memory, b: Boot, r: Role)
    requires BootOk(mem, b) && r in BootAt(b)
    ensures BootAt(b)[r] in TableFrames(b.root, b.pdpt, b.pdt, b.pages, b.count)
  {
    hide PlaceRole, RolePlace;
    if r !in {Root, KPdpt, KPdt} {
      var q := RoleCases(b, r);
      hide Directory, Kept;
      DynRole(mem, b, q);
    }
  }

  lemma PageIsTable(mem: Memory, b: Boot, k: nat)
    requires BootOk(mem, b) && k < b.count && k < |b.pages|
    ensures b.pages[k] in BootAt(b).Values
  {
    hide Built, BootAt, PlaceRole, RolePlace;
    FirstPagesHold(b.start, mem, b.root, b.pages, b.built, b.count, k);
    var q :| q in b.built.at && b.built.at[q] == k;
    DynRole(mem, b, q);
  }

  lemma TablesAre(mem: Memory, b: Boot)
    requires BootOk(mem, b)
    ensures BootAt(b).Values == TableFrames(b.root, b.pdpt, b.pdt, b.pages, b.count)
  {
    hide Built, Directory, BootOk, StartFits, BootAt;
    forall f | f in BootAt(b).Values
      ensures f in TableFrames(b.root, b.pdpt, b.pdt, b.pages, b.count)
    {
      FrameIsTable(mem, b, RoleAt(BootAt(b), f));
    }
    KernelRoles(b);
    forall k: nat | k < b.count && k < |b.pages|
      ensures b.pages[k] in BootAt(b).Values
    {
      PageIsTable(mem, b, k);
    }
  }

  // ---------- the address space ----------

  /** How the kernel sees memory after pagetable_construct: the pages of the memory map from DYNMEM_START_VIRT on,
      the kernel's image and stack in its part of the upper half; and what the first pages held before, where no
      entry links a table. */
  function BootMapping(b: Boot, v: nat): Mapping
  {
    if 512 <= v < 512 + |b.pages| then Small(b.pages[v - 512], KERNEL_PAGE_FLAG)
    else if v < 0x8_0000_0000 then LeftMapping(b.start, b.root, b.pages, v)
    else if v / 512 == KERNEL_VIRT / 512 then Huge(KERNEL_PHYS, KERNEL_PAGE_FLAG)
    else if v / 512 == KERNEL_VIRT / 512 + 1 then Huge(KERNEL_PHYS + 512, KERNEL_PAGE_FLAG)
    else if v / 512 == KERNEL_VIRT / 512 + 0x78 then Huge(b.stack, KERNEL_PAGE_FLAG)
    else Unmapped
  }

  ghost predicate SpaceIs(mem: Memory, b: Boot)
  {
    forall v: nat | v < 0x10_0000_0000 :: Lookup(mem, b.root, v) == BootMapping(b, v)
  }

  /** The digits of a block of the upper half. */
  lemma UpperDigits(w: nat)
    requires 0x400_0000 <= w < 0x800_0000
    ensures 256 <= w / 512 / 512 < 512 && w / 512 / 512 % 512 == w / 512 / 512
    ensures w == (w / 512 / 512 * 512 + w / 512 % 512) * 512 + w % 512
    ensures w / 512 / 512 == 511 && w / 512 % 512 == 510 <==> KERNEL_VIRT / 512 <= w < KERNEL_VIRT / 512 + 512
  {
    var q, d, q2, d2 := w / 512, w % 512, w / 512 / 512, w / 512 % 512;
    assert w == 512 * q + d && q == 512 * q2 + d2;
  }

  lemma UpperHalf(mem: Memory, b: Boot, v: nat)
    requires KernelOk(mem, b) && 0x8_0000_0000 <= v < 0x10_0000_0000
    ensures Lookup(mem, b.root, v) ==
            if v / 512 == KERNEL_VIRT / 512 then Huge(KERNEL_PHYS, KERNEL_PAGE_FLAG)
            else if v / 512 == KERNEL_VIRT / 512 + 1 then Huge(KERNEL_PHYS + 512, KERNEL_PAGE_FLAG)
            else if v / 512 == KERNEL_VIRT / 512 + 0x78 then Huge(b.stack, KERNEL_PAGE_FLAG)
            else Unmapped
  {
    IndexIsDigit(v);
    UpperDigits(v / 512);
    assert TableAt(mem, b.root, v, 0) == Some(b.root);
    if Index(v, 0) == 511 {
      assert TableAt(mem, b.root, v, 1) == Some(b.pdpt);
      if Index(v, 1) == 510 {
        assert TableAt(mem, b.root, v, 2) == Some(b.pdt);
      } else {
        assert TableAt(mem, b.root, v, 2) == None;
      }
    } else {
      assert TableAt(mem, b.root, v, 1) == None;
    }
  }

  lemma AddressSpace(mem: Memory, b: Boot, v: nat)
    requires BootOk(mem, b) && NoLinks(b.start, b.root, b.pages) && MapsPages(mem, b.root, b.pages)
    requires v < 0x10_0000_0000
    ensures Lookup(mem, b.root, v) == BootMapping(b, v)
  {
    hide Lookup, LeftMapping, Built, NoLinks;
    if 512 <= v < 512 + |b.pages| {
      assert MapsPage(mem, b.root, b.pages, v - 512);
    } else if v < 0x8_0000_0000 {
      LeftMapped(b.start, mem, b.root, b.pages, b.built, b.count, v);
    } else {
      UpperHalf(mem, b, v);
    }
  }

  /** The MMIO range is unmapped at first. */
  lemma IoRangeUnmapped(b: Boot, v: nat)
    requires 0xF_F800_0000 <= v < 0xF_FFF0_0000 && 512 + |b.pages| <= 0x8_0000_0000
    ensures BootMapping(b, v) == Unmapped
  {
  }

  lemma {:induction false} WalkAlone(part: Memory, mem: Memory, root: nat, plan: Plan, v: nat, l: nat)
    requires Tree(part, root, plan) && l < 4 && forall f | f in part :: f in mem && mem[f] == part[f]
    ensures TableAt(mem, root, v, l) == TableAt(part, root, v, l)
    ensures TableAt(part, root, v, l).Some? ==> TableAt(part, root, v, l).value in part
  {
    TableByRole(part, root, plan, v, l);
    if l == 0 {
    } else {
      WalkAlone(part, mem, root, plan, v, l - 1);
    }
  }

  lemma LookupAlone(part: Memory, mem: Memory, root: nat, plan: Plan, v: nat)
    requires Tree(part, root, plan) && forall f | f in part :: f in mem && mem[f] == part[f]
    ensures Lookup(part, root, v) == Lookup(mem, root, v)
  {
    WalkAlone(part, mem, root, plan, v, 1);
    WalkAlone(part, mem, root, plan, v, 2);
    WalkAlone(part, mem, root, plan, v, 3);
  }

  /** Walks stay within the tables, so that they are the same in the memory of tables alone. */
  lemma TablesAlone(mem: Memory, b: Boot, v: nat)
    requires BootOk(mem, b) && StartFits(b)
    ensures Lookup(TableMemory(mem, b), b.root, v) == Lookup(mem, b.root, v)
  {
    hide BootOk, StartFits, Built;
    BootTree(mem, b);
    forall f | f in TableMemory(mem, b)
      ensures f in mem && TableMemory(mem, b)[f] == mem[f]
    {
      TableSame(mem, b, f);
    }
    hide BootAt, TableMemory, BootPlan, Tree;
    LookupAlone(TableMemory(mem, b), mem, b.root, BootPlan(b), v);
  }

  // ---------- pagetable_construct ----------

  /** What the machine must be like: the pages are there; the kernel's tables and the temporary one are distinct,
      lie below the pages, and all but the temporary one are zero. */
  ghost predicate Suitable(mem: Memory, pages: seq<nat>, root: nat, pdpt: nat, pdt: nat, tmp: nat)
  {
    && (forall p | p in pages :: p in mem) && 512 + |pages| <= 0x8_0000_0000
    && root in mem && pdpt in mem && pdt in mem && tmp in mem
    && root !in pages && pdpt !in pages && pdt !in pages && tmp !in pages
    && root != pdpt && root != pdt && pdpt != pdt && tmp != root && tmp != pdpt && tmp != pdt
    && mem[root] == mem[pdpt] == mem[pdt] == ZeroTable()
  }

  lemma KernelFirst(mem0: Memory, b: Boot, tmp: nat)
    requires Suitable(mem0, b.pages, b.root, b.pdpt, b.pdt, tmp)
    ensures var mem := WithKernel(mem0, b.root, b.pdpt, b.pdt, b.stack);
            && KernelOk(mem, b) && mem.Keys == mem0.Keys
  {
  }

  /** The kernel's tables are no entries of the lower half. */
  lemma LeftoverWithKernel(mem0: Memory, b: Boot, tmp: nat, l: nat, e: nat)
    requires Suitable(mem0, b.pages, b.root, b.pdpt, b.pdt, tmp) && (l == 0 ==> e < 256)
    ensures Leftover(WithKernel(mem0, b.root, b.pdpt, b.pdt, b.stack), b.root, b.pages, l, e) ==
            Leftover(mem0, b.root, b.pages, l, e)
  {
    if |b.pages| >= 3 {
      assert b.pages[0] in b.pages && b.pages[1] in b.pages && b.pages[2] in b.pages;
    }
  }

  lemma NoLinksWithKernel(mem0: Memory, b: Boot, tmp: nat)
    requires Suitable(mem0, b.pages, b.root, b.pdpt, b.pdt, tmp)
    requires b.start == WithKernel(mem0, b.root, b.pdpt, b.pdt, b.stack)
    ensures NoLinks(mem0, b.root, b.pages) <==> NoLinks(b.start, b.root, b.pages)
    ensures LeftoversFit(mem0, b.root, b.pages) <==> StartFits(b)
  {
    hide Leftover, Suitable, WithKernel;
    forall l: nat, e: nat | l < 4 && StaysUnused(|b.pages|, l, e)
      ensures Leftover(b.start, b.root, b.pages, l, e) == Leftover(mem0, b.root, b.pages, l, e)
    {
      LeftoverWithKernel(mem0, b, tmp, l, e);
    }
  }

  lemma SuitableMeans(mem: Memory, pages: seq<nat>, root: nat, pdpt: nat, pdt: nat, tmp: nat)
    requires Suitable(mem, pages, root, pdpt, pdt, tmp)
    ensures root in mem && pdpt in mem && pdt in mem && tmp in mem && forall p | p in pages :: p in mem
    ensures root != pdpt && root != pdt && pdpt != pdt && tmp != root && tmp != pdpt && tmp != pdt
    ensures root !in pages && tmp !in pages && 512 + |pages| <= 0x8_0000_0000
    ensures mem[root] == mem[pdpt] == mem[pdt] == ZeroTable()
  {
  }

  lemma KernelIn(mem: Memory, b: Boot)
    requires KernelOk(mem, b)
    ensures b.root in mem && b.pdpt in mem && b.pdt in mem
  {
  }

  lemma KernelKept(mem1: Memory, mem: Memory, b: Boot, tmp: nat)
    requires KernelOk(mem1, b) && tmp in mem1 && tmp in mem && tmp != b.root && tmp != b.pdpt && tmp != b.pdt
    requires Outside(mem1[tmp := mem[tmp]], mem, b.root, b.pages)
    ensures KernelOk(mem, b)
  {
    hide KernelOk;
    KernelIn(mem1, b);
    KernelStays(mem1, mem, b, mem1[tmp := mem[tmp]]);
  }

  lemma WholeSpace(mem: Memory, b: Boot)
    requires BootOk(mem, b) && NoLinks(b.start, b.root, b.pages) && MapsPages(mem, b.root, b.pages)
    ensures SpaceIs(mem, b)
  {
    hide BootOk, NoLinks, MapsPages, Lookup, BootMapping;
    forall v: nat | v < 0x10_0000_0000
      ensures Lookup(mem, b.root, v) == BootMapping(b, v)
    {
      AddressSpace(mem, b, v);
    }
  }

  /** pagetable_construct: the kernel's tables, and then those of the memory map. */
  method ConstructTables(m: seq<Span>, root: nat, pdpt: nat, pdt: nat, stack: nat, tmp: nat, mem0: Memory)
    returns (mem: Memory, total: nat, tables: nat, ok: bool, ghost b: Boot)
    requires Normalised(m) && Suitable(mem0, Units(m), root, pdpt, pdt, tmp)
    ensures b == Boot(root, Units(m), b.built, tables, pdpt, pdt, stack, WithKernel(mem0, root, pdpt, pdt, stack))
    ensures ok <==> TablesFit32(Units(m), |Units(m)|)
    ensures ok ==> total == |Units(m)| && tables <= total && (total < 3 ==> tables == 0)
    ensures ok && total >= 3 ==> tables == TableCount(total) && BootOk(mem, b)
    ensures ok && total >= 3 && NoLinks(mem0, root, Units(m)) ==> SpaceIs(mem, b)
    ensures LeftoversFit(mem0, root, Units(m)) ==> NoLinks(mem0, root, Units(m)) && StartFits(b)
    ensures ok && total >= 3 ==> TablesWithin(mem, root, total, Units(m)[..tables])
  {
    hide TableCount, MapsPages, TablesWithin, NothingBeside, Outside, Units, TablesFit32, Backed, Astray, Built;
    hide Suitable, KernelOk, Lookup, BootMapping, NoLinks, LeftoversFit, LeftoversMapNone, StartFits, WithKernel;
    ghost var start := WithKernel(mem0, root, pdpt, pdt, stack);
    b := Boot(root, Units(m), Directories(map[], []), 0, pdpt, pdt, stack, start);
    SuitableMeans(mem0, Units(m), root, pdpt, pdt, tmp);
    KernelFirst(mem0, b, tmp);
    var mem1 := PagetableConstructKernel(mem0, root, pdpt, pdt, stack);
    ghost var built;
    mem, total, tables, ok, built := PagetableConstructDyn(m, root, mem1, tmp);
    b := Boot(root, Units(m), built, tables, pdpt, pdt, stack, start);
    NoLinksWithKernel(mem0, b, tmp);
    if LeftoversFit(mem0, root, Units(m)) {
      FitNoLinks(mem0, root, Units(m));
    }
    if ok && total >= 3 {
      KernelFirst(mem0, b, tmp);
      KernelKept(mem1, mem, b, tmp);
      if NoLinks(mem0, root, Units(m)) {
        WholeSpace(mem, b);
      }
    }
  }
}
