/** The page tables that pagetable_construct_dyn (kernel/src/arch/x86_64/memory.c) builds inside the memory it
    maps: page n of the memory map is mapped at virtual page 512 + n, and page k of it may hold a table. */
module DynTables {
  import opened Options
  import opened Paging
  import opened PageIterators
  import opened PageRights

  /** The table of a level (1 to 3) for the virtual pages with the given leading digits. */
  datatype Place = Place(level: nat, prefix: nat)

  /** Which page of the memory map holds which table. */
  type Placement = map<Place, nat>

  function Link(frame: nat): Entry
  {
    Present(frame, false, KERNEL_PAGE_FLAG)
  }

  function FrameAt(root: nat, pages: seq<nat>, at: Placement, q: Place): Option<nat>
  {
    if q.level == 0 then (if q.prefix == 0 then Some(root) else None)
    else if q in at && at[q] < |pages| then Some(pages[at[q]])
    else None
  }

  /** Entry number e of a level: entry e % 512 of the level's table e / 512. */
  function EntryNumber(mem: Memory, root: nat, pages: seq<nat>, at: Placement, level: nat, e: nat): Entry
  {
    match FrameAt(root, pages, at, Place(level, e / 512))
    case None => Empty
    case Some(f) => EntryAt(mem, f, e % 512)
  }

  /** The table q is linked from the table one level up. */
  ghost predicate LinkedAt(mem: Memory, root: nat, pages: seq<nat>, at: Placement, q: Place)
  {
    1 <= q.level < 4 && q in at && at[q] < |pages| &&
    EntryNumber(mem, root, pages, at, q.level - 1, q.prefix) == Link(pages[at[q]])
  }

  /** Page j of the memory map is mapped at virtual page 512 + j. */
  ghost predicate MappedAt(mem: Memory, root: nat, pages: seq<nat>, at: Placement, j: nat)
  {
    j < |pages| && EntryNumber(mem, root, pages, at, 3, 512 + j) == Link(pages[j])
  }

  /** Each page is in memory, and no two are the same; the root table is none of them. */
  ghost predicate Backed(mem: Memory, root: nat, pages: seq<nat>)
  {
    && root in mem && root !in pages
    && (forall k | 0 <= k < |pages| :: pages[k] in mem)
    && (forall i, j | 0 <= i < j < |pages| :: pages[i] != pages[j])
  }

  /** Distinct tables are in distinct pages. */
  ghost predicate Apart(at: Placement)
  {
    forall q, r | q in at && r in at && at[q] == at[r] :: q == r
  }

  /** Page k holds no table. */
  ghost predicate Spare(at: Placement, k: nat)
  {
    forall q | q in at :: at[q] != k
  }

  /** The first n pages are mapped, by tables that are in these pages themselves. */
  ghost predicate Directory(mem: Memory, root: nat, pages: seq<nat>, at: Placement, n: nat)
  {
    && n <= |pages| && Backed(mem, root, pages) && Apart(at)
    && (forall q | q in at :: at[q] < n)
    && (forall q {:trigger LinkedAt(mem, root, pages, at, q)} | q in at :: LinkedAt(mem, root, pages, at, q))
    && (forall j: nat {:trigger MappedAt(mem, root, pages, at, j)} | j < n :: MappedAt(mem, root, pages, at, j))
  }

  lemma TopPrefix(v: nat)
    requires v < 0x10_0000_0000
    ensures Prefix(v, 0) == 0
  {
    IndexIsDigit(v);
    TopDigit(v);
    assert Prefix(v, 0) == Prefix(v, 1) / 512;
  }

  /** The walk to a virtual page meets the tables placed for its digits. */
  lemma {:induction false} WalkPlaces(mem: Memory, root: nat, pages: seq<nat>, at: Placement, n: nat, v: nat, l: nat)
    requires Directory(mem, root, pages, at, n) && v < 0x10_0000_0000 && l < 4
    requires l > 0 ==> Place(l, Prefix(v, l)) in at
    ensures TableAt(mem, root, v, l) == FrameAt(root, pages, at, Place(l, Prefix(v, l)))
  {
    if l == 0 {
      FromVirtDigits(v);
      TopPrefix(v);
    } else {
      assert LinkedAt(mem, root, pages, at, Place(l, Prefix(v, l)));
      WalkPlaces(mem, root, pages, at, n, v, l - 1);
    }
  }

  /** So each of the first n pages translates to itself, by a 4 KiB entry. */
  lemma DirectoryMaps(mem: Memory, root: nat, pages: seq<nat>, at: Placement, n: nat, j: nat)
    requires Directory(mem, root, pages, at, n) && j < n && 512 + j < 0x10_0000_0000
    ensures Lookup(mem, root, 512 + j) == Small(pages[j], KERNEL_PAGE_FLAG)
  {
    var v := 512 + j;
    assert MappedAt(mem, root, pages, at, j);
    IndexIsDigit(v);
    var pt := Place(3, Prefix(v, 3));
    assert pt in at;
    assert LinkedAt(mem, root, pages, at, pt);
    WalkPlaces(mem, root, pages, at, n, v, 3);
    WalkPlaces(mem, root, pages, at, n, v, 2);
  }

  /** The walk to a mapped page meets links of the kernel's flags only. */
  lemma DirectoryEntry(mem: Memory, root: nat, pages: seq<nat>, at: Placement, n: nat, j: nat, l: nat)
    requires Directory(mem, root, pages, at, n) && j < n && 512 + j < 0x10_0000_0000 && l < 4
    ensures WalkEntry(mem, root, 512 + j, l).Present? ==> WalkEntry(mem, root, 512 + j, l).flags == KERNEL_PAGE_FLAG
  {
    var v := 512 + j;
    assert MappedAt(mem, root, pages, at, j);
    IndexIsDigit(v);
    var pt := Place(3, Prefix(v, 3));
    assert pt in at && LinkedAt(mem, root, pages, at, pt);
    var pdt := Place(2, Prefix(v, 2));
    assert pdt in at && LinkedAt(mem, root, pages, at, pdt);
    var pdpt := Place(1, Prefix(v, 1));
    assert pdpt in at && LinkedAt(mem, root, pages, at, pdpt);
    WalkPlaces(mem, root, pages, at, n, v, l);
  }

  /** So each of the first n pages may be read and written. */
  lemma DirectoryUsable(mem: Memory, root: nat, pages: seq<nat>, at: Placement, n: nat, j: nat)
    requires Directory(mem, root, pages, at, n) && j < n && 512 + j < 0x10_0000_0000
    ensures Usable(mem, root, 512 + j)
  {
    hide Directory, Lookup, WalkEntry, Has;
    var v := 512 + j;
    KernelFlags();
    DirectoryMaps(mem, root, pages, at, n, j);
    forall l: nat | l < 4 && WalkEntry(mem, root, v, l).Present?
      ensures WalkEntry(mem, root, v, l).flags == KERNEL_PAGE_FLAG
    {
      DirectoryEntry(mem, root, pages, at, n, j, l);
    }
  }

  // ---------- what one step does ----------

  /** Clearing a page that holds no table changes no entry. */
  lemma ClearEntries(mem: Memory, root: nat, pages: seq<nat>, at: Placement, k: nat, level: nat, e: nat)
    requires Backed(mem, root, pages) && k < |pages| && Spare(at, k)
    ensures EntryNumber(mem[pages[k] := ZeroTable()], root, pages, at, level, e) ==
            EntryNumber(mem, root, pages, at, level, e)
  {
  }

  lemma ClearSpare(mem: Memory, root: nat, pages: seq<nat>, at: Placement, n: nat, k: nat)
    requires Directory(mem, root, pages, at, n) && k < |pages| && Spare(at, k)
    ensures Directory(mem[pages[k] := ZeroTable()], root, pages, at, n)
  {
    hide EntryNumber;
    var mem' := mem[pages[k] := ZeroTable()];
    forall q | q in at
      ensures LinkedAt(mem', root, pages, at, q)
    {
      assert LinkedAt(mem, root, pages, at, q);
      ClearEntries(mem, root, pages, at, k, q.level - 1, q.prefix);
    }
    forall j: nat | j < n
      ensures MappedAt(mem', root, pages, at, j)
    {
      assert MappedAt(mem, root, pages, at, j);
      ClearEntries(mem, root, pages, at, k, 3, 512 + j);
    }
  }

  /** Memory after entry number e of a level is set. */
  function SetEntry(mem: Memory, root: nat, pages: seq<nat>, at: Placement, level: nat, e: nat, entry: Entry): Memory
  {
    match FrameAt(root, pages, at, Place(level, e / 512))
    case None => mem
    case Some(f) => if f in mem then Write(mem, f, e % 512, entry) else mem
  }

  lemma SameFrame(mem: Memory, root: nat, pages: seq<nat>, at: Placement, q: Place, r: Place)
    requires Backed(mem, root, pages) && Apart(at)
    requires FrameAt(root, pages, at, q).Some? && FrameAt(root, pages, at, q) == FrameAt(root, pages, at, r)
    ensures q == r
  {
    if q.level > 0 {
      assert pages[at[q]] in pages;
    }
    if r.level > 0 {
      assert pages[at[r]] in pages;
    }
  }

  /** Setting an entry changes that entry only. */
  lemma SetOne(mem: Memory, root: nat, pages: seq<nat>, at: Placement, level: nat, e: nat, entry: Entry, l: nat, x: nat)
    requires Backed(mem, root, pages) && Apart(at) && FrameAt(root, pages, at, Place(level, e / 512)).Some?
    ensures EntryNumber(SetEntry(mem, root, pages, at, level, e, entry), root, pages, at, l, x) ==
            if l == level && x == e then entry else EntryNumber(mem, root, pages, at, l, x)
  {
    var f := FrameAt(root, pages, at, Place(level, e / 512)).value;
    var g := FrameAt(root, pages, at, Place(l, x / 512));
    if g == Some(f) {
      SameFrame(mem, root, pages, at, Place(level, e / 512), Place(l, x / 512));
    }
  }

  /** Setting an entry not in use yet keeps the directory. */
  lemma SetUnused(mem: Memory, root: nat, pages: seq<nat>, at: Placement, n: nat, level: nat, e: nat, entry: Entry)
    requires Directory(mem, root, pages, at, n) && FrameAt(root, pages, at, Place(level, e / 512)).Some?
    requires if level == 3 then e >= 512 + n else Place(level + 1, e) !in at
    ensures Directory(SetEntry(mem, root, pages, at, level, e, entry), root, pages, at, n)
  {
    hide EntryNumber;
    var mem' := SetEntry(mem, root, pages, at, level, e, entry);
    forall q | q in at
      ensures LinkedAt(mem', root, pages, at, q)
    {
      assert LinkedAt(mem, root, pages, at, q);
      SetOne(mem, root, pages, at, level, e, entry, q.level - 1, q.prefix);
    }
    forall j: nat | j < n
      ensures MappedAt(mem', root, pages, at, j)
    {
      assert MappedAt(mem, root, pages, at, j);
      SetOne(mem, root, pages, at, level, e, entry, 3, 512 + j);
    }
  }

  /** A mapped page that is linked as a table may be placed. */
  lemma PlaceTable(mem: Memory, root: nat, pages: seq<nat>, at: Placement, n: nat, q: Place, k: nat)
    requires Directory(mem, root, pages, at, n) && k < n && Spare(at, k) && q !in at && 1 <= q.level < 4
    requires EntryNumber(mem, root, pages, at, q.level - 1, q.prefix) == Link(pages[k])
    ensures Directory(mem, root, pages, at[q := k], n)
  {
    var at' := at[q := k];
    forall r | r in at'
      ensures LinkedAt(mem, root, pages, at', r)
    {
      if r != q {
        assert LinkedAt(mem, root, pages, at, r);
      }
    }
    forall j: nat | j < n
      ensures MappedAt(mem, root, pages, at', j)
    {
      assert MappedAt(mem, root, pages, at, j);
    }
  }

  /** One more page, once its entry is set. */
  lemma MapNext(mem: Memory, root: nat, pages: seq<nat>, at: Placement, n: nat)
    requires Directory(mem, root, pages, at, n) && n < |pages|
    requires MappedAt(mem, root, pages, at, n)
    ensures Directory(mem, root, pages, at, n + 1)
  {
    forall j: nat | j < n + 1
      ensures MappedAt(mem, root, pages, at, j)
    {
      assert j < n ==> MappedAt(mem, root, pages, at, j);
    }
  }

  /** Setting the next entry of a level's current table. */
  lemma PutFacts(mem: Memory, root: nat, pages: seq<nat>, at: Placement, n: nat, level: nat, e: nat, entry: Entry)
    returns (f: nat)
    requires Directory(mem, root, pages, at, n) && level < 4
    requires if level == 0 then e < 512 else Place(level, e / 512) in at
    requires if level == 3 then e >= 512 + n else Place(level + 1, e) !in at
    ensures f in mem && (if level == 0 then f == root else at[Place(level, e / 512)] < n <= |pages|)
    ensures level > 0 ==> f == pages[at[Place(level, e / 512)]]
    ensures Directory(Write(mem, f, e % 512, entry), root, pages, at, n)
    ensures EntryNumber(Write(mem, f, e % 512, entry), root, pages, at, level, e) == entry
  {
    f := if level == 0 then root else pages[at[Place(level, e / 512)]];
    SetUnused(mem, root, pages, at, n, level, e, entry);
    SetOne(mem, root, pages, at, level, e, entry, level, e);
  }

  /** These pages have addresses that fit 32 bits. */
  ghost predicate Fits32(pages: seq<nat>, from: nat, to: nat)
  {
    forall k: nat | from <= k < to && k < |pages| :: pages[k] < 0x10_0000
  }

  /** Some table of the walk to v is linked with the upper bits of its address cut off. */
  ghost predicate Astray(mem: Memory, root: nat, pages: seq<nat>, v: nat)
  {
    exists l: nat, k: nat {:trigger TableAt(mem, root, v, l), pages[k]} | 1 <= l < 4 && k < |pages| ::
      pages[k] >= 0x10_0000 && TableAt(mem, root, v, l) == Some(pages[k] % 0x10_0000)
  }

  /** An entry is linked with the address of page k cut to 32 bits. */
  lemma LinkAstray(mem: Memory, root: nat, pages: seq<nat>, at: Placement, n: nat, level: nat, k: nat, v: nat)
    requires Directory(mem, root, pages, at, n) && 1 <= level < 4 && v < 0x10_0000_0000
    requires level > 1 ==> Place(level - 1, Prefix(v, level - 1)) in at
    requires k < |pages| && pages[k] >= 0x10_0000
    requires EntryNumber(mem, root, pages, at, level - 1, Prefix(v, level)) == Link(pages[k] % 0x10_0000)
    ensures Astray(mem, root, pages, v)
  {
    assert Prefix(v, level) / 512 == Prefix(v, level - 1);
    WalkPlaces(mem, root, pages, at, n, v, level - 1);
    assert TableAt(mem, root, v, level) == Some(pages[k] % 0x10_0000);
  }

  // ---------- nothing else is mapped ----------

  /** The first entry number in use at a level: virtual page 512 is the first. */
  function First(level: nat): nat
  {
    if level == 3 then 512 else if level == 2 then 1 else 0
  }

  /** Entry number e of level l is in the lower half of the address space and not in use. */
  predicate Unused(last: seq<nat>, l: nat, e: nat)
    requires |last| == 4
  {
    l < 4 && (l == 0 ==> e < 256) && (e < First(l) || last[l] < e)
  }

  /** What an entry holds as long as it is not in use: the root table and the first three pages are not cleared, but
      for root entry 1; all other tables are. */
  function Leftover(start: Memory, root: nat, pages: seq<nat>, l: nat, e: nat): Entry
  {
    if |pages| < 3 then Empty
    else if l == 0 then (if e == 1 || e >= 512 then Empty else EntryAt(start, root, e))
    else if l == 1 && e < 512 then EntryAt(start, pages[0], e)
    else if l == 2 && e < 512 then EntryAt(start, pages[1], e)
    else if l == 3 && 512 <= e < 1024 then EntryAt(start, pages[2], e - 512)
    else Empty
  }

  /** In the lower half of the address space, the entries outside the numbers in use hold what they held. */
  ghost predicate Kept(start: Memory, mem: Memory, root: nat, pages: seq<nat>, at: Placement, last: seq<nat>)
    requires |last| == 4
  {
    forall l: nat, e: nat {:trigger EntryNumber(mem, root, pages, at, l, e)} | Unused(last, l, e) ::
      EntryNumber(mem, root, pages, at, l, e) == Leftover(start, root, pages, l, e)
  }

  /** Pages that hold no table are as they were. */
  ghost predicate SpareSame(mem0: Memory, mem: Memory, pages: seq<nat>, at: Placement, nextTable: nat)
  {
    forall k: nat | k < nextTable && k < |pages| && pages[k] in mem0 && Spare(at, k) ::
      pages[k] in mem && mem[pages[k]] == mem0[pages[k]]
  }

  lemma KeptPut(start: Memory, mem: Memory, root: nat, pages: seq<nat>, at: Placement, n: nat, last: seq<nat>,
                level: nat, f: nat, entry: Entry)
    requires Directory(mem, root, pages, at, n) && level < 4 && |last| == 4
    requires if level == 0 then last[0] + 1 < 512 else Place(level, (last[level] + 1) / 512) in at
    requires FrameAt(root, pages, at, Place(level, (last[level] + 1) / 512)) == Some(f)
    requires First(level) <= last[level] + 1 && Kept(start, mem, root, pages, at, last)
    ensures f in mem
    ensures Kept(start, Write(mem, f, (last[level] + 1) % 512, entry), root, pages, at,
                 last[level := last[level] + 1])
  {
    hide Leftover;
    var e := last[level] + 1;
    var mem' := Write(mem, f, e % 512, entry);
    forall l: nat, x: nat | Unused(last[level := e], l, x)
      ensures EntryNumber(mem', root, pages, at, l, x) == Leftover(start, root, pages, l, x)
    {
      SetOne(mem, root, pages, at, level, e, entry, l, x);
      assert EntryNumber(mem, root, pages, at, l, x) == Leftover(start, root, pages, l, x);
    }
  }

  lemma SparePut(mem: Memory, root: nat, pages: seq<nat>, at: Placement, n: nat, nextTable: nat, q: Place, i: nat,
                 f: nat, entry: Entry)
    requires Directory(mem, root, pages, at, n) && (q.level > 0 ==> q in at) && i < 512 && nextTable <= |pages|
    requires FrameAt(root, pages, at, q) == Some(f)
    ensures f in mem && SpareSame(mem, Write(mem, f, i, entry), pages, at, nextTable)
  {
    var mem' := Write(mem, f, i, entry);
    forall k: nat | k < nextTable && Spare(at, k)
      ensures pages[k] in mem' && mem'[pages[k]] == mem[pages[k]]
    {
      assert pages[k] in pages;
    }
  }

  lemma KeptClear(start: Memory, mem: Memory, root: nat, pages: seq<nat>, at: Placement, last: seq<nat>, k: nat)
    requires Backed(mem, root, pages) && k < |pages| && Spare(at, k) && |last| == 4
    requires Kept(start, mem, root, pages, at, last)
    ensures Kept(start, mem[pages[k] := ZeroTable()], root, pages, at, last)
  {
    hide Leftover;
    forall l: nat, e: nat | Unused(last, l, e)
      ensures EntryNumber(mem[pages[k] := ZeroTable()], root, pages, at, l, e) == Leftover(start, root, pages, l, e)
    {
      ClearEntries(mem, root, pages, at, k, l, e);
      assert EntryNumber(mem, root, pages, at, l, e) == Leftover(start, root, pages, l, e);
    }
  }

  lemma KeptPlace(start: Memory, mem: Memory, root: nat, pages: seq<nat>, at: Placement, last: seq<nat>, q: Place,
                  k: nat)
    requires Backed(mem, root, pages) && k < |pages| && |last| == 4 && q !in at && q.level > 0
    requires Kept(start, mem, root, pages, at, last) && mem[pages[k]] == ZeroTable()
    ensures Kept(start, mem, root, pages, at[q := k], last)
  {
    hide Leftover;
    forall l: nat, e: nat | Unused(last, l, e)
      ensures EntryNumber(mem, root, pages, at[q := k], l, e) == Leftover(start, root, pages, l, e)
    {
      assert EntryNumber(mem, root, pages, at, l, e) == Leftover(start, root, pages, l, e);
    }
  }

  // ---------- what stays as it was ----------

  /** Frames other than the root table and the pages of the memory map, and the upper half of the root table, are
      as in mem0. */
  ghost predicate Outside(mem0: Memory, mem: Memory, root: nat, pages: seq<nat>)
  {
    && mem.Keys == mem0.Keys
    && (forall f | f in mem0 && f != root && f !in pages :: mem[f] == mem0[f])
    && (root in mem0 ==> forall i | 256 <= i < 512 :: mem[root][i] == mem0[root][i])
  }

  lemma OutsideWrite(mem0: Memory, mem: Memory, root: nat, pages: seq<nat>, f: nat, i: nat, e: Entry)
    requires Outside(mem0, mem, root, pages) && f in mem && i < 512 && root !in pages
    requires if f == root then i < 256 else f in pages
    ensures Outside(mem0, Write(mem, f, i, e), root, pages)
  {
  }

  lemma OutsideClear(mem0: Memory, mem: Memory, root: nat, pages: seq<nat>, k: nat)
    requires Outside(mem0, mem, root, pages) && k < |pages| && pages[k] in mem && root !in pages
    ensures Outside(mem0, mem[pages[k] := ZeroTable()], root, pages)
  {
  }
}
