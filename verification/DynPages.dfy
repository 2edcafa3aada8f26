/** dynpage_factory of kernel/src/arch/x86_64/memory.c: it maps the pages of the memory map one after another,
    an odometer of four table indices, and takes the tables it needs from the pages it has mapped already. */
module DynPages {
  import opened Dynmem
  import opened DynTables
  import opened PageIterators
  import opened Options
  import opened Paging

  /** How many tables the entry after entry number last[level] needs. */
  function NewTables(last: seq<nat>, level: nat): nat
    requires level < |last|
  {
    if level > 0 && last[level] % 512 == 511 then 1 + NewTables(last, level - 1) else 0
  }

  /** Entry numbers stay below this, so that the root table's index stays below 256. */
  function Limit(level: nat): nat
  {
    if level == 0 then 256 else 512 * Limit(level - 1)
  }

  /** t is the table that entry number e of level l belongs to. */
  predicate TableFor(at: Placement, l: nat, e: nat, t: nat)
  {
    l > 0 ==> Place(l, e / 512) in at && at[Place(l, e / 512)] == t
  }

  /** Every table of level l that an entry in use links is placed. */
  ghost predicate AllPlaced(at: Placement, last: seq<nat>, l: nat)
    requires l <= |last|
  {
    l > 0 ==> forall p: nat | First(l - 1) <= p <= last[l - 1] :: Place(l, p) in at
  }

  /** Level l is between two entries: its last entry is in its current table, whose link is the last entry of
      the level above. */
  ghost predicate LevelOk(at: Placement, tables: seq<nat>, nextIndices: seq<nat>, last: seq<nat>, l: nat)
    requires l < |tables| == |nextIndices| == |last|
  {
    && TableFor(at, l, last[l], tables[l]) && nextIndices[l] == last[l] % 512 + 1
    && (l > 0 ==> last[l - 1] == last[l] / 512) && AllPlaced(at, last, l)
  }

  ghost predicate LevelsOk(at: Placement, tables: seq<nat>, nextIndices: seq<nat>, last: seq<nat>, level: nat)
    requires level <= |tables| == |nextIndices| == |last|
  {
    forall l: nat {:trigger LevelOk(at, tables, nextIndices, last, l)} | l < level ::
      LevelOk(at, tables, nextIndices, last, l)
  }

  /** The current table of level `level` has room for the level's next entry. */
  ghost predicate RoomAt(at: Placement, tables: seq<nat>, nextIndices: seq<nat>, last: seq<nat>, level: nat)
    requires level < |tables| == |nextIndices| == |last|
  {
    var e := last[level] + 1;
    && TableFor(at, level, e, tables[level]) && nextIndices[level] == e % 512
    && (level > 0 ==> last[level - 1] == e / 512)
    && AllPlaced(at, last, level) && LevelsOk(at, tables, nextIndices, last, level)
  }

  /** What is placed is bounded by the counters. */
  ghost predicate Bounded(at: Placement, last: seq<nat>, nextTable: nat)
    requires |last| == 4
  {
    forall q | q in at :: 1 <= q.level < 4 && q.prefix <= last[q.level - 1] && at[q] < nextTable
  }

  /** Three pages may become tables. */
  lemma FirstApart(mem: Memory, root: nat, pages: seq<nat>, tmp: nat)
    requires Backed(mem, root, pages) && |pages| >= 3 && tmp !in pages
    ensures root in mem && pages[0] in mem && pages[1] in mem && pages[2] in mem
    ensures {root, tmp} !! {pages[0], pages[1], pages[2]}
    ensures pages[0] != pages[1] && pages[0] != pages[2] && pages[1] != pages[2]
  {
    assert pages[0] in pages && pages[1] in pages && pages[2] in pages;
  }

  /** From mem0 to mem the first three pages have become tables. */
  ghost predicate FirstThree(mem0: Memory, mem: Memory, root: nat, tmp: nat, pdpt0: nat, pdt0: nat, pt0: nat)
    requires root in mem0 && pdpt0 in mem0 && pdt0 in mem0 && pt0 in mem0
  {
    && mem.Keys == mem0.Keys
    && mem[root] == mem0[root][0 := Link(pdpt0)][1 := Empty]
    && mem[pdpt0] == mem0[pdpt0][0 := Link(pdt0)]
    && mem[pdt0] == mem0[pdt0][1 := Link(pt0)]
    && mem[pt0] == mem0[pt0][0 := Link(pdpt0)][1 := Link(pdt0)][2 := Link(pt0)]
    && (forall f | f in mem0 && f !in {root, tmp, pdpt0, pdt0, pt0} :: mem[f] == mem0[f])
  }

  /** The first three pages hold the first table of each level. */
  function FirstPlaces(): Placement
  {
    map[Place(1, 0) := 0, Place(2, 0) := 1, Place(3, 1) := 2]
  }

  lemma FirstMapped(mem0: Memory, mem: Memory, root: nat, pages: seq<nat>, tmp: nat, j: nat)
    requires Backed(mem0, root, pages) && |pages| >= 3 && tmp !in pages && tmp != root && j < 3
    requires FirstThree(mem0, mem, root, tmp, pages[0], pages[1], pages[2])
    ensures MappedAt(mem, root, pages, FirstPlaces(), j)
  {
    assert (512 + j) / 512 == 1 && (512 + j) % 512 == j;
  }

  lemma FirstLinked(mem0: Memory, mem: Memory, root: nat, pages: seq<nat>, tmp: nat, q: Place)
    requires Backed(mem0, root, pages) && |pages| >= 3 && tmp !in pages && tmp != root && q in FirstPlaces()
    requires FirstThree(mem0, mem, root, tmp, pages[0], pages[1], pages[2])
    ensures LinkedAt(mem, root, pages, FirstPlaces(), q)
  {
    if q == Place(1, 0) {
    } else if q == Place(2, 0) {
    } else {
      assert q == Place(3, 1);
    }
  }

  lemma FirstDirectory(mem0: Memory, mem: Memory, root: nat, pages: seq<nat>, tmp: nat)
    requires Backed(mem0, root, pages) && |pages| >= 3 && tmp !in pages && tmp != root
    requires FirstThree(mem0, mem, root, tmp, pages[0], pages[1], pages[2])
    ensures Directory(mem, root, pages, FirstPlaces(), 3)
  {
    hide LinkedAt, MappedAt;
    forall j: nat | j < 3
      ensures MappedAt(mem, root, pages, FirstPlaces(), j)
    {
      FirstMapped(mem0, mem, root, pages, tmp, j);
    }
    forall q | q in FirstPlaces()
      ensures LinkedAt(mem, root, pages, FirstPlaces(), q)
    {
      FirstLinked(mem0, mem, root, pages, tmp, q);
    }
  }

  lemma OutsideFirst(mem0: Memory, mem: Memory, root: nat, pages: seq<nat>, tmp: nat)
    requires Backed(mem0, root, pages) && |pages| >= 3 && tmp in mem0 && tmp !in pages && tmp != root
    requires FirstThree(mem0, mem, root, tmp, pages[0], pages[1], pages[2])
    ensures tmp in mem && Outside(mem0[tmp := mem[tmp]], mem, root, pages)
  {
    assert pages[0] in pages && pages[1] in pages && pages[2] in pages;
  }

  lemma FirstLeftover(mem0: Memory, mem: Memory, root: nat, pages: seq<nat>, tmp: nat, l: nat, e: nat)
    requires Backed(mem0, root, pages) && |pages| >= 3 && tmp in mem0 && tmp !in pages && tmp != root
    requires FirstThree(mem0, mem, root, tmp, pages[0], pages[1], pages[2]) && tmp in mem
    requires Unused([0, 0, 1, 514], l, e)
    ensures EntryNumber(mem, root, pages, FirstPlaces(), l, e) ==
            Leftover(mem0[tmp := mem[tmp]], root, pages, l, e)
  {
    assert pages[0] in pages && pages[1] in pages && pages[2] in pages;
    if l == 0 {
      assert e % 512 == e;
    } else if l == 1 {
      assert e / 512 == 0 ==> e % 512 == e;
    } else if l == 2 {
      assert e / 512 == 0 ==> e % 512 == e;
    } else {
      assert e / 512 == 1 ==> e % 512 == e - 512;
    }
  }

  lemma FirstKept(mem0: Memory, mem: Memory, root: nat, pages: seq<nat>, tmp: nat)
    requires Backed(mem0, root, pages) && |pages| >= 3 && tmp in mem0 && tmp !in pages && tmp != root
    requires FirstThree(mem0, mem, root, tmp, pages[0], pages[1], pages[2]) && tmp in mem
    ensures Kept(mem0[tmp := mem[tmp]], mem, root, pages, FirstPlaces(), [0, 0, 1, 514])
  {
    hide Leftover, EntryNumber, FirstThree, FirstPlaces, Backed;
    forall l: nat, e: nat | Unused([0, 0, 1, 514], l, e)
      ensures EntryNumber(mem, root, pages, FirstPlaces(), l, e) ==
              Leftover(mem0[tmp := mem[tmp]], root, pages, l, e)
    {
      FirstLeftover(mem0, mem, root, pages, tmp, l, e);
    }
  }

  lemma FirstBuilt(mem0: Memory, mem: Memory, root: nat, pages: seq<nat>, tmp: nat)
    requires Backed(mem0, root, pages) && |pages| >= 3 && tmp in mem0 && tmp !in pages && tmp != root
    requires FirstThree(mem0, mem, root, tmp, pages[0], pages[1], pages[2])
    ensures Directory(mem, root, pages, FirstPlaces(), 3)
    ensures tmp in mem && Outside(mem0[tmp := mem[tmp]], mem, root, pages)
    ensures Kept(mem0[tmp := mem[tmp]], mem, root, pages, FirstPlaces(), [0, 0, 1, 514])
  {
    hide Directory, Kept, Backed, FirstPlaces;
    FirstDirectory(mem0, mem, root, pages, tmp);
    OutsideFirst(mem0, mem, root, pages, tmp);
    FirstKept(mem0, mem, root, pages, tmp);
  }

  lemma PutsKept(start: Memory, mem: Memory, root: nat, pages: seq<nat>, at: Placement, n: nat, last: seq<nat>,
                 nextTable: nat, level: nat, f: nat, entry: Entry)
    requires Directory(mem, root, pages, at, n) && level < 4 && |last| == 4 && nextTable <= n
    requires if level == 0 then last[0] + 1 < 512 && f == root
             else Place(level, (last[level] + 1) / 512) in at && f == pages[at[Place(level, (last[level] + 1) / 512)]]
    requires First(level) <= last[level] + 1 && Kept(start, mem, root, pages, at, last)
    ensures f in mem
    ensures var mem' := Write(mem, f, (last[level] + 1) % 512, entry);
            && Kept(start, mem', root, pages, at, last[level := last[level] + 1])
            && SpareSame(mem, mem', pages, at, nextTable)
  {
    hide EntryNumber, LinkedAt, MappedAt, Kept, SpareSame, Leftover;
    var e := last[level] + 1;
    KeptPut(start, mem, root, pages, at, n, last, level, f, entry);
    SparePut(mem, root, pages, at, n, nextTable, Place(level, e / 512), e % 512, f, entry);
  }

  /** Where the entry of a level with room goes. */
  lemma RoomTable(at: Placement, tables: seq<nat>, nextIndices: seq<nat>, last: seq<nat>, nextTable: nat, level: nat)
    requires level < |tables| == |nextIndices| == |last| == 4 && RoomAt(at, tables, nextIndices, last, level)
    requires Bounded(at, last, nextTable)
    ensures var e := last[level] + 1;
            && nextIndices[level] == e % 512
            && (level > 0 ==> Place(level, e / 512) in at && at[Place(level, e / 512)] == tables[level])
            && Place(level + 1, e) !in at
  {
    hide LevelsOk, AllPlaced;
  }

  /** Clearing the page that comes next. */
  lemma ClearsNext(start: Memory, mem: Memory, root: nat, pages: seq<nat>, at: Placement, n: nat, last: seq<nat>,
                   next: nat)
    requires Directory(mem, root, pages, at, n) && next < n && |last| == 4 && Bounded(at, last, next)
    requires Kept(start, mem, root, pages, at, last)
    ensures Spare(at, next) && Bounded(at, last, next + 1) && next < |pages| && pages[next] in mem
    ensures SpareSame(mem, mem[pages[next] := ZeroTable()], pages, at, next)
    ensures Kept(start, mem[pages[next] := ZeroTable()], root, pages, at, last)
  {
    hide EntryNumber, LinkedAt, MappedAt, Kept;
    KeptClear(start, mem, root, pages, at, last, next);
  }

  lemma RootNoPage(mem: Memory, root: nat, pages: seq<nat>, at: Placement, n: nat)
    requires Directory(mem, root, pages, at, n)
    ensures root in mem && root !in pages
  {
  }

  lemma Advance(at: Placement, tables: seq<nat>, nextIndices: seq<nat>, last: seq<nat>, nextTable: nat, level: nat)
    requires level < |tables| == |nextIndices| == |last| == 4
    requires RoomAt(at, tables, nextIndices, last, level) && Bounded(at, last, nextTable)
    ensures var next', last' := nextIndices[level := nextIndices[level] + 1], last[level := last[level] + 1];
            LevelsOk(at, tables, next', last', level + 1) && Bounded(at, last', nextTable)
  {
    var next', last' := nextIndices[level := nextIndices[level] + 1], last[level := last[level] + 1];
    forall l: nat | l < level + 1
      ensures LevelOk(at, tables, next', last', l)
    {
      if l < level {
        assert LevelOk(at, tables, nextIndices, last, l);
      }
    }
  }

  lemma LevelIsOk(at: Placement, tables: seq<nat>, nextIndices: seq<nat>, last: seq<nat>, level: nat)
    requires level < |tables| == |nextIndices| == |last|
    requires LevelsOk(at, tables, nextIndices, last, level + 1)
    ensures LevelOk(at, tables, nextIndices, last, level)
  {
  }

  /** At a full level the level above has its turn. */
  lemma FullLevel(at: Placement, tables: seq<nat>, nextIndices: seq<nat>, last: seq<nat>, level: nat)
    requires 1 <= level < |tables| == |nextIndices| == |last|
    requires LevelsOk(at, tables, nextIndices, last, level + 1) && last[level] % 512 == 511
    requires last[level] + 1 < Limit(level)
    ensures AllPlaced(at, last, level) && NewTables(last, level) == 1 + NewTables(last, level - 1)
    ensures last[level - 1] + 1 == (last[level] + 1) / 512 && (last[level] + 1) % 512 == 0
    ensures last[level - 1] + 1 < Limit(level - 1)
  {
    LevelIsOk(at, tables, nextIndices, last, level);
  }

  /** A carry goes to the level above. */
  lemma TurnAbove(level: nat, last: seq<nat>, n: nat)
    requires 1 <= level < |last| == 4 && last[level] + 1 == Prefix(512 + n, level + 1)
    requires last[level - 1] + 1 == (last[level] + 1) / 512
    ensures last[level - 1] + 1 == Prefix(512 + n, level)
  {
  }

  lemma FitsFirst(pages: seq<nat>, from: nat, to: nat)
    requires from < |pages| && from < to
    ensures Fits32(pages, from, to) <==> pages[from] < 0x10_0000 && Fits32(pages, from + 1, to)
  {
  }

  /** The table of a level's last entry is placed. */
  lemma WalkPlaced(at: Placement, tables: seq<nat>, nextIndices: seq<nat>, last: seq<nat>, level: nat, v: nat)
    requires level < |tables| == |nextIndices| == |last| && LevelsOk(at, tables, nextIndices, last, level + 1)
    requires level < 4 && last[level] == Prefix(v, level + 1)
    ensures level > 0 ==> Place(level, Prefix(v, level)) in at
  {
    LevelIsOk(at, tables, nextIndices, last, level);
  }

  /** With an index left in its table, a level has room. */
  lemma RoomAlready(at: Placement, tables: seq<nat>, nextIndices: seq<nat>, last: seq<nat>, level: nat)
    requires level < |tables| == |nextIndices| == |last|
    requires LevelsOk(at, tables, nextIndices, last, level + 1) && nextIndices[level] < 512
    ensures RoomAt(at, tables, nextIndices, last, level) && NewTables(last, level) == 0
  {
    assert LevelOk(at, tables, nextIndices, last, level);
    assert (last[level] + 1) / 512 == last[level] / 512 && (last[level] + 1) % 512 == last[level] % 512 + 1;
  }

  lemma LevelsBelow(at: Placement, tables: seq<nat>, nextIndices: seq<nat>, last: seq<nat>, level: nat, t: nat)
    requires level < |tables| == |nextIndices| == |last|
    requires LevelsOk(at, tables, nextIndices, last, level + 1)
    ensures LevelsOk(at, tables[level := t], nextIndices[level := 0], last, level)
  {
    var tables', next' := tables[level := t], nextIndices[level := 0];
    forall l: nat | l < level
      ensures LevelOk(at, tables', next', last, l)
    {
      assert LevelOk(at, tables, nextIndices, last, l);
    }
  }

  /** Placing the new table gives its level room. */
  lemma RoomLevels(at: Placement, tables: seq<nat>, nextIndices: seq<nat>, last: seq<nat>, last0: seq<nat>,
                   level: nat, t: nat)
    requires 1 <= level < |tables| == |nextIndices| == |last|
    requires LevelsOk(at, tables, nextIndices, last, level)
    requires |last0| == |last| && AllPlaced(at, last0, level) && last[level - 1] == last0[level - 1] + 1
    requires tables[level] == t && nextIndices[level] == 0
    requires (last[level] + 1) % 512 == 0 && last[level - 1] == (last[level] + 1) / 512
    ensures RoomAt(at[Place(level, last[level - 1]) := t], tables, nextIndices, last, level)
  {
    var at' := at[Place(level, last[level - 1]) := t];
    forall l: nat | l < level
      ensures LevelOk(at', tables, nextIndices, last, l)
    {
      assert LevelOk(at, tables, nextIndices, last, l);
    }
  }

  lemma SpareTrans(mem0: Memory, mem1: Memory, mem2: Memory, pages: seq<nat>, at0: Placement, at1: Placement,
                   nextTable0: nat, nextTable1: nat)
    requires SpareSame(mem0, mem1, pages, at0, nextTable0) && SpareSame(mem1, mem2, pages, at1, nextTable1)
    requires nextTable0 <= nextTable1
    requires forall q | q in at1 :: (q in at0 && at1[q] == at0[q]) || at1[q] >= nextTable0
    ensures SpareSame(mem0, mem2, pages, at0, nextTable0)
  {
    forall k: nat | k < nextTable0 && k < |pages| && pages[k] in mem0 && Spare(at0, k)
      ensures pages[k] in mem2 && mem2[pages[k]] == mem0[pages[k]]
    {
      assert Spare(at1, k);
    }
  }

  /** The new table's page is not written before it is linked. */
  lemma PageKept(mem0: Memory, mem: Memory, pages: seq<nat>, at0: Placement, last0: seq<nat>, next: nat)
    requires |last0| == 4 && Bounded(at0, last0, next) && next < |pages| && pages[next] in mem0
    requires SpareSame(mem0, mem, pages, at0, next + 1)
    ensures pages[next] in mem && mem[pages[next]] == mem0[pages[next]]
  {
    assert Spare(at0, next);
  }

  lemma NewPlace(start: Memory, mem: Memory, root: nat, pages: seq<nat>, at: Placement, n: nat, last: seq<nat>,
                 nextTable: nat, level: nat, next: nat, at0: Placement, last0: seq<nat>)
    requires Directory(mem, root, pages, at, n) && 1 <= level < 4 && next < n && |last| == |last0| == 4
    requires Bounded(at0, last0, next) && Bounded(at, last, nextTable) && next < nextTable
    requires forall q | q in at :: (q in at0 && at[q] == at0[q]) || (q.level < level && at[q] > next)
    requires last[level - 1] == last0[level - 1] + 1
    requires EntryNumber(mem, root, pages, at, level - 1, last[level - 1]) == Link(pages[next])
    requires mem[pages[next]] == ZeroTable() && Kept(start, mem, root, pages, at, last)
    ensures var q := Place(level, last[level - 1]);
            && q !in at
            && Directory(mem, root, pages, at[q := next], n) && Bounded(at[q := next], last, nextTable)
            && Kept(start, mem, root, pages, at[q := next], last)
  {
    hide EntryNumber, Kept;
    var q := Place(level, last[level - 1]);
    assert q !in at;
    assert Spare(at, next);
    PlaceTable(mem, root, pages, at, n, q, next);
    KeptPlace(start, mem, root, pages, at, last, q, next);
  }

  /** The tables that map n pages from virtual page 512 on: one for every 512, 512^2 and 512^3 pages begun. */
  function TableCount(n: nat): nat
    requires n >= 1
  {
    var v := 511 + n;
    v / 512 + v / 512 / 512 + v / 512 / 512 / 512 + 2
  }

  lemma LimitThree()
    ensures Limit(3) == 0x8_0000_0000
  {
    assert Limit(1) == 512 * Limit(0);
    assert Limit(2) == 512 * Limit(1);
  }

  lemma OdometerOf(at: Placement, tables: seq<nat>, nextIndices: seq<nat>, last: seq<nat>)
    requires |tables| == |nextIndices| == |last| == 4 && LevelsOk(at, tables, nextIndices, last, 4)
    ensures last[2] == last[3] / 512 && last[1] == last[2] / 512 && last[0] == last[1] / 512
  {
    assert LevelOk(at, tables, nextIndices, last, 3);
    assert LevelOk(at, tables, nextIndices, last, 2);
    assert LevelOk(at, tables, nextIndices, last, 1);
  }

  lemma Quotient(x: nat)
    ensures (x + 1) / 512 == if x % 512 == 511 then x / 512 + 1 else x / 512
  {
  }

  lemma TablesFit(n: nat)
    requires n >= 3
    ensures TableCount(n + 1) <= n
  {
    var a := (512 + n) / 512;
    assert a / 512 <= a && a / 512 / 512 <= a;
    assert n < 512 ==> a == 1;
    assert n >= 512 ==> a == 1 + n / 512;
  }

  /** The tables the next page needs are counted, and their pages are mapped already. */
  lemma NewTablesCount(last: seq<nat>, n: nat)
    requires |last| == 4 && n >= 3 && last[3] == 511 + n
    requires last[2] == last[3] / 512 && last[1] == last[2] / 512 && last[0] == last[1] / 512
    ensures TableCount(n) + NewTables(last, 3) == TableCount(n + 1) <= n
  {
    Quotient(last[3]);
    Quotient(last[2]);
    Quotient(last[1]);
    assert NewTables(last, 1) == if last[1] % 512 == 511 then 1 else 0;
    assert NewTables(last, 2) == if last[2] % 512 == 511 then 1 + NewTables(last, 1) else 0;
    assert NewTables(last, 3) == if last[3] % 512 == 511 then 1 + NewTables(last, 2) else 0;
    TablesFit(n);
  }

  /** Through root entry 1 and two steps inside the temporary table, window page k leads to the frame that entry
      2 + k of the temporary table names. */
  ghost predicate Window(mem: Memory, root: nat, tmp: nat, k: nat, frame: nat)
  {
    && EntryAt(mem, root, 1) == Link(tmp) && EntryAt(mem, tmp, 0) == Link(tmp) && EntryAt(mem, tmp, 1) == Link(tmp)
    && k < 3 && EntryAt(mem, tmp, 2 + k) == Link(frame)
  }

  lemma WindowWalk(mem: Memory, root: nat, tmp: nat, k: nat, frame: nat)
    requires Window(mem, root, tmp, k, frame)
    ensures Lookup(mem, root, 0x800_0000 + 512 + 2 + k) == Small(frame, KERNEL_PAGE_FLAG)
  {
    var v := 0x800_0000 + 512 + 2 + k;
    IndexIsDigit(v);
    assert v / 512 == 0x4_0001 && v / 512 / 512 == 512;
    assert TableAt(mem, root, v, 0) == Some(root);
    assert TableAt(mem, root, v, 1) == Some(tmp);
    assert TableAt(mem, root, v, 2) == Some(tmp);
  }

  lemma WriteTwice(mem: Memory, f: nat, i: nat, e: Entry, j: nat, e': Entry)
    requires f in mem && i < 512 && j < 512
    ensures Write(Write(mem, f, i, e), f, j, e') == mem[f := mem[f][i := e][j := e']]
  {
  }

  lemma TmpWrites(mem1: Memory, tmp: nat, pdpt0: nat, pdt0: nat, pt0: nat)
    requires tmp in mem1
    ensures var mem2 := Write(Write(mem1, tmp, 0, Link(tmp)), tmp, 1, Link(tmp));
            var mem3 := Write(Write(Write(mem2, tmp, 2, Link(pdpt0)), tmp, 3, Link(pdt0)), tmp, 4, Link(pt0));
            mem3 == mem1[tmp := mem1[tmp][0 := Link(tmp)][1 := Link(tmp)]
                                         [2 := Link(pdpt0)][3 := Link(pdt0)][4 := Link(pt0)]]
  {
    WriteTwice(mem1, tmp, 0, Link(tmp), 1, Link(tmp));
    WriteTwice(mem1, tmp, 0, Link(tmp), 1, Link(tmp));
    var mem2 := Write(Write(mem1, tmp, 0, Link(tmp)), tmp, 1, Link(tmp));
    assert mem2[tmp] == mem1[tmp][0 := Link(tmp)][1 := Link(tmp)];
    WriteTwice(mem2, tmp, 2, Link(pdpt0), 3, Link(pdt0));
  }

  /** The six writes that open it, and the first link of the root table. */
  lemma WindowOpened(mem0: Memory, root: nat, tmp: nat, pdpt0: nat, pdt0: nat, pt0: nat)
    requires root in mem0 && tmp in mem0 && root != tmp
    ensures var mem1 := Write(mem0, root, 1, Link(tmp));
            && tmp in mem1
            && var mem2 := Write(Write(mem1, tmp, 0, Link(tmp)), tmp, 1, Link(tmp));
               var mem3 := Write(Write(Write(mem2, tmp, 2, Link(pdpt0)), tmp, 3, Link(pdt0)), tmp, 4, Link(pt0));
               && root in mem3
               && var mem := Write(mem3, root, 0, Link(pdpt0));
                  && mem.Keys == mem0.Keys && mem[root] == mem0[root][1 := Link(tmp)][0 := Link(pdpt0)]
                  && (forall f | f in mem && f != tmp && f != root :: mem[f] == mem0[f])
                  && Window(mem, root, tmp, 0, pdpt0) && Window(mem, root, tmp, 1, pdt0)
                  && Window(mem, root, tmp, 2, pt0)
  {
    var mem1 := Write(mem0, root, 1, Link(tmp));
    var mem2 := Write(Write(mem1, tmp, 0, Link(tmp)), tmp, 1, Link(tmp));
    var mem3 := Write(Write(Write(mem2, tmp, 2, Link(pdpt0)), tmp, 3, Link(pdt0)), tmp, 4, Link(pt0));
    TmpWrites(mem1, tmp, pdpt0, pdt0, pt0);
    assert mem1[root] == mem0[root][1 := Link(tmp)];
  }

  lemma FirstWrites(mem0: Memory, mem1: Memory, mem: Memory, root: nat, tmp: nat, pdpt0: nat, pdt0: nat, pt0: nat)
    requires root in mem0 && tmp in mem0 && pdpt0 in mem0 && pdt0 in mem0 && pt0 in mem0
    requires root != tmp && {root, tmp} !! {pdpt0, pdt0, pt0} && pdpt0 != pdt0 && pdpt0 != pt0 && pdt0 != pt0
    requires mem1.Keys == mem0.Keys && mem1[root] == mem0[root][1 := Link(tmp)][0 := Link(pdpt0)]
    requires forall f | f in mem1 && f != tmp && f != root :: mem1[f] == mem0[f]
    requires mem == Write(Write(Write(Write(Write(Write(mem1, pdpt0, 0, Link(pdt0)), pdt0, 1, Link(pt0)),
                    pt0, 0, Link(pdpt0)), pt0, 1, Link(pdt0)), pt0, 2, Link(pt0)), root, 1, Empty)
    ensures FirstThree(mem0, mem, root, tmp, pdpt0, pdt0, pt0)
  {
    var mem2 := Write(Write(mem1, pdpt0, 0, Link(pdt0)), pdt0, 1, Link(pt0));
    var mem3 := Write(Write(Write(mem2, pt0, 0, Link(pdpt0)), pt0, 1, Link(pdt0)), pt0, 2, Link(pt0));
    assert mem3[pt0] == mem0[pt0][0 := Link(pdpt0)][1 := Link(pdt0)][2 := Link(pt0)];
    assert mem3[root] == mem1[root] && mem3[pdpt0] == mem2[pdpt0] && mem3[pdt0] == mem2[pdt0];
    assert mem[root] == mem0[root][0 := Link(pdpt0)][1 := Empty];
  }

  lemma ThreeTables()
    ensures TableCount(3) == 3
  {
  }

  lemma FirstTables(l: nat)
    requires l < 4
    ensures TableFor(FirstPlaces(), l, [0, 0, 1, 514][l], [0, 0, 1, 2][l])
    ensures AllPlaced(FirstPlaces(), [0, 0, 1, 514], l)
  {
    assert l == 0 || l == 1 || l == 2 || l == 3;
  }

  lemma FirstLevel(l: nat)
    requires l < 4
    ensures LevelOk(FirstPlaces(), [0, 0, 1, 2], [1, 1, 2, 3], [0, 0, 1, 514], l)
  {
    FirstTables(l);
    assert 514 / 512 == 1 && 514 % 512 == 2;
    hide TableFor, AllPlaced, FirstPlaces;
    assert l == 0 || l == 1 || l == 2 || l == 3;
  }

  lemma FirstLevels()
    ensures LevelsOk(FirstPlaces(), [0, 0, 1, 2], [1, 1, 2, 3], [0, 0, 1, 514], 4)
    ensures Bounded(FirstPlaces(), [0, 0, 1, 514], 3) && TableCount(3) == 3
  {
    hide LevelOk, TableCount;
    forall l: nat | l < 4
      ensures LevelOk(FirstPlaces(), [0, 0, 1, 2], [1, 1, 2, 3], [0, 0, 1, 514], l)
    {
      FirstLevel(l);
    }
    ThreeTables();
  }

  lemma TablesAtLeast(n: nat)
    requires n >= 3
    ensures TableCount(n) >= 3
  {
    assert (511 + n) / 512 >= 1;
  }

  class Factory {
    const root: nat
    const m: seq<Span>
    var mem: Memory
    var nextTable: nat
    var tables: seq<nat>
    var first3: seq<nat>
    var nextIndices: seq<nat>
    var metapageCount: nat
    var first3Index: nat

    /** Which page holds which table; the last entry number used at each level; the pages mapped so far. */
    ghost var at: Placement
    ghost var last: seq<nat>
    ghost var n: nat
    /** The memory at the start, but for the temporary table. */
    ghost var base: Memory

    ghost predicate Maps()
      reads this
    {
      && Directory(mem, root, Units(m), at, n) && 512 + n < 0x10_0000_0000
      && Outside(base, mem, root, Units(m))
    }

    ghost predicate Sizes()
      reads this
    {
      && |tables| == 4 && |nextIndices| == 4 && |last| == 4 && nextTable <= n
      && First(2) <= last[2] && First(3) <= last[3]
    }

    /** Levels up to `level` are between two entries. */
    ghost predicate Ready(level: nat)
      requires level < 4
      reads this
    {
      && Maps() && Sizes() && Bounded(at, last, nextTable) && LevelsOk(at, tables, nextIndices, last, level + 1)
      && Kept(base, mem, root, Units(m), at, last)
    }

    /** Level `level` has a table with room for its next entry. */
    ghost predicate HasRoom(level: nat)
      requires level < 4
      reads this
    {
      && Maps() && Sizes() && Bounded(at, last, nextTable) && RoomAt(at, tables, nextIndices, last, level)
      && Kept(base, mem, root, Units(m), at, last)
    }

    /** A write through the virtual address of page k. */
    method Store(k: nat, i: nat, e: Entry)
      requires Maps() && k < n && i < 512
      modifies this`mem
      ensures Units(m)[k] in old(mem) && mem == Write(old(mem), Units(m)[k], i, e)
      ensures Outside(base, mem, root, Units(m))
    {
      hide Outside;
      DirectoryMaps(mem, root, Units(m), at, n, k);
      OutsideWrite(base, mem, root, Units(m), Units(m)[k], i, e);
      var f := Translate(Lookup(mem, root, 512 + k), 512 + k);
      mem := Write(mem, f.value, i, e);
    }

    /** memset through the virtual address of page k. */
    method Clear(k: nat)
      requires Maps() && k < n && Spare(at, k)
      modifies this`mem
      ensures mem == old(mem)[Units(m)[k] := ZeroTable()] && Maps()
    {
      hide Outside;
      DirectoryMaps(mem, root, Units(m), at, n, k);
      var f := Translate(Lookup(mem, root, 512 + k), 512 + k);
      ClearSpare(mem, root, Units(m), at, n, k);
      OutsideClear(base, mem, root, Units(m), k);
      mem := mem[f.value := ZeroTable()];
    }

    /** The write itself, to the root table or through the virtual address of the level's table. */
    method StoreEntry(level: nat, frame: nat, ghost f: nat)
      requires level < 4 && Maps() && Sizes() && nextIndices[level] < 512 && f in mem
      requires if level == 0 then f == root && nextIndices[0] < 256
               else tables[level] < n && f == Units(m)[tables[level]]
      modifies this`mem
      ensures mem == Write(old(mem), f, nextIndices[level], Link(frame)) && Outside(base, mem, root, Units(m))
    {
      hide Directory, Outside;
      RootNoPage(mem, root, Units(m), at, n);
      if level == 0 {
        OutsideWrite(base, mem, root, Units(m), root, nextIndices[0], Link(frame));
        mem := Write(mem, root, nextIndices[0], Link(frame));
      } else {
        Store(tables[level], nextIndices[level], Link(frame));
      }
    }

    /** The end of dynpage_factory_next_recur: the entry itself. */
    method PutEntry(level: nat, frame: nat)
      requires level < 4 && HasRoom(level)
      requires level == 0 ==> last[0] + 1 < 256
      requires level == 3 ==> last[3] + 1 == 512 + n
      modifies this`mem, this`nextIndices, this`last
      ensures Ready(level)
      ensures last == old(last)[level := old(last)[level] + 1]
      ensures nextIndices == old(nextIndices)[level := old(nextIndices)[level] + 1]
      ensures EntryNumber(mem, root, Units(m), at, level, last[level]) == Link(frame)
      ensures SpareSame(old(mem), mem, Units(m), at, nextTable)
    {
      hide Directory, EntryNumber, Write, LevelsOk, Kept, SpareSame, Outside, RoomAt, Bounded, Limit, Units;
      ghost var e, mem0 := last[level] + 1, mem;
      RoomTable(at, tables, nextIndices, last, nextTable, level);
      ghost var f := PutFacts(mem, root, Units(m), at, n, level, e, Link(frame));
      PutsKept(base, mem, root, Units(m), at, n, last, nextTable, level, f, Link(frame));
      Advance(at, tables, nextIndices, last, nextTable, level);
      StoreEntry(level, frame, f);
      nextIndices := nextIndices[level := nextIndices[level] + 1];
      last := last[level := e];
    }

    /** The next entry of the level is the one on the walk to the page that is being mapped. */
    ghost predicate Turn(level: nat)
      requires level < 4
      reads this
    {
      level < |last| && last[level] + 1 == Prefix(512 + n, level + 1)
    }

    /** The fields of the levels beyond `level` are as before. */
    ghost predicate Above(level: nat, last0: seq<nat>, tables0: seq<nat>, nextIndices0: seq<nat>)
      requires |last0| == |tables0| == |nextIndices0| == 4
      reads this
    {
      && Sizes()
      && forall l: nat | level < l < 4 ::
           last[l] == last0[l] && tables[l] == tables0[l] && nextIndices[l] == nextIndices0[l]
    }

    /** What `level` took: tables were placed at this level and above only, in the next pages in turn. */
    ghost predicate Takes(at0: Placement, last0: seq<nat>, nextTable0: nat, level: nat)
      requires level < |last0|
      reads this
    {
      && nextTable == nextTable0 + NewTables(last0, level)
      && (forall q | q in at0 :: q in at && at[q] == at0[q])
      && (forall q | q in at :: q in at0 || (q.level <= level && at[q] >= nextTable0))
    }

    /** The new table is linked now, and its level has room. */
    ghost method PlaceTaken(level: nat, next: nat, at0: Placement, last0: seq<nat>)
      requires 1 <= level < 4 && Ready(level - 1) && |last0| == 4 && next < nextTable && next < n
      requires Bounded(at0, last0, next) && AllPlaced(at0, last0, level)
      requires forall q | q in at0 :: q in at && at[q] == at0[q]
      requires forall q | q in at :: q in at0 || (q.level < level && at[q] > next)
      requires last[level - 1] == last0[level - 1] + 1 == (last[level] + 1) / 512 && (last[level] + 1) % 512 == 0
      requires tables[level] == next && nextIndices[level] == 0
      requires EntryNumber(mem, root, Units(m), at, level - 1, last[level - 1]) == Link(Units(m)[next])
      requires Units(m)[next] in mem && mem[Units(m)[next]] == ZeroTable()
      modifies this`at
      ensures HasRoom(level)
      ensures Place(level, last[level - 1]) !in old(at) && at == old(at)[Place(level, last[level - 1]) := next]
    {
      hide Directory, EntryNumber, Kept, LevelsOk, Outside;
      NewPlace(base, mem, root, Units(m), at, n, last, nextTable, level, next, at0, last0);
      RoomLevels(at, tables, nextIndices, last, last0, level, next);
      at := at[Place(level, last[level - 1]) := next];
    }

    method TakePage(level: nat)
      requires 1 <= level < 4 && Ready(level) && nextTable < n
      modifies this`mem, this`nextTable, this`tables, this`nextIndices, this`metapageCount
      ensures nextTable == old(nextTable) + 1 && metapageCount == old(metapageCount) + 1
      ensures tables == old(tables)[level := old(nextTable)] && nextIndices == old(nextIndices)[level := 0]
      ensures Ready(level - 1)
      ensures old(nextTable) < |Units(m)| && Units(m)[old(nextTable)] in mem
      ensures mem[Units(m)[old(nextTable)]] == ZeroTable()
      ensures SpareSame(old(mem), mem, Units(m), at, old(nextTable))
    {
      hide Directory, Kept, LevelsOk, Bounded, Spare, SpareSame, Outside, First;
      var next := nextTable;
      ClearsNext(base, mem, root, Units(m), at, n, last, next);
      Clear(next);
      LevelsBelow(at, tables, nextIndices, last, level, next);
      tables := tables[level := next];
      nextIndices := nextIndices[level := 0];
      nextTable := nextTable + 1;
      metapageCount := metapageCount + 1;
    }

    /** Page `next` is linked at the level above, by an address of 32 bits. */
    method LinkPage(level: nat, next: nat) returns (ok: bool)
      requires 1 <= level < 4 && Ready(level - 1) && last[level - 1] + 1 < Limit(level - 1) && Turn(level - 1)
      requires next < n && nextTable + NewTables(last, level - 1) <= n
      modifies this`mem, this`nextTable, this`tables, this`nextIndices, this`metapageCount, this`at, this`last
      ensures next < |Units(m)|
      ensures ok <==> Units(m)[next] < 0x10_0000 &&
                      Fits32(Units(m), old(nextTable), old(nextTable) + NewTables(old(last), level - 1))
      ensures !ok ==> Astray(mem, root, Units(m), 512 + n)
      ensures ok ==> Ready(level - 1) && last[level - 1] == old(last)[level - 1] + 1
      ensures ok ==> Above(level - 1, old(last), old(tables), old(nextIndices))
      ensures ok ==> Takes(old(at), old(last), old(nextTable), level - 1)
      ensures ok ==> metapageCount - old(metapageCount) == NewTables(old(last), level - 1)
      ensures ok ==> EntryNumber(mem, root, Units(m), at, level - 1, last[level - 1]) == Link(Units(m)[next])
      ensures ok ==> SpareSame(old(mem), mem, Units(m), old(at), old(nextTable))
      decreases level - 1, 2
    {
      hide EntryNumber, Kept, SpareSame, LevelsOk, Bounded, Outside, RoomAt, AllPlaced, Limit, NewTables, Units;
      hide Fits32, Astray, Prefix, LinkedAt, MappedAt;
      var p := VirtToPhys(m, next);
      var nextPhys := p.value % 0x10_0000;
      ok := NextRecur(level - 1, nextPhys);
      if ok && nextPhys != p.value {
        WalkPlaced(at, tables, nextIndices, last, level - 1, 512 + n);
        LinkAstray(mem, root, Units(m), at, n, level, next, 512 + n);
        ok := false;
      }
    }

    /** dynpage_factory_next_recur when the level's table is full: the next page becomes the new table, and the
        level above gets an entry for it.  The page's address is kept in 32 bits on the way: if it does not fit, the
        walk to the page that is being mapped is led astray, and the model stops. */
    method NewTable(level: nat) returns (ok: bool)
      requires 1 <= level < 4 && Ready(level) && last[level] % 512 == 511 && Turn(level)
      requires last[level] + 1 < Limit(level)
      requires nextTable + NewTables(last, level) <= n
      modifies this`mem, this`nextTable, this`tables, this`nextIndices, this`metapageCount, this`at, this`last
      ensures ok <==> Fits32(Units(m), old(nextTable), old(nextTable) + NewTables(old(last), level))
      ensures !ok ==> Astray(mem, root, Units(m), 512 + n)
      ensures ok ==> HasRoom(level) && last[level] == old(last)[level]
      ensures ok ==> Above(level, old(last), old(tables), old(nextIndices))
      ensures ok ==> Takes(old(at), old(last), old(nextTable), level)
      ensures ok ==> metapageCount - old(metapageCount) == NewTables(old(last), level)
      ensures ok ==> SpareSame(old(mem), mem, Units(m), old(at), old(nextTable))
      decreases level, 0
    {
      hide Directory, EntryNumber, Kept, SpareSame, LevelsOk, Bounded, Outside, RoomAt, AllPlaced, Limit;
      hide NewTables, Units;
      hide Fits32, Astray, Prefix;
      ghost var at0, mem0, last0, nextTable0 := at, mem, last, nextTable;
      FullLevel(at, tables, nextIndices, last, level);
      var next := nextTable;
      TakePage(level);
      ghost var mem1 := mem;
      FitsFirst(Units(m), next, next + NewTables(last, level));
      TurnAbove(level, last, n);
      ok := LinkPage(level, next);
      if !ok {
        return false;
      }
      SpareTrans(mem0, mem1, mem, Units(m), at0, at0, nextTable0, nextTable0 + 1);
      PageKept(mem1, mem, Units(m), at0, last0, next);
      PlaceTaken(level, next, at0, last0);
    }

    /** dynpage_factory_next_recur */
    method NextRecur(level: nat, frame: nat) returns (ok: bool)
      requires level < 4 && Ready(level) && last[level] + 1 < Limit(level) && Turn(level)
      requires level == 3 ==> last[3] + 1 == 512 + n
      requires nextTable + NewTables(last, level) <= n
      modifies this`mem, this`nextTable, this`tables, this`nextIndices, this`metapageCount, this`at, this`last
      ensures ok <==> Fits32(Units(m), old(nextTable), old(nextTable) + NewTables(old(last), level))
      ensures !ok ==> Astray(mem, root, Units(m), 512 + n)
      ensures ok ==> Ready(level)
      ensures ok ==> last[level] == old(last)[level] + 1 && Above(level, old(last), old(tables), old(nextIndices))
      ensures ok ==> Takes(old(at), old(last), old(nextTable), level)
      ensures ok ==> metapageCount - old(metapageCount) == NewTables(old(last), level)
      ensures ok ==> EntryNumber(mem, root, Units(m), at, level, last[level]) == Link(frame)
      ensures ok ==> SpareSame(old(mem), mem, Units(m), old(at), old(nextTable))
      decreases level, 1
    {
      hide Directory, EntryNumber, Kept, SpareSame, LevelsOk, Bounded, Outside, Units, Astray, Prefix;
      ghost var at0, mem0, nextTable0 := at, mem, nextTable;
      LevelIsOk(at, tables, nextIndices, last, level);
      ok := true;
      if nextIndices[level] >= 512 {
        ok := NewTable(level);
        if !ok {
          return false;
        }
      } else {
        RoomAlready(at, tables, nextIndices, last, level);
      }
      ghost var mem1 := mem;
      PutEntry(level, frame);
      SpareTrans(mem0, mem1, mem, Units(m), at0, at, nextTable0, nextTable);
    }

    /** The factory has mapped the first n >= 3 pages. */
    ghost predicate Mapping()
      reads this
    {
      && 3 <= n && first3Index == 3 && Ready(3) && last[3] + 1 == 512 + n
      && nextTable == metapageCount == TableCount(n)
    }

    /** dynpage_factory_next, once the first three pages are mapped. */
    method NextMapped(frame: nat) returns (ok: bool)
      requires Mapping() && n < |Units(m)| && frame == Units(m)[n] && 512 + n < 0x8_0000_0000
      modifies this`mem, this`nextTable, this`tables, this`nextIndices, this`metapageCount, this`at, this`last, this`n
      ensures ok <==> Fits32(Units(m), TableCount(old(n)), TableCount(old(n) + 1))
      ensures !ok ==> Astray(mem, root, Units(m), 512 + old(n))
      ensures ok ==> Mapping() && n == old(n) + 1
    {
      hide Directory, EntryNumber, Kept, SpareSame, LevelsOk, Bounded, TableCount, NewTables, Outside, Units, Fits32;
      hide Astray;
      LimitThree();
      OdometerOf(at, tables, nextIndices, last);
      NewTablesCount(last, n);
      assert 3 <= nextTable by {
        TablesAtLeast(n);
      }
      ok := NextRecur(3, frame);
      if !ok {
        return false;
      }
      OdometerOf(at, tables, nextIndices, last);
      MapNext(mem, root, Units(m), at, n);
      n := n + 1;
    }

    /** Fewer than three pages have been handed over, and none is mapped. */
    ghost predicate Collecting(k: nat)
      reads this
    {
      && k < 3 && first3Index == k && |first3| == 3 && k <= |Units(m)| && first3[..k] == Units(m)[..k]
      && nextTable == 3 && tables == [0, 0, 1, 2] && nextIndices == [1, 1, 2, 3]
      && metapageCount == 0 && at == map[] && last == [0, 0, 1, 514] && n == 0
    }

    /** dynpage_factory_create */
    constructor (root: nat, m: seq<Span>, mem: Memory)
      ensures this.root == root && this.m == m && this.mem == mem == base
      ensures Collecting(0)
    {
      this.root, this.m, this.mem := root, m, mem;
      nextTable, tables, nextIndices := 3, [0, 0, 1, 2], [1, 1, 2, 3];
      first3, metapageCount, first3Index := [0, 0, 0], 0, 0;
      at, last, n, base := map[], [0, 0, 1, 514], 0, mem;
    }

    /** A write to a virtual address of the temporary window of pagetable_construct_dyn_3. */
    method StoreWindow(tmp: nat, k: nat, i: nat, e: Entry, ghost frame: nat)
      requires Window(mem, root, tmp, k, frame) && k < 3 && i < 512 && frame in mem && frame != root && frame != tmp
      modifies this`mem
      ensures mem == Write(old(mem), frame, i, e)
      ensures forall j: nat, f: nat | Window(old(mem), root, tmp, j, f) :: Window(mem, root, tmp, j, f)
    {
      WindowWalk(mem, root, tmp, k, frame);
      var v := 0x800_0000 + 512 + 2 + k;
      var f := Translate(Lookup(mem, root, v), v);
      mem := Write(mem, f.value, i, e);
    }

    /** The temporary table that links to itself, at root entry 1, and the new level-1 table at entry 0. */
    method OpenWindow(pdpt0: nat, pdt0: nat, pt0: nat, tmp: nat)
      requires root in mem && tmp in mem && root != tmp
      modifies this`mem
      ensures mem.Keys == old(mem).Keys && mem[root] == old(mem)[root][1 := Link(tmp)][0 := Link(pdpt0)]
      ensures forall f | f in mem && f != tmp && f != root :: mem[f] == old(mem)[f]
      ensures Window(mem, root, tmp, 0, pdpt0) && Window(mem, root, tmp, 1, pdt0) && Window(mem, root, tmp, 2, pt0)
    {
      hide Write, Window;
      WindowOpened(mem, root, tmp, pdpt0, pdt0, pt0);
      mem := Write(mem, root, 1, Link(tmp));
      mem := Write(mem, tmp, 0, Link(tmp));
      mem := Write(mem, tmp, 1, Link(tmp));
      mem := Write(mem, tmp, 2, Link(pdpt0));
      mem := Write(mem, tmp, 3, Link(pdt0));
      mem := Write(mem, tmp, 4, Link(pt0));
      mem := Write(mem, root, 0, Link(pdpt0));
    }

    /** pagetable_construct_dyn_3: the first three pages become the first tables, and are mapped by them.  They
        are written through a temporary table that links to itself. */
    method ConstructDyn3(pdpt0: nat, pdt0: nat, pt0: nat, tmp: nat)
      requires root in mem && tmp in mem && pdpt0 in mem && pdt0 in mem && pt0 in mem
      requires root != tmp && {root, tmp} !! {pdpt0, pdt0, pt0} && pdpt0 != pdt0 && pdpt0 != pt0 && pdt0 != pt0
      modifies this`mem
      ensures FirstThree(old(mem), mem, root, tmp, pdpt0, pdt0, pt0)
    {
      hide Window, FirstThree;
      ghost var mem0 := mem;
      OpenWindow(pdpt0, pdt0, pt0, tmp);
      ghost var mem1 := mem;
      StoreWindow(tmp, 0, 0, Link(pdt0), pdpt0);
      StoreWindow(tmp, 1, 1, Link(pt0), pdt0);
      StoreWindow(tmp, 2, 0, Link(pdpt0), pt0);
      StoreWindow(tmp, 2, 1, Link(pdt0), pt0);
      StoreWindow(tmp, 2, 2, Link(pt0), pt0);
      mem := Write(mem, root, 1, Empty);
      FirstWrites(mem0, mem1, mem, root, tmp, pdpt0, pdt0, pt0);
    }

    /** k pages have been handed over. */
    ghost predicate Taken(k: nat)
      reads this
    {
      if k < 3 then Collecting(k) && Backed(mem, root, Units(m)) && base == mem else Mapping() && n == k
    }

    method BuildFirst(tmp: nat)
      requires first3Index == 3 && |first3| == 3 && |Units(m)| >= 3 && first3 == Units(m)[..3]
      requires nextTable == 3 && tables == [0, 0, 1, 2] && nextIndices == [1, 1, 2, 3] && last == [0, 0, 1, 514]
      requires Backed(mem, root, Units(m)) && tmp in mem && tmp != root && tmp !in Units(m)
      requires base == mem
      modifies this`mem, this`metapageCount, this`at, this`n, this`base
      ensures Mapping() && n == 3
      ensures tmp in mem && base == old(base)[tmp := mem[tmp]]
    {
      hide Directory, Kept, FirstThree, Outside, Backed, LevelsOk, Bounded, TableCount, FirstPlaces;
      ghost var mem0 := mem;
      FirstApart(mem, root, Units(m), tmp);
      ConstructDyn3(first3[0], first3[1], first3[2], tmp);
      metapageCount := 3;
      FirstBuilt(mem0, mem, root, Units(m), tmp);
      at, n, base := FirstPlaces(), 3, base[tmp := mem[tmp]];
      FirstLevels();
    }

    /** The first three pages are collected, and become tables together. */
    method Collect(frame: nat, tmp: nat, ghost k: nat)
      requires k < 3 && Taken(k) && k < |Units(m)| && frame == Units(m)[k]
      requires tmp in mem && tmp != root && tmp !in Units(m)
      modifies this
      ensures Taken(k + 1)
      ensures k < 2 ==> mem == old(mem)
      ensures if k == 2 then tmp in mem && base == old(base)[tmp := mem[tmp]] else base == old(base)
    {
      hide Backed, Directory, Kept, LevelsOk, Bounded, TableCount, Outside, Units;
      first3 := first3[first3Index := frame];
      first3Index := first3Index + 1;
      if first3Index == 3 {
        BuildFirst(tmp);
      }
    }

    /** dynpage_factory_next, for page k. */
    method Next(frame: nat, tmp: nat, ghost k: nat) returns (ok: bool)
      requires Taken(k) && k < |Units(m)| && frame == Units(m)[k] && 512 + k < 0x8_0000_0000
      requires k < 3 ==> tmp in mem && tmp != root && tmp !in Units(m)
      modifies this
      ensures ok <==> k < 3 || Fits32(Units(m), TableCount(k), TableCount(k + 1))
      ensures !ok ==> Astray(mem, root, Units(m), 512 + k)
      ensures ok ==> Taken(k + 1)
      ensures k < 2 ==> mem == old(mem)
      ensures if k == 2 then tmp in mem && base == old(base)[tmp := mem[tmp]] else base == old(base)
    {
      hide Backed, Directory, Kept, LevelsOk, Bounded, TableCount, Outside, Astray, Fits32, Units;
      ok := true;
      if first3Index < 3 {
        Collect(frame, tmp, k);
      } else {
        ok := NextMapped(frame);
      }
    }
  }
}
