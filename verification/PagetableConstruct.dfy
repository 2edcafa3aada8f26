/** pagetable_construct_dyn of kernel/src/arch/x86_64/memory.c: all pages of the memory map, mapped in order. */
module PagetableConstruct {
  import opened Dynmem
  import opened DynPages
  import opened DynTables
  import opened Leftovers
  import opened PageIterators
  import opened PageRights
  import opened Paging
  import opened Pigeonhole

  lemma Placed(at: Placement, tables: seq<nat>, nextIndices: seq<nat>, last: seq<nat>)
    requires |tables| == |nextIndices| == |last| == 4 && LevelsOk(at, tables, nextIndices, last, 4)
    ensures AllPlaced(at, last, 1) && AllPlaced(at, last, 2) && AllPlaced(at, last, 3)
  {
    assert LevelOk(at, tables, nextIndices, last, 1);
    assert LevelOk(at, tables, nextIndices, last, 2);
    assert LevelOk(at, tables, nextIndices, last, 3);
  }

  /** The tables that the walk to a mapped page meets are among the first pages. */
  lemma TablesInFirstPages(mem: Memory, root: nat, pages: seq<nat>, at: Placement, n: nat, last: seq<nat>,
                           count: nat, j: nat, l: nat)
    requires Directory(mem, root, pages, at, n) && |last| == 4 && Bounded(at, last, count) && count <= |pages|
    requires j < n && 512 + j < 0x10_0000_0000 && 1 <= l < 4
    ensures TableAt(mem, root, 512 + j, l).Some? && TableAt(mem, root, 512 + j, l).value in pages[..count]
  {
    var v := 512 + j;
    assert MappedAt(mem, root, pages, at, j);
    IndexIsDigit(v);
    var q3, q2, q1 := Place(3, Prefix(v, 3)), Place(2, Prefix(v, 2)), Place(1, Prefix(v, 1));
    assert q3 in at;
    assert LinkedAt(mem, root, pages, at, q3);
    assert q2 in at;
    assert LinkedAt(mem, root, pages, at, q2);
    assert q1 in at;
    var q := if l == 3 then q3 else if l == 2 then q2 else q1;
    WalkPlaces(mem, root, pages, at, n, v, l);
    assert pages[..count][at[q]] == pages[at[q]];
  }

  /** The pages of the map are in memory and distinct. */
  lemma MapBacked(m: seq<Span>, mem: Memory, root: nat)
    requires Normalised(m) && root in mem && root !in Units(m) && forall p | p in Units(m) :: p in mem
    ensures Backed(mem, root, Units(m))
  {
    UnitsIncrease(m);
  }

  lemma TableCountMonotone(n: nat, n': nat)
    requires 1 <= n <= n'
    ensures TableCount(n) <= TableCount(n')
  {
    var v, v' := 511 + n, 511 + n';
    assert v / 512 <= v' / 512;
    assert v / 512 / 512 <= v' / 512 / 512;
  }

  /** Page n of the memory map is mapped at virtual page 512 + n, to be read and written. */
  ghost predicate MapsPage(mem: Memory, root: nat, pages: seq<nat>, n: nat)
    requires n < |pages|
  {
    Lookup(mem, root, 512 + n) == Small(pages[n], KERNEL_PAGE_FLAG) && Usable(mem, root, 512 + n)
  }

  /** Each page is mapped, in order from virtual page 512 on. */
  ghost predicate MapsPages(mem: Memory, root: nat, pages: seq<nat>)
  {
    forall n: nat | n < |pages| :: MapsPage(mem, root, pages, n)
  }

  /** The tables on the way to the first n of them are in the given pages. */
  ghost predicate TablesWithin(mem: Memory, root: nat, n: nat, front: seq<nat>)
  {
    forall v: nat, l: nat {:trigger TableAt(mem, root, v, l)} | 512 <= v < 512 + n && 1 <= l < 4 ::
      TableAt(mem, root, v, l).Some? && TableAt(mem, root, v, l).value in front
  }

  /** What a factory that has taken all pages has built. */
  lemma FactoryDone(f: Factory)
    requires f.Mapping() && f.n == |Units(f.m)|
    ensures MapsPages(f.mem, f.root, Units(f.m))
    ensures f.metapageCount == TableCount(f.n) <= f.n
    ensures TablesWithin(f.mem, f.root, f.n, Units(f.m)[..f.metapageCount])
  {
    hide Directory, Kept, LevelsOk, Bounded, Lookup, TableAt, TableCount, Usable;
    var pages := Units(f.m);
    forall j: nat | j < |pages|
      ensures MapsPage(f.mem, f.root, pages, j)
    {
      DirectoryUsable(f.mem, f.root, pages, f.at, f.n, j);
      DirectoryMaps(f.mem, f.root, pages, f.at, f.n, j);
    }
    forall v: nat, l: nat | 512 <= v < 512 + f.n && 1 <= l < 4
      ensures TableAt(f.mem, f.root, v, l).Some? && TableAt(f.mem, f.root, v, l).value in pages[..f.metapageCount]
    {
      TablesInFirstPages(f.mem, f.root, pages, f.at, f.n, f.last, f.metapageCount, v - 512, l);
      assert 512 + (v - 512) == v;
    }
  }

  /** The factory has taken k pages, from mem0 on. */
  ghost predicate TakenFrom(f: Factory, mem0: Memory, tmp: nat, k: nat)
    reads f
  {
    && f.Taken(k) && tmp in mem0 && k <= |Units(f.m)|
    && (if k < 3 then f.mem == mem0 && f.base == mem0
        else tmp in f.base && f.base == mem0[tmp := f.base[tmp]])
  }

  /** The pages that become tables after the first three have addresses that fit 32 bits. */
  ghost predicate TablesFit32(pages: seq<nat>, n: nat)
  {
    n > 3 ==> Fits32(pages, 3, TableCount(n))
  }

  lemma FitsMore(pages: seq<nat>, k: nat)
    ensures k <= 2 ==> TablesFit32(pages, k + 1)
    ensures k > 2 ==>
              (TablesFit32(pages, k + 1) <==>
               TablesFit32(pages, k) && Fits32(pages, TableCount(k), TableCount(k + 1)))
  {
    hide TableCount;
    if k > 2 {
      assert TableCount(3) == 3 by {
        FirstLevels();
      }
      TableCountMonotone(3, k);
      TableCountMonotone(k, k + 1);
    }
  }

  lemma FitsAll(pages: seq<nat>, k: nat, n: nat)
    requires k <= n && TablesFit32(pages, n)
    ensures TablesFit32(pages, k)
  {
    hide TableCount;
    if k > 3 {
      TableCountMonotone(k, n);
    }
  }

  method TakeNext(factory: Factory, addr: nat, ghost mem0: Memory, tmp: nat, ghost k: nat) returns (ok: bool)
    requires TakenFrom(factory, mem0, tmp, k) && k < |Units(factory.m)| && addr == Units(factory.m)[k]
    requires tmp != factory.root && tmp !in Units(factory.m)
    requires 512 + |Units(factory.m)| <= 0x8_0000_0000 && TablesFit32(Units(factory.m), k)
    modifies factory
    ensures ok <==> TablesFit32(Units(factory.m), k + 1)
    ensures if ok then TakenFrom(factory, mem0, tmp, k + 1)
            else Astray(factory.mem, factory.root, Units(factory.m), 512 + k)
  {
    hide TableCount, Kept, Directory, LevelsOk, Bounded, Outside, TablesFit32, Units, Backed, Astray, Fits32;
    FitsMore(Units(factory.m), k);
    ok := factory.Next(addr, tmp, k);
  }

  /** The inner loop of pagetable_construct_dyn: the pages of entry i. */
  method TakeEntry(factory: Factory, i: nat, ghost mem0: Memory, tmp: nat, total0: nat) returns (total: nat, ok: bool)
    requires i < |factory.m| && total0 == |Units(factory.m[..i])| && TakenFrom(factory, mem0, tmp, total0)
    requires tmp != factory.root && tmp !in Units(factory.m)
    requires 512 + |Units(factory.m)| <= 0x8_0000_0000 && TablesFit32(Units(factory.m), total0)
    modifies factory
    ensures if ok then
              && total == |Units(factory.m[..i + 1])| && TakenFrom(factory, mem0, tmp, total)
              && TablesFit32(Units(factory.m), total)
            else
              && total < |Units(factory.m)| && !TablesFit32(Units(factory.m), total + 1)
              && Astray(factory.mem, factory.root, Units(factory.m), 512 + total)
  {
    hide TakenFrom, TablesFit32, Units, Astray;
    PrefixUnits(factory.m, i);
    total := total0;
    var addr := factory.m[i].base;
    while addr < factory.m[i].base + factory.m[i].len
      invariant factory.m[i].base <= addr <= factory.m[i].base + factory.m[i].len
      invariant total == total0 + (addr - factory.m[i].base) && TakenFrom(factory, mem0, tmp, total)
      invariant TablesFit32(Units(factory.m), total)
    {
      assert Units(factory.m)[total] == Units(factory.m[..i + 1])[total] == SpanUnits(factory.m[i])[total - total0];
      ok := TakeNext(factory, addr, mem0, tmp, total);
      if !ok {
        return total, false;
      }
      addr := addr + 1;
      total := total + 1;
    }
    ok := true;
  }

  /** The outer loop. */
  method TakeAll(m: seq<Span>, root: nat, mem0: Memory, tmp: nat) returns (factory: Factory, total: nat, ok: bool)
    requires Backed(mem0, root, Units(m)) && tmp in mem0 && tmp != root && tmp !in Units(m)
    requires 512 + |Units(m)| <= 0x8_0000_0000
    ensures factory.root == root && factory.m == m
    ensures ok <==> TablesFit32(Units(m), |Units(m)|)
    ensures if ok then total == |Units(m)| && TakenFrom(factory, mem0, tmp, total)
            else total < |Units(m)| && Astray(factory.mem, root, Units(m), 512 + total)
  {
    hide Backed, Outside, TablesFit32, Kept, TableCount, Astray;
    factory := new Factory(root, m, mem0);
    total, ok := 0, true;
    FitsMore(Units(m), 0);
    FitsAll(Units(m), 0, 1);
    for i := 0 to |m|
      invariant total == |Units(m[..i])| && factory.root == root && factory.m == m
      invariant fresh(factory) && TakenFrom(factory, mem0, tmp, total) && TablesFit32(Units(m), total) && ok
    {
      hide Units, TakenFrom;
      total, ok := TakeEntry(factory, i, mem0, tmp, total);
      if !ok {
        if TablesFit32(Units(m), |Units(m)|) {
          FitsAll(Units(m), total + 1, |Units(m)|);
        }
        return;
      }
    }
    assert m[..|m|] == m;
  }

  lemma FactoryBuilt(f: Factory)
    requires f.Mapping() && f.n == |Units(f.m)|
    ensures Built(f.base, f.mem, f.root, Units(f.m), Directories(f.at, f.last), f.metapageCount)
  {
    hide Directory, Kept, LevelsOk, Bounded, TableCount, AllPlaced, Outside;
    OdometerOf(f.at, f.tables, f.nextIndices, f.last);
    Placed(f.at, f.tables, f.nextIndices, f.last);
  }

  /** The temporary table is not written after the window is closed. */
  lemma TempAt(mem0: Memory, mem: Memory, root: nat, pages: seq<nat>, tmp: nat, base: Memory)
    requires tmp in mem0 && tmp in base && base == mem0[tmp := base[tmp]] && Outside(base, mem, root, pages)
    requires tmp != root && tmp !in pages
    ensures tmp in mem && Outside(mem0[tmp := mem[tmp]], mem, root, pages)
  {
  }

  /** Nor has it any of the entries that may stay unused. */
  lemma LeftoverWithout(mem0: Memory, tmp: nat, t: Table, root: nat, pages: seq<nat>, l: nat, e: nat)
    requires tmp != root && tmp !in pages
    ensures Leftover(mem0[tmp := t], root, pages, l, e) == Leftover(mem0, root, pages, l, e)
  {
  }

  lemma BuiltFrom(mem0: Memory, base: Memory, tmp: nat, mem: Memory, root: nat, pages: seq<nat>, built: Directories,
                  count: nat)
    requires Built(base, mem, root, pages, built, count) && tmp in base && base == mem0[tmp := base[tmp]]
    requires tmp != root && tmp !in pages
    ensures Built(mem0, mem, root, pages, built, count)
  {
    hide Directory, Bounded, AllPlaced, Leftover, EntryNumber, Unused;
    forall l: nat, e: nat | Unused(built.last, l, e)
      ensures EntryNumber(mem, root, pages, built.at, l, e) == Leftover(mem0, root, pages, l, e)
    {
      LeftoverWithout(mem0, tmp, base[tmp], root, pages, l, e);
      assert EntryNumber(mem, root, pages, built.at, l, e) == Leftover(base, root, pages, l, e);
    }
  }

  /** pagetable_construct_dyn, in pages.  The addresses of pages that become tables are kept in an uint32_t: it goes
      right exactly when they fit; else some walk is led astray, and the model stops there.  The index of the root
      table must stay below 256, which the source asserts.  Of fewer than three pages none is mapped.  Nothing else is
      mapped in the lower half exactly when the entries that stay unused map nothing. */
  method PagetableConstructDyn(m: seq<Span>, root: nat, mem0: Memory, tmp: nat)
    returns (mem: Memory, total: nat, tables: nat, ok: bool, ghost built: Directories)
    requires Normalised(m) && root in mem0 && root !in Units(m) && forall p | p in Units(m) :: p in mem0
    requires tmp in mem0 && tmp != root && tmp !in Units(m)
    requires 512 + |Units(m)| <= 0x8_0000_0000
    ensures Backed(mem0, root, Units(m))
    ensures ok <==> TablesFit32(Units(m), |Units(m)|)
    ensures !ok ==> total < |Units(m)| && Astray(mem, root, Units(m), 512 + total)
    ensures ok ==> total == |Units(m)|
    ensures ok && total < 3 ==> tables == 0 && mem == mem0
    ensures ok && total >= 3 ==> tables == TableCount(total) <= total && MapsPages(mem, root, Units(m))
    ensures ok && total >= 3 ==> TablesWithin(mem, root, total, Units(m)[..tables])
    ensures ok && total >= 3 ==> Built(mem0, mem, root, Units(m), built, tables)
    ensures ok && total >= 3 ==>
              (NothingBeside(mem, root, total) <==> LeftoversMapNone(mem0, mem, root, Units(m)))
    ensures ok && total >= 3 ==> tmp in mem && Outside(mem0[tmp := mem[tmp]], mem, root, Units(m))
  {
    hide TableCount, Directory, LevelsOk, Bounded, MapsPages, TablesWithin, NothingBeside, Outside, Units, Kept;
    hide TablesFit32, Backed, Astray, Built, LeftoversMapNone;
    MapBacked(m, mem0, root);
    var factory;
    factory, total, ok := TakeAll(m, root, mem0, tmp);
    mem, tables := factory.mem, factory.metapageCount;
    built := Directories(factory.at, factory.last);
    if ok && total >= 3 {
      FactoryDone(factory);
      FactoryBuilt(factory);
      TempAt(mem0, mem, root, Units(m), tmp, factory.base);
      BuiltFrom(mem0, factory.base, tmp, mem, root, Units(m), built, tables);
      NothingBesideIff(mem0, mem, root, Units(m), built, tables);
    }
  }

  // ---------- two memory maps that go wrong ----------

  lemma AnotherPage(mem: Memory, root: nat, n: nat, v: nat)
    requires v < 0x8_0000_0000 && !(512 <= v < 512 + n) && Lookup(mem, root, v) != Unmapped
    ensures !NothingBeside(mem, root, n)
  {
    hide Lookup;
  }

  lemma OneSpan(base: nat, len: nat)
    requires len > 0
    ensures Normalised([Span(base, len)]) && |Units([Span(base, len)])| == len
    ensures forall k | 0 <= k < len :: Units([Span(base, len)])[k] == base + k
    ensures forall p | p in Units([Span(base, len)]) :: base <= p < base + len
  {
    var m := [Span(base, len)];
    assert m[..0] == [] && Units(m) == Units(m[..0]) + SpanUnits(m[0]);
  }

  lemma ThreePages()
    ensures TablesFit32(Units([Span(2048, 3)]), 3)
  {
  }

  lemma NoLinksHere(mem0: Memory)
    requires mem0.Keys == {1, 2, 2048, 2049, 2050}
    requires mem0[1] == mem0[2048] == mem0[2049] == ZeroTable()
    ensures NoLinks(mem0, 1, Units([Span(2048, 3)]))
  {
    OneSpan(2048, 3);
    hide Units, StaysUnused;
  }

  lemma LeftHere(mem0: Memory)
    requires 2050 in mem0 && mem0[2050][3] == Present(7, false, 3)
    ensures LeftMapping(mem0, 1, Units([Span(2048, 3)]), 515) == Small(7, 3)
  {
    OneSpan(2048, 3);
    hide Units;
    IndexIsDigit(515);
    IndexIsDigit(514);
    assert Prefix(515, 4) == 515 && Prefix(514, 4) == 514;
  }

  /** Three pages, the third of which holds an entry at first: it stays mapped, behind the three. */
  method StaleEntryStaysMapped() returns (mem: Memory)
    ensures Lookup(mem, 1, 515) == Small(7, 3) && !NothingBeside(mem, 1, 3)
  {
    hide Built, Lookup, Units, NothingBeside, LeftMapping, NoLinks, LeftoversMapNone, TablesFit32, Normalised;
    hide Backed, Outside, MapsPages, TablesWithin, TableCount;
    var stale := ZeroTable()[3 := Present(7, false, 3)];
    var zero := ZeroTable();
    var mem0: Memory := map[1 := zero, 2 := zero, 2048 := zero, 2049 := zero, 2050 := stale];
    var m := [Span(2048, 3)];
    OneSpan(2048, 3);
    ThreePages();
    var ok, total, tables;
    ghost var built;
    mem, total, tables, ok, built := PagetableConstructDyn(m, 1, mem0, 2);
    NoLinksHere(mem0);
    LeftMapped(mem0, mem, 1, Units(m), built, tables, 515);
    LeftHere(mem0);
    AnotherPage(mem, 1, 3, 515);
  }

  lemma CutHere()
    ensures !TablesFit32(Units([Span(0x10_0000, 513)]), 513)
  {
    OneSpan(0x10_0000, 513);
    hide Units;
    assert TableCount(513) == 4;
    assert Units([Span(0x10_0000, 513)])[3] == 0x10_0003;
  }

  /** 513 pages from 4 GiB on: the fourth becomes a table, and 4 GiB are cut off its address. */
  method CutAddress(root: nat, mem0: Memory, tmp: nat) returns (mem: Memory, ok: bool)
    requires root in mem0 && tmp in mem0 && tmp != root && root < 0x10_0000 && tmp < 0x10_0000
    requires forall p: nat | 0x10_0000 <= p < 0x10_0201 :: p in mem0
    ensures !ok && exists v: nat :: Astray(mem, root, Units([Span(0x10_0000, 513)]), v)
  {
    var m := [Span(0x10_0000, 513)];
    OneSpan(0x10_0000, 513);
    CutHere();
    hide Astray, Units, Normalised, Backed, TablesFit32, LeftoversMapNone, NothingBeside, Built;
    var total, tables;
    ghost var built;
    mem, total, tables, ok, built := PagetableConstructDyn(m, root, mem0, tmp);
  }

  // ---------- each of the first pages holds a table ----------

  /** The places of level l for the prefixes from lo up to, not including, hi. */
  ghost function Places(l: nat, lo: nat, hi: nat): (s: set<Place>)
    requires lo <= hi
    ensures |s| == hi - lo
    ensures forall q :: q in s <==> q.level == l && lo <= q.prefix < hi
    decreases hi
  {
    if lo == hi then {} else Places(l, lo, hi - 1) + {Place(l, hi - 1)}
  }

  ghost function Image(at: Placement, s: set<Place>): set<int>
    requires s <= at.Keys
  {
    set q | q in s :: at[q]
  }

  lemma {:induction false} ImageSize(at: Placement, s: set<Place>)
    requires Apart(at) && s <= at.Keys
    ensures |Image(at, s)| == |s|
    decreases |s|
  {
    if s == {} {
      assert Image(at, s) == {};
    } else {
      var q :| q in s;
      ImageSize(at, s - {q});
      assert Image(at, s) == Image(at, s - {q}) + {at[q]};
    }
  }

  lemma CountIs(last: seq<nat>, n: nat)
    requires |last| == 4 && n >= 3 && last[3] == 511 + n
    requires last[2] == last[3] / 512 && last[1] == last[2] / 512 && last[0] == last[1] / 512
    ensures TableCount(n) == last[2] + last[1] + last[0] + 2 && last[2] >= 1
  {
  }

  /** As many places are needed as there are tables. */
  lemma PlacesNeeded(last: seq<nat>, n: nat) returns (s: set<Place>)
    requires |last| == 4 && n >= 3 && last[3] == 511 + n
    requires last[2] == last[3] / 512 && last[1] == last[2] / 512 && last[0] == last[1] / 512
    ensures |s| == TableCount(n)
    ensures forall q | q in s :: 1 <= q.level < 4 && First(q.level - 1) <= q.prefix <= last[q.level - 1]
  {
    CountIs(last, n);
    hide TableCount;
    var s1, s2, s3 := Places(1, 0, last[0] + 1), Places(2, 0, last[1] + 1), Places(3, 1, last[2] + 1);
    DisjointUnionSize(s1, s2);
    DisjointUnionSize(s1 + s2, s3);
    s := s1 + s2 + s3;
  }

  lemma AllHold(at: Placement, last: seq<nat>, count: nat, s: set<Place>, k: nat)
    requires Apart(at) && s <= at.Keys && |s| == count && k < count
    requires forall q | q in at :: at[q] < count
    ensures exists q :: q in at && at[q] == k
  {
    ImageSize(at, s);
    if k !in Image(at, s) {
      SubsetSize(Image(at, s), Range(count) - {k});
    }
  }

  lemma PlacedAt(at: Placement, last: seq<nat>, q: Place)
    requires |last| == 4 && AllPlaced(at, last, 1) && AllPlaced(at, last, 2) && AllPlaced(at, last, 3)
    requires 1 <= q.level < 4 && First(q.level - 1) <= q.prefix <= last[q.level - 1]
    ensures q in at
  {
    assert q == Place(q.level, q.prefix);
  }

  lemma TablesApart(mem: Memory, root: nat, pages: seq<nat>, at: Placement)
    requires Directory(mem, root, pages, at, |pages|)
    ensures Apart(at)
  {
  }

  /** Every one of the first dyn_pagetable_len bytes' pages holds a table. */
  lemma FirstPagesHold(start: Memory, mem: Memory, root: nat, pages: seq<nat>, built: Directories, count: nat, k: nat)
    requires Built(start, mem, root, pages, built, count) && k < count
    ensures exists q :: q in built.at && built.at[q] == k
  {
    hide Directory, Kept, TableCount, AllPlaced;
    var s := PlacesNeeded(built.last, |pages|);
    forall q | q in s
      ensures q in built.at
    {
      PlacedAt(built.at, built.last, q);
    }
    TablesApart(mem, root, pages, built.at);
    AllHold(built.at, built.last, count, s, k);
  }
}
