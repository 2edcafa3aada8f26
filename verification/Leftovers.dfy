/** What pagetable_construct_dyn of kernel/src/arch/x86_64/memory.c leaves mapped beside the pages of the memory map.
    It clears the tables it takes, but not the root table and the first three pages: their entries that stay unused
    hold what they held, and the processor follows them. */
module Leftovers {
  import opened DynPages
  import opened DynTables
  import opened PageIterators
  import opened Options
  import opened Paging

  // ---------- what is below an entry ----------

  /** An entry of a table of level l maps no page, neither itself nor by the tables below it.  The size bit of an
      entry of the root table is reserved, so that it faults. */
  ghost predicate MapsNone(mem: Memory, l: nat, e: Entry)
    requires l < 4
    decreases 4 - l
  {
    e == Empty ||
    (if l == 3 then false
     else if e.huge then l == 0
     else forall i: nat | i < 512 :: MapsNone(mem, l + 1, EntryAt(mem, e.frame, i)))
  }

  /** A walk that ends above the tables of level 3. */
  lemma StopsHere(mem: Memory, root: nat, v: nat, l: nat, f: nat)
    requires l < 3 && TableAt(mem, root, v, l) == Some(f) && Next(EntryAt(mem, f, Index(v, l))) == None
    ensures Lookup(mem, root, v) ==
            if l == 2 then HugeEntry(EntryAt(mem, f, Index(v, 2)))
            else if l == 1 then GiantEntry(EntryAt(mem, f, Index(v, 1)))
            else Unmapped
  {
    hide Prefix, Index;
    assert TableAt(mem, root, v, l + 1) == None;
    if l == 0 {
      assert TableAt(mem, root, v, 2) == None;
    }
  }

  lemma {:induction false} MapsNoneUnmapped(mem: Memory, root: nat, v: nat, l: nat, f: nat)
    requires l < 4 && TableAt(mem, root, v, l) == Some(f) && MapsNone(mem, l, EntryAt(mem, f, Index(v, l)))
    ensures Lookup(mem, root, v) == Unmapped
    decreases 4 - l
  {
    hide Prefix, Index;
    var e := EntryAt(mem, f, Index(v, l));
    if l == 3 {
      assert TableAt(mem, root, v, 2).Some?;
    } else if e == Empty || e.huge {
      StopsHere(mem, root, v, l, f);
    } else {
      MapsNoneUnmapped(mem, root, v, l + 1, e.frame);
    }
  }

  /** The first page with the given leading digits. */
  function FromPrefix(e: nat, l: nat): (v: nat)
    requires l <= 4
    ensures Prefix(v, l) == e
    decreases 4 - l
  {
    if l == 4 then e
    else
      var v := FromPrefix(e * 512, l + 1);
      assert Prefix(v, l) == Prefix(v, l + 1) / 512;
      v
  }

  /** Leading digits of leading digits. */
  lemma {:induction false} PrefixAbove(u: nat, v: nat, k: nat, l: nat)
    requires k <= l <= 4 && Prefix(u, l) == Prefix(v, l)
    ensures Prefix(u, k) == Prefix(v, k)
    decreases l - k
  {
    if k == l {
    } else {
      assert Prefix(u, l - 1) == Prefix(u, l) / 512 && Prefix(v, l - 1) == Prefix(v, l) / 512;
      PrefixAbove(u, v, k, l - 1);
    }
  }

  /** If an entry maps some page, then one with the same leading digits. */
  lemma {:induction false} MappedUnder(mem: Memory, root: nat, u: nat, l: nat, f: nat) returns (v: nat)
    requires l < 4 && TableAt(mem, root, u, l) == Some(f) && !MapsNone(mem, l, EntryAt(mem, f, Index(u, l)))
    ensures Prefix(v, l + 1) == Prefix(u, l + 1) && Lookup(mem, root, v) != Unmapped
    decreases 4 - l
  {
    var e := EntryAt(mem, f, Index(u, l));
    v := u;
    if l == 3 {
      assert TableAt(mem, root, v, 2).Some?;
    } else if e.huge {
      StopsHere(mem, root, v, l, f);
    } else {
      var i: nat :| i < 512 && !MapsNone(mem, l + 1, EntryAt(mem, e.frame, i));
      var w := FromPrefix(Prefix(u, l + 1) * 512 + i, l + 2);
      assert Prefix(w, l + 1) == Prefix(w, l + 2) / 512 == Prefix(u, l + 1);
      assert Index(w, l + 1) == i;
      PrefixAbove(w, u, l, l + 1);
      TableByPrefix(mem, root, w, u, l);
      assert Index(w, l) == Index(u, l);
      v := MappedUnder(mem, root, w, l + 1, e.frame);
      assert Prefix(v, l + 1) == Prefix(v, l + 2) / 512;
    }
  }

  // ---------- the entries that stay unused ----------

  /** Which page holds which table at the end, and the last entry in use of each level. */
  datatype Directories = Directories(at: Placement, last: seq<nat>)

  /** All pages are mapped by the tables placed, which are in the first `count` pages, and the other entries of these
      tables hold what they held at the start, or nothing. */
  ghost predicate Built(start: Memory, mem: Memory, root: nat, pages: seq<nat>, built: Directories, count: nat)
  {
    && |built.last| == 4 && Directory(mem, root, pages, built.at, |pages|)
    && |pages| >= 3 && count == TableCount(|pages|)
    && Kept(start, mem, root, pages, built.at, built.last) && Bounded(built.at, built.last, count)
    && built.last[3] == 511 + |pages| && built.last[2] == built.last[3] / 512
    && built.last[1] == built.last[2] / 512 && built.last[0] == built.last[1] / 512
    && AllPlaced(built.at, built.last, 1) && AllPlaced(built.at, built.last, 2) && AllPlaced(built.at, built.last, 3)
  }

  /** Entry number e of level l, in the lower half, is on the walk to none of the n pages. */
  predicate StaysUnused(n: nat, l: nat, e: nat)
  {
    l < 4 && (l == 0 ==> e < 256) && (e < First(l) || Prefix(511 + n, l + 1) < e)
  }

  lemma UnusedIs(last: seq<nat>, n: nat, l: nat, e: nat)
    requires |last| == 4 && last[3] == 511 + n
    requires last[2] == last[3] / 512 && last[1] == last[2] / 512 && last[0] == last[1] / 512
    ensures Unused(last, l, e) <==> StaysUnused(n, l, e)
  {
    assert Prefix(511 + n, 4) == 511 + n;
    assert Prefix(511 + n, 3) == last[2];
    assert Prefix(511 + n, 2) == last[1];
    assert Prefix(511 + n, 1) == last[0];
    assert l < 4 ==> l == 0 || l == 1 || l == 2 || l == 3;
  }

  /** No page of the lower half but the n pages is mapped. */
  ghost predicate NothingBeside(mem: Memory, root: nat, n: nat)
  {
    forall v: nat | v < 0x8_0000_0000 && !(512 <= v < 512 + n) :: Lookup(mem, root, v) == Unmapped
  }

  /** The entries that stay unused map no page. */
  ghost predicate LeftoversMapNone(start: Memory, mem: Memory, root: nat, pages: seq<nat>)
  {
    forall l: nat, e: nat {:trigger Leftover(start, root, pages, l, e)} | l < 4 && StaysUnused(|pages|, l, e) ::
      MapsNone(mem, l, Leftover(start, root, pages, l, e))
  }

  /** The first level at which the walk to v leaves the walks to the n pages. */
  function LeavesAt(n: nat, v: nat): nat
  {
    if StaysUnused(n, 0, Prefix(v, 1)) then 0
    else if StaysUnused(n, 1, Prefix(v, 2)) then 1
    else if StaysUnused(n, 2, Prefix(v, 3)) then 2
    else 3
  }

  lemma LowerHalf(v: nat)
    requires v < 0x8_0000_0000
    ensures v / 512 / 512 / 512 < 256
  {
    assert v / 512 < 0x400_0000;
    assert v / 512 / 512 < 0x2_0000;
  }

  lemma Leaves(n: nat, v: nat)
    requires v < 0x8_0000_0000 && !(512 <= v < 512 + n)
    ensures var l := LeavesAt(n, v);
            && l < 4 && StaysUnused(n, l, Prefix(v, l + 1))
            && (l > 0 ==> First(l - 1) <= Prefix(v, l) <= Prefix(511 + n, l))
  {
    IndexIsDigit(v);
    LowerHalf(v);
    assert Prefix(v, 4) == v && Prefix(511 + n, 4) == 511 + n;
    hide Prefix;
  }

  lemma Ordered(v: nat, w: nat)
    requires v <= w
    ensures v / 512 <= w / 512 && v / 512 / 512 <= w / 512 / 512 && v / 512 / 512 / 512 <= w / 512 / 512 / 512
  {
  }

  lemma NoneOnTheWay(n: nat, v: nat, l: nat)
    requires 512 <= v < 512 + n && l < 4
    ensures First(l) <= Prefix(v, l + 1) <= Prefix(511 + n, l + 1)
  {
    IndexIsDigit(v);
    IndexIsDigit(511 + n);
    assert Prefix(v, 4) == v && Prefix(511 + n, 4) == 511 + n;
    Ordered(v, 511 + n);
    assert l == 0 || l == 1 || l == 2 || l == 3;
  }

  lemma LastIs(built: Directories, n: nat, l: nat)
    requires |built.last| == 4 && built.last[3] == 511 + n && l < 4
    requires built.last[2] == built.last[3] / 512
    requires built.last[1] == built.last[2] / 512 && built.last[0] == built.last[1] / 512
    ensures built.last[l] == Prefix(511 + n, l + 1)
  {
    IndexIsDigit(511 + n);
    assert Prefix(511 + n, 4) == 511 + n;
    assert l == 0 || l == 1 || l == 2 || l == 3;
  }

  lemma PlaceFits(mem: Memory, root: nat, pages: seq<nat>, at: Placement, n: nat, q: Place)
    requires Directory(mem, root, pages, at, n) && q in at
    ensures at[q] < |pages|
  {
  }

  lemma KeptEntry(start: Memory, mem: Memory, root: nat, pages: seq<nat>, at: Placement, last: seq<nat>, l: nat, e: nat)
    requires |last| == 4 && Kept(start, mem, root, pages, at, last) && Unused(last, l, e)
    ensures EntryNumber(mem, root, pages, at, l, e) == Leftover(start, root, pages, l, e)
  {
  }

  /** The walk to v up to an entry that stays unused, and what the entry holds. */
  lemma WalkToUnused(start: Memory, mem: Memory, root: nat, pages: seq<nat>, built: Directories, count: nat, v: nat,
                     l: nat)
    requires Built(start, mem, root, pages, built, count) && v < 0x10_0000_0000
    requires l < 4 && StaysUnused(|pages|, l, Prefix(v, l + 1))
    requires l > 0 ==> Place(l, Prefix(v, l)) in built.at
    ensures TableAt(mem, root, v, l).Some?
    ensures EntryAt(mem, TableAt(mem, root, v, l).value, Index(v, l)) ==
            Leftover(start, root, pages, l, Prefix(v, l + 1))
  {
    var e := Prefix(v, l + 1);
    assert e / 512 == Prefix(v, l) && e % 512 == Index(v, l);
    if l == 0 {
      TopPrefix(v);
    }
    UnusedIs(built.last, |pages|, l, e);
    hide Leftover, Unused, StaysUnused, Prefix;
    WalkPlaces(mem, root, pages, built.at, |pages|, v, l);
    if l > 0 {
      PlaceFits(mem, root, pages, built.at, |pages|, Place(l, Prefix(v, l)));
    }
    KeptEntry(start, mem, root, pages, built.at, built.last, l, e);
  }

  /** Where the walk to another page leaves those to the pages, its table is placed. */
  lemma LeavesPlaced(start: Memory, mem: Memory, root: nat, pages: seq<nat>, built: Directories, count: nat, v: nat)
    requires Built(start, mem, root, pages, built, count)
    requires v < 0x8_0000_0000 && !(512 <= v < 512 + |pages|)
    ensures var l := LeavesAt(|pages|, v);
            l < 4 && StaysUnused(|pages|, l, Prefix(v, l + 1)) && (l > 0 ==> Place(l, Prefix(v, l)) in built.at)
  {
    hide Directory, Kept, Bounded, Prefix, StaysUnused, LeavesAt;
    Leaves(|pages|, v);
    var l := LeavesAt(|pages|, v);
    if l > 0 {
      LastIs(built, |pages|, l - 1);
      assert AllPlaced(built.at, built.last, l);
    }
  }

  lemma LeftoverSmall(start: Memory, root: nat, pages: seq<nat>, l: nat, e: nat)
    requires Leftover(start, root, pages, l, e) != Empty
    ensures e < 1024 && (l < 3 ==> e < 512)
  {
  }

  /** An entry that stays unused and is not empty is in a table that is placed, and only pages beside the n pages are
      under it. */
  lemma LeftoverPlaced(start: Memory, mem: Memory, root: nat, pages: seq<nat>, built: Directories, count: nat, l: nat,
                       e: nat)
    requires Built(start, mem, root, pages, built, count) && l < 4 && StaysUnused(|pages|, l, e)
    requires Leftover(start, root, pages, l, e) != Empty
    ensures l > 0 ==> Place(l, e / 512) in built.at
    ensures e < 1024 && (l == 0 ==> e < 256) && (l < 3 ==> e < 512)
  {
    UnusedIs(built.last, |pages|, l, e);
    hide Directory, Leftover, Unused, StaysUnused;
    KeptEntry(start, mem, root, pages, built.at, built.last, l, e);
    LeftoverSmall(start, root, pages, l, e);
  }

  lemma UnderBeside(n: nat, l: nat, e: nat, v: nat)
    requires l < 4 && StaysUnused(n, l, e) && Prefix(v, l + 1) == e && e < 1024 && (l == 0 ==>
               e < 256) && (l < 3 ==> e < 512)
    ensures v < 0x8_0000_0000 && !(512 <= v < 512 + n)
  {
    if 512 <= v < 512 + n {
      NoneOnTheWay(n, v, l);
    }
    IndexIsDigit(v);
    assert Prefix(v, 4) == v;
    assert l == 0 || l == 1 || l == 2 || l == 3;
  }

  lemma NothingElse(start: Memory, mem: Memory, root: nat, pages: seq<nat>, built: Directories, count: nat, v: nat)
    requires Built(start, mem, root, pages, built, count) && LeftoversMapNone(start, mem, root, pages)
    requires v < 0x8_0000_0000 && !(512 <= v < 512 + |pages|)
    ensures Lookup(mem, root, v) == Unmapped
  {
    hide Built, Lookup, MapsNone, Leftover, StaysUnused, Prefix, TableAt, LeavesAt, Index;
    var l := LeavesAt(|pages|, v);
    LeavesPlaced(start, mem, root, pages, built, count, v);
    WalkToUnused(start, mem, root, pages, built, count, v, l);
    MapsNoneUnmapped(mem, root, v, l, TableAt(mem, root, v, l).value);
  }

  lemma SomethingElse(start: Memory, mem: Memory, root: nat, pages: seq<nat>, built: Directories, count: nat, l: nat,
                      e: nat)
    returns (v: nat)
    requires Built(start, mem, root, pages, built, count) && l < 4 && StaysUnused(|pages|, l, e)
    requires !MapsNone(mem, l, Leftover(start, root, pages, l, e))
    ensures v < 0x8_0000_0000 && !(512 <= v < 512 + |pages|) && Lookup(mem, root, v) != Unmapped
  {
    hide Built, Lookup, Leftover, StaysUnused, TableAt;
    LeftoverPlaced(start, mem, root, pages, built, count, l, e);
    var u := FromPrefix(e, l + 1);
    UnderBeside(|pages|, l, e, u);
    assert Prefix(u, l) == Prefix(u, l + 1) / 512;
    hide MapsNone, Prefix;
    WalkToUnused(start, mem, root, pages, built, count, u, l);
    v := MappedUnder(mem, root, u, l, TableAt(mem, root, u, l).value);
    UnderBeside(|pages|, l, e, v);
  }

  /** Nothing but the pages of the memory map is mapped in the lower half if and only if the entries that stay unused
      map nothing. */
  lemma NothingBesideIff(start: Memory, mem: Memory, root: nat, pages: seq<nat>, built: Directories, count: nat)
    requires Built(start, mem, root, pages, built, count) && 512 + |pages| <= 0x8_0000_0000
    ensures NothingBeside(mem, root, |pages|) <==> LeftoversMapNone(start, mem, root, pages)
  {
    hide Built, Lookup, MapsNone, Leftover, StaysUnused, Prefix, TableAt;
    if LeftoversMapNone(start, mem, root, pages) {
      forall v: nat | v < 0x8_0000_0000 && !(512 <= v < 512 + |pages|)
        ensures Lookup(mem, root, v) == Unmapped
      {
        NothingElse(start, mem, root, pages, built, count, v);
      }
    }
    if NothingBeside(mem, root, |pages|) {
      forall l: nat, e: nat | l < 4 && StaysUnused(|pages|, l, e)
        ensures MapsNone(mem, l, Leftover(start, root, pages, l, e))
      {
        if !MapsNone(mem, l, Leftover(start, root, pages, l, e)) {
          var v := SomethingElse(start, mem, root, pages, built, count, l, e);
          assert false;
        }
      }
    }
  }

  // ---------- where no entry links a table ----------

  /** None of the entries that stay unused links a table. */
  ghost predicate NoLinks(start: Memory, root: nat, pages: seq<nat>)
  {
    forall l: nat, e: nat {:trigger Leftover(start, root, pages, l, e)} | l < 3 && StaysUnused(|pages|, l, e) ::
      Next(Leftover(start, root, pages, l, e)) == None
  }

  lemma UnlinkedMapsNone(mem: Memory, l: nat, e: Entry)
    requires l < 4 && (l < 3 ==> Next(e) == None)
    ensures MapsNone(mem, l, e) <==> l == 0 || e == Empty
  {
  }

  /** Then, as could be seen before: nothing else is mapped if and only if all of them below the root table are
      empty. */
  lemma NothingBesideUnlinked(start: Memory, mem: Memory, root: nat, pages: seq<nat>, built: Directories, count: nat)
    requires Built(start, mem, root, pages, built, count) && 512 + |pages| <= 0x8_0000_0000
    requires NoLinks(start, root, pages)
    ensures NothingBeside(mem, root, |pages|) <==>
            forall l: nat, e: nat {:trigger Leftover(start, root, pages, l, e)} |
              0 < l < 4 && StaysUnused(|pages|, l, e) :: Leftover(start, root, pages, l, e) == Empty
  {
    hide Built, NothingBeside, Leftover, StaysUnused;
    NothingBesideIff(start, mem, root, pages, built, count);
    forall l: nat, e: nat | l < 4 && StaysUnused(|pages|, l, e)
      ensures MapsNone(mem, l, Leftover(start, root, pages, l, e)) <==>
              l == 0 || Leftover(start, root, pages, l, e) == Empty
    {
      UnlinkedMapsNone(mem, l, Leftover(start, root, pages, l, e));
    }
  }

  /** How a page beside the pages of the memory map is mapped then. */
  function LeftMapping(start: Memory, root: nat, pages: seq<nat>, v: nat): Mapping
  {
    var l := LeavesAt(|pages|, v);
    var e := Leftover(start, root, pages, l, Prefix(v, l + 1));
    if l == 3 then SmallEntry(e)
    else if l == 2 then HugeEntry(e)
    else if l == 1 then GiantEntry(e)
    else Unmapped
  }

  lemma LastLevel(mem: Memory, root: nat, v: nat)
    requires TableAt(mem, root, v, 3).Some?
    ensures Lookup(mem, root, v) == SmallEntry(EntryAt(mem, TableAt(mem, root, v, 3).value, Index(v, 3)))
  {
    hide Prefix, Index;
    assert TableAt(mem, root, v, 2).Some?;
  }

  lemma LeftMapped(start: Memory, mem: Memory, root: nat, pages: seq<nat>, built: Directories, count: nat, v: nat)
    requires Built(start, mem, root, pages, built, count) && NoLinks(start, root, pages)
    requires v < 0x8_0000_0000 && !(512 <= v < 512 + |pages|)
    ensures Lookup(mem, root, v) == LeftMapping(start, root, pages, v)
  {
    hide Built, Lookup, Leftover, StaysUnused, Prefix, TableAt, LeavesAt, Index;
    var l := LeavesAt(|pages|, v);
    LeavesPlaced(start, mem, root, pages, built, count, v);
    WalkToUnused(start, mem, root, pages, built, count, v, l);
    if l < 3 {
      StopsHere(mem, root, v, l, TableAt(mem, root, v, l).value);
    } else {
      LastLevel(mem, root, v);
    }
  }

  // ---------- where the tables still form a tree ----------

  /** Entries that stay unused may map pages as entries of their level do in a tree of tables, no more. */
  ghost predicate LeftoversFit(start: Memory, root: nat, pages: seq<nat>)
  {
    forall l: nat, e: nat {:trigger Leftover(start, root, pages, l, e)} | l < 4 && StaysUnused(|pages|, l, e) ::
      LeafEntry(Leftover(start, root, pages, l, e), l)
  }

  lemma FitNoLinks(start: Memory, root: nat, pages: seq<nat>)
    requires LeftoversFit(start, root, pages)
    ensures NoLinks(start, root, pages)
  {
    hide Leftover, StaysUnused;
  }

  lemma LeftoverFits(start: Memory, mem: Memory, root: nat, pages: seq<nat>, built: Directories, count: nat, l: nat,
                     e: nat)
    requires Built(start, mem, root, pages, built, count) && LeftoversFit(start, root, pages)
    requires l < 4 && Unused(built.last, l, e)
    ensures LeafEntry(EntryNumber(mem, root, pages, built.at, l, e), l)
  {
    UnusedIs(built.last, |pages|, l, e);
    hide Directory, Leftover, Unused, StaysUnused, EntryNumber, LeafEntry;
    KeptEntry(start, mem, root, pages, built.at, built.last, l, e);
  }
}
