/** Runs of mmio_alloc_mapping and mmio_dealloc_mapping (kernel/src/memory.c) in any order: the ranges handed out
    and not yet given back, the live ones, and the free intervals share out the whole range. */
module MmioRuns {
  import opened FreeIntervals
  import opened MmioFreeList
  import opened MmioMappings
  import opened MmioPages
  import opened Options
  import opened PageRights
  import opened Paging
  import Pigeonhole

  /** The live ranges, each with what its pages were mapped to when it was handed out. */
  type Ranges = map<Interval, seq<Mapping>>

  ghost predicate LivePage(live: Ranges, p: nat)
  {
    exists v :: v in live && Inside(v, p)
  }

  predicate Apart(u: Interval, v: Interval)
  {
    u.end <= v.begin || v.end <= u.begin
  }

  /** Live ranges do not overlap, and every page of the range is either live or free. */
  ghost predicate Partition(free: seq<Interval>, live: Ranges)
  {
    && (forall v | v in live :: v.begin < v.end)
    && (forall u, v | u in live && v in live && u != v :: Apart(u, v))
    && (forall p: nat :: LivePage(live, p) <==> IOMAP_START <= p < IOMAP_END && !PageIn(free, p))
  }

  /** The pages of one live range are mapped as they were when it was handed out, by entries that map no other
      page. */
  ghost predicate StillMapped(mem: Memory, root: nat, v: Interval, maps: seq<Mapping>)
  {
    forall w: nat | Inside(v, w) ::
      && w - v.begin < |maps| && Lookup(mem, root, w) == maps[w - v.begin] != Unmapped
      && FlagsOf(maps[w - v.begin]) == KERNEL_PAGE_FLAG && HugeWithin(mem, root, v.begin, v.end, w)
  }

  ghost predicate AllMapped(mem: Memory, root: nat, live: Ranges)
  {
    forall v | v in live :: StillMapped(mem, root, v, live[v])
  }

  /** Outside the range nothing has changed since `base`, when nothing in it was mapped. */
  ghost predicate Elsewhere(base: Memory, mem: Memory, root: nat)
  {
    forall w: nat | w < 0x10_0000_0000 ::
      if IOMAP_START <= w < IOMAP_END then Lookup(base, root, w) == Unmapped
      else Lookup(mem, root, w) == Lookup(base, root, w)
  }

  /** Entries that link tables allow reading and writing, if they did at first. */
  ghost predicate StayUsable(base: Memory, mem: Memory, root: nat)
  {
    LinksUsable(base, root) ==> LinksUsable(mem, root)
  }

  ghost predicate Live(m: Mappings, live: Ranges, base: Memory)
    reads m, m.list, m.list.begins, m.list.ends, m.list.nexts, m.tables
  {
    && m.Valid() && Partition(m.Intervals(), live)
    && AllMapped(m.tables.mem, m.tables.root, live) && Elsewhere(base, m.tables.mem, m.tables.root)
    && StayUsable(base, m.tables.mem, m.tables.root)
  }

  // ---------- the partition ----------

  /** Nothing is live where all is free. */
  lemma AllFree()
    ensures Canonical([Interval(IOMAP_START, IOMAP_END)]) && Partition([Interval(IOMAP_START, IOMAP_END)], map[])
  {
    var free := [Interval(IOMAP_START, IOMAP_END)];
    forall p: nat
      ensures PageIn(free, p) <==> IOMAP_START <= p < IOMAP_END
    {
      assert Inside(free[0], p) <==> IOMAP_START <= p < IOMAP_END;
    }
  }

  /** And the other way round. */
  lemma NothingLive(free: seq<Interval>)
    requires Canonical(free) && Partition(free, map[])
    ensures free == [Interval(IOMAP_START, IOMAP_END)]
  {
    AllFree();
    FreeInRange(free);
    FreeInRange([Interval(IOMAP_START, IOMAP_END)]);
    hide Canonical, PageIn;
    CanonicalUnique(free, [Interval(IOMAP_START, IOMAP_END)]);
  }

  lemma LivePageMore(live: Ranges, v: Interval, maps: seq<Mapping>, p: nat)
    ensures LivePage(live[v := maps], p) <==> LivePage(live, p) || Inside(v, p)
  {
    assert v in live[v := maps];
    if u :| u in live && Inside(u, p) {
      assert u in live[v := maps];
    }
  }

  lemma InRange(v: Interval, p: nat)
    requires IOMAP_START <= v.begin && v.end <= IOMAP_END
    ensures Inside(v, p) ==> IOMAP_START <= p < IOMAP_END
  {
  }

  /** A page of a live range is not free. */
  lemma NotFree(free: seq<Interval>, live: Ranges, v: Interval, p: nat)
    requires Partition(free, live) && v in live
    ensures Inside(v, p) ==> !PageIn(free, p) && IOMAP_START <= p < IOMAP_END
  {
    hide PageIn;
    assert Inside(v, p) ==> LivePage(live, p);
  }

  /** Free pages become live. */
  lemma PartitionTake(free: seq<Interval>, rest: seq<Interval>, live: Ranges, v: Interval, maps: seq<Mapping>)
    requires Partition(free, live) && v.begin < v.end && IOMAP_START <= v.begin && v.end <= IOMAP_END
    requires forall p: nat | Inside(v, p) :: PageIn(free, p)
    requires forall p: nat :: PageIn(rest, p) <==> PageIn(free, p) && !Inside(v, p)
    ensures v !in live && Partition(rest, live[v := maps])
  {
    hide PageIn;
    forall u | u in live
      ensures Apart(u, v)
    {
      NotFree(free, live, u, if u.begin < v.begin then v.begin else u.begin);
    }
    assert !Apart(v, v);
    hide LivePage, Inside;
    forall p: nat
      ensures LivePage(live[v := maps], p) <==> IOMAP_START <= p < IOMAP_END && !PageIn(rest, p)
    {
      InRange(v, p);
      LivePageMore(live, v, maps, p);
    }
  }

  lemma LiveBounds(free: seq<Interval>, live: Ranges, v: Interval)
    requires Partition(free, live) && v in live
    ensures IOMAP_START <= v.begin < v.end <= IOMAP_END
    ensures forall p: nat | Inside(v, p) :: !PageIn(free, p)
  {
    hide PageIn, LivePage;
    NotFree(free, live, v, v.begin);
    NotFree(free, live, v, v.end - 1);
    forall p: nat | Inside(v, p)
      ensures !PageIn(free, p)
    {
      NotFree(free, live, v, p);
    }
  }

  lemma LivePageLess(live: Ranges, v: Interval, p: nat)
    requires v in live && forall u | u in live && u != v :: Apart(u, v)
    ensures LivePage(live - {v}, p) <==> LivePage(live, p) && !Inside(v, p)
  {
    if u :| u in live && Inside(u, p) && !Inside(v, p) {
      assert u in live - {v};
    }
    if u :| u in live - {v} && Inside(u, p) {
      assert u in live;
    }
  }

  /** Live pages become free. */
  lemma PartitionGive(free: seq<Interval>, more: seq<Interval>, live: Ranges, v: Interval)
    requires Partition(free, live) && v in live
    requires forall p: nat :: PageIn(more, p) <==> PageIn(free, p) || Inside(v, p)
    ensures Partition(more, live - {v})
  {
    hide PageIn;
    forall p: nat
      ensures LivePage(live - {v}, p) <==> IOMAP_START <= p < IOMAP_END && !PageIn(more, p)
    {
      LivePageLess(live, v, p);
      NotFree(free, live, v, p);
    }
  }

  // ---------- the panics ----------

  /** No free interval begins above a live range exactly when no page above it is free. */
  lemma NoneAbove(free: seq<Interval>, live: Ranges, v: Interval)
    requires Canonical(free) && Partition(free, live) && v in live
    ensures AboveIndex(free, v.begin) == |free| <==> forall p: nat | PageIn(free, p) :: p < v.begin
  {
    hide Partition, Canonical, AboveIndex, PageIn;
    LiveBounds(free, live, v);
    assert Inside(v, v.begin);
    var k := AboveIndex(free, v.begin);
    if k < |free| {
      Ends(free, k);
    } else {
      forall p: nat | PageIn(free, p)
        ensures p < v.begin
      {
        AllBelow(free, v.begin, p);
      }
    }
  }

  /** The pages beside a live range are free exactly when it meets a free interval there. */
  lemma Neighbours(free: seq<Interval>, live: Ranges, v: Interval, k: nat)
    requires Canonical(free) && Partition(free, live) && v in live && FirstAbove(free, k, v.begin)
    ensures FitsBefore(free, k, v.begin, v.end) && v.begin > 0
    ensures JoinsNext(free, k, v.end) <==> PageIn(free, v.end)
    ensures JoinsPrevious(free, k, v.begin) <==> PageIn(free, v.begin - 1)
  {
    hide Partition, Canonical, FirstAbove, FitsBefore, PageIn, JoinsNext, JoinsPrevious;
    LiveBounds(free, live, v);
    assert Inside(v, v.begin);
    PlaceExists(free, v.begin, v.end, k);
    MeetsPrevious(free, k, v.begin);
    MeetsNext(free, k, v.begin, v.end);
  }

  /** The page right after a free interval that is not the last one is live. */
  lemma OwnerOfEnd(free: seq<Interval>, live: Ranges, k: nat) returns (u: Interval)
    requires Canonical(free) && Partition(free, live) && k + 1 < |free|
    ensures u in live && Inside(u, free[k].end) && u.end <= free[k + 1].begin && free[k].end <= u.begin
  {
    hide Canonical, PageIn;
    CanonicalAt(free, k);
    CanonicalAt(free, k + 1);
    Ordered(free, k, k + 1);
    Ends(free, k);
    Ends(free, k + 1);
    assert LivePage(live, free[k].end);
    u :| u in live && Inside(u, free[k].end);
    LiveBounds(free, live, u);
    assert !Inside(u, free[k].end - 1) && !Inside(u, free[k + 1].begin);
  }

  /** Between free intervals there are live ranges, all different; and not v, if no free interval ends at v. */
  lemma {:induction false} Between(free: seq<Interval>, live: Ranges, v: Interval, n: nat) returns (s: set<Interval>)
    requires Canonical(free) && Partition(free, live) && n < |free|
    requires forall k | 0 <= k < |free| :: free[k].end != v.begin
    ensures |s| == n && s <= live.Keys - {v} && forall u | u in s :: u.end <= free[n].begin
  {
    hide Canonical, Partition, PageIn;
    if n == 0 {
      s := {};
    } else {
      s := Between(free, live, v, n - 1);
      var u := OwnerOfEnd(free, live, n - 1);
      CanonicalAt(free, n - 1);
      Ordered(free, n - 1, n);
      LiveBounds(free, live, u);
      s := s + {u};
    }
  }

  /** With few live ranges, a node for one more interval is there. */
  lemma FewIntervals(free: seq<Interval>, live: Ranges, v: Interval)
    requires Canonical(free) && Partition(free, live) && v in live && v.begin > 0 && !PageIn(free, v.begin - 1)
    ensures |free| <= |live|
  {
    forall k | 0 <= k < |free|
      ensures free[k].end != v.begin
    {
      Ends(free, k);
    }
    if |free| > 0 {
      var s := Between(free, live, v, |free| - 1);
      Pigeonhole.SubsetSize(s, live.Keys - {v});
    }
  }

  // ---------- the mappings ----------

  /** A range just mapped, beside the live ones. */
  lemma MappedMore(mem0: Memory, mem: Memory, root: nat, live: Ranges, v: Interval, phys: nat, maps: seq<Mapping>)
    requires Mapped(mem0, mem, root, v.begin, v.end, phys) && v.end <= 0x10_0000_0000 && AllMapped(mem0, root, live)
    requires forall u | u in live :: Apart(u, v) && u.end <= 0x10_0000_0000
    requires |maps| == v.end - v.begin
    requires forall i | 0 <= i < |maps| ::
               maps[i] == RangeMapping(mem0, root, v.begin, v.end, phys, KERNEL_PAGE_FLAG, v.begin + i)
    ensures AllMapped(mem, root, live[v := maps])
  {
    hide Lookup, RangeMapping;
    MappedFits(mem0, mem, root, v.begin, v.end, phys);
    assert StillMapped(mem, root, v, maps) by {
      hide HugeWithin;
      forall w: nat | Inside(v, w)
        ensures Lookup(mem, root, w) == maps[w - v.begin] != Unmapped
        ensures FlagsOf(maps[w - v.begin]) == KERNEL_PAGE_FLAG
      {
        assert v.begin + (w - v.begin) == w;
        RangeFlags(mem0, root, v.begin, v.end, phys, KERNEL_PAGE_FLAG, w);
      }
    }
    forall u | u in live
      ensures StillMapped(mem, root, u, live[u])
    {
      assert StillMapped(mem0, root, u, live[u]);
    }
  }

  /** Clearing one live range leaves the others. */
  lemma MappedLess(mem0: Memory, mem: Memory, root: nat, live: Ranges, v: Interval)
    requires Cleared(mem0, mem, root, v.begin, v.end) && AllMapped(mem0, root, live)
    requires forall u | u in live && u != v :: Apart(u, v) && u.end <= 0x10_0000_0000
    ensures AllMapped(mem, root, live - {v})
  {
    hide Lookup;
    forall u | u in live - {v}
      ensures StillMapped(mem, root, u, live[u])
    {
      assert StillMapped(mem0, root, u, live[u]);
    }
  }

  lemma LiveApart(free: seq<Interval>, live: Ranges, v: Interval)
    requires Partition(free, live)
    requires v in live || forall p: nat | Inside(v, p) :: PageIn(free, p)
    requires v.begin < v.end
    ensures forall u | u in live && u != v :: Apart(u, v) && u.end <= 0x10_0000_0000
    ensures v !in live ==> forall u | u in live :: u != v
  {
    hide PageIn, LivePage;
    forall u | u in live && u != v
      ensures Apart(u, v) && u.end <= 0x10_0000_0000
    {
      LiveBounds(free, live, u);
      if v !in live {
        NotFree(free, live, u, if u.begin < v.begin then v.begin else u.begin);
      }
    }
  }

  lemma ElsewhereMapped(base: Memory, mem0: Memory, mem: Memory, root: nat, b: nat, e: nat, phys: nat)
    requires Elsewhere(base, mem0, root) && IOMAP_START <= b && e <= IOMAP_END
    requires Mapped(mem0, mem, root, b, e, phys) || Cleared(mem0, mem, root, b, e)
    ensures Elsewhere(base, mem, root)
  {
    hide Lookup, RangeMapping;
  }

  /** What the pages [b, e) were mapped to. */
  ghost function NewMaps(mem: Memory, root: nat, b: nat, len: nat, phys: nat): (maps: seq<Mapping>)
    ensures |maps| == len
    ensures forall i | 0 <= i < len :: maps[i] == RangeMapping(mem, root, b, b + len, phys, KERNEL_PAGE_FLAG, b + i)
  {
    seq(len, i requires 0 <= i < len => RangeMapping(mem, root, b, b + len, phys, KERNEL_PAGE_FLAG, b + i))
  }

  /** The start of the first free interval of at least len pages. */
  function FitBegin(free: seq<Interval>, len: nat): Option<nat>
  {
    if FirstFit(free, len) == |free| then None else Some(free[FirstFit(free, len)].begin)
  }

  /** The range of len pages from b on, not live before, is live. */
  ghost predicate HandedOut(live: Ranges, live': Ranges, b: nat, len: nat, mem: Memory, root: nat, phys: nat)
  {
    var v := Interval(b, b + len);
    v !in live && live' == live[v := NewMaps(mem, root, b, len, phys)]
  }

  lemma Handing(live: Ranges, b: nat, len: nat, mem: Memory, root: nat, phys: nat)
    requires Interval(b, b + len) !in live
    ensures HandedOut(live, live[Interval(b, b + len) := NewMaps(mem, root, b, len, phys)], b, len, mem, root, phys)
  {
  }

  lemma StillUsable(base: Memory, mem0: Memory, mem: Memory, root: nat)
    requires StayUsable(base, mem0, root)
    requires LinksKept(mem0, mem, root, KERNEL_PAGE_FLAG) || LinksGo(mem0, mem, root)
    ensures StayUsable(base, mem, root)
  {
    hide LinksUsable, LinksKept, LinksGo;
    if LinksUsable(base, root) {
      UsableKept(mem0, mem, root);
    }
  }

  lemma TakeLive(free: seq<Interval>, k: nat, live: Ranges, v: Interval, maps: seq<Mapping>)
    requires Canonical(free) && Partition(free, live) && k < |free| && v.begin == free[k].begin < v.end <= free[k].end
    ensures v !in live && Partition(Without(free, k, v.end - v.begin), live[v := maps])
    ensures IOMAP_START <= v.begin && v.end <= IOMAP_END
    ensures forall u | u in live :: u != v && Apart(u, v) && u.end <= 0x10_0000_0000
  {
    hide Partition, Canonical, PageIn, Without;
    CanonicalAt(free, k);
    TakesAll(free, k, v.end - v.begin);
    PartitionTake(free, Without(free, k, v.end - v.begin), live, v, maps);
    LiveApart(free, live, v);
  }

  lemma MapLive(base: Memory, mem0: Memory, mem: Memory, root: nat, live: Ranges, v: Interval, phys: nat)
    requires Elsewhere(base, mem0, root) && AllMapped(mem0, root, live)
    requires Mapped(mem0, mem, root, v.begin, v.end, phys)
    requires IOMAP_START <= v.begin <= v.end <= IOMAP_END
    requires forall u | u in live :: u != v && Apart(u, v) && u.end <= 0x10_0000_0000
    ensures Elsewhere(base, mem, root)
    ensures AllMapped(mem, root, live[v := NewMaps(mem0, root, v.begin, v.end - v.begin, phys)])
  {
    hide Mapped, AllMapped, Elsewhere;
    ElsewhereMapped(base, mem0, mem, root, v.begin, v.end, phys);
    MappedMore(mem0, mem, root, live, v, phys, NewMaps(mem0, root, v.begin, v.end - v.begin, phys));
  }

  // ---------- one request ----------

  /** A request to map the bytes of a device, or to give a range back. */
  datatype Request = Alloc(beginPhys: nat, endPhys: nat) | Free(v: Interval)

  /** The free intervals and the ranges held. */
  datatype Server = Server(free: seq<Interval>, held: set<Interval>)

  /** What one request makes of them; None for a panic.  A caller asks for some bytes, and gives back only what it
      holds; other requests are not made. */
  function Answer(s: Server, request: Request): Option<Server>
  {
    match request
    case Alloc(beginPhys, endPhys) =>
      if beginPhys >= endPhys then Some(s)
      else
        var len := PageCount(beginPhys, endPhys);
        var k := FirstFit(s.free, len);
        if k == |s.free| then None
        else
          var b := s.free[k].begin;
          Some(Server(Without(s.free, k, len), s.held + {Interval(b, b + len)}))
    case Free(v) =>
      if v !in s.held then Some(s)
      else
        var k := AboveIndex(s.free, v.begin);
        if k == |s.free| then None
        else if !JoinsNext(s.free, k, v.end) && !JoinsPrevious(s.free, k, v.begin) && |s.free| == 24 then None
        else Some(Server(With(s.free, k, v.begin, v.end), s.held - {v}))
  }

  lemma KeysMore(live: Ranges, v: Interval, maps: seq<Mapping>)
    ensures live[v := maps].Keys == live.Keys + {v}
  {
  }

  /** mmio_alloc_mapping in any state of a run: one more live range. */
  method AllocLive(m: Mappings, beginPhys: nat, endPhys: nat, ghost live: Ranges, ghost base: Memory)
    returns (begin: Option<nat>, ok: bool, ghost live': Ranges)
    requires Live(m, live, base) && beginPhys < endPhys
    modifies m.list, m.list.begins, m.list.ends, m.list.nexts, m.tables
    ensures m.Valid() && m.tables.Frames() == old(m.tables.Frames())
    ensures ok ==> Live(m, live', base)
    ensures begin == FitBegin(old(m.Intervals()), PageCount(beginPhys, endPhys))
    ensures ok <==> begin.Some? ==> old(m.tables.Enough(begin.value, begin.value + PageCount(beginPhys, endPhys)))
    ensures !ok ==> m.tables.pool == {}
    ensures begin.None? ==> ok && live' == live
    ensures begin.Some? ==>
              HandedOut(live, live', begin.value, PageCount(beginPhys, endPhys), old(m.tables.mem), m.tables.root,
                        beginPhys / 4096)
    ensures Answer(Server(old(m.Intervals()), live.Keys), Alloc(beginPhys, endPhys)) ==
            if begin.None? then None else Some(Server(m.Intervals(), live'.Keys))
  {
    hide StayUsable, LinksKept, RightsMapped;
    hide Tree, Lookup, PageTables.Frames, Chain, InUse, Canonical, PageIn, Without, FirstFit, Mapped, PageCount;
    hide Partition, AllMapped, Elsewhere, NewMaps, HandedOut, Mappings.Valid, Mappings.Intervals, PageTables.Enough;
    ghost var free, mem0, root := m.Intervals(), m.tables.mem, m.tables.root;
    ghost var len, phys := PageCount(beginPhys, endPhys), beginPhys / 4096;
    LenPositive(beginPhys, endPhys);
    begin, ok := m.AllocMapping(beginPhys, endPhys);
    live' := live;
    if begin.Some? {
      StillUsable(base, mem0, m.tables.mem, root);
    }
    if begin.None? {
      return;
    }
    ghost var v := Interval(begin.value, begin.value + len);
    TakeLive(free, FirstFit(free, len), live, v, NewMaps(mem0, root, v.begin, len, phys));
    live' := live[v := NewMaps(mem0, root, v.begin, len, phys)];
    Handing(live, v.begin, len, mem0, root, phys);
    KeysMore(live, v, live'[v]);
    if ok {
      MapLive(base, mem0, m.tables.mem, root, live, v, phys);
    }
  }

  lemma PagesBytes(b: nat, e: nat)
    requires b <= e
    ensures b * 4096 / 4096 == b && PageCount(b * 4096, e * 4096) == e - b
  {
  }

  lemma LiveFits(mem: Memory, root: nat, live: Ranges, v: Interval)
    requires AllMapped(mem, root, live) && v in live
    ensures forall w: nat | v.begin <= w < v.end :: Lookup(mem, root, w) != Unmapped
    ensures forall w: nat | v.begin <= w < v.end :: HugeWithin(mem, root, v.begin, v.end, w)
  {
    hide Lookup, HugeWithin;
    assert StillMapped(mem, root, v, live[v]);
    assert forall w: nat | v.begin <= w < v.end :: Inside(v, w);
  }

  lemma GiveLive(free: seq<Interval>, k: nat, live: Ranges, v: Interval)
    requires Canonical(free) && Partition(free, live) && v in live
    requires FirstAbove(free, k, v.begin) && FitsBefore(free, k, v.begin, v.end)
    ensures Partition(With(free, k, v.begin, v.end), live - {v})
    ensures forall p: nat :: PageIn(With(free, k, v.begin, v.end), p) <==> PageIn(free, p) || v.begin <= p < v.end
  {
    assert k < |free|;
    hide Partition, Canonical, PageIn, With, FirstAbove, FitsBefore;
    LiveBounds(free, live, v);
    GivesAll(free, k, v.begin, v.end);
    PartitionGive(free, With(free, k, v.begin, v.end), live, v);
  }

  lemma UnmapLive(base: Memory, mem0: Memory, mem: Memory, root: nat, free: seq<Interval>, live: Ranges, v: Interval)
    requires Partition(free, live) && v in live && Elsewhere(base, mem0, root) && AllMapped(mem0, root, live)
    requires Cleared(mem0, mem, root, v.begin, v.end)
    ensures Elsewhere(base, mem, root) && AllMapped(mem, root, live - {v})
  {
    hide Partition, PageIn, Elsewhere, AllMapped, Cleared;
    LiveBounds(free, live, v);
    LiveApart(free, live, v);
    ElsewhereMapped(base, mem0, mem, root, v.begin, v.end, 0);
    MappedLess(mem0, mem, root, live, v);
  }

  /** mmio_dealloc_mapping of a live range.  The two panics: no page above the range is free; or a 25th interval
      would be needed, since the pages beside the range are not free. */
  method FreeLive(m: Mappings, v: Interval, ghost live: Ranges, ghost base: Memory) returns (outcome: Outcome)
    requires Live(m, live, base) && v in live
    modifies m.list, m.list.begins, m.list.ends, m.list.nexts, m.tables
    ensures m.Valid() && m.tables.Frames() == old(m.tables.Frames())
    ensures Live(m, if outcome == Done then live - {v} else live, base) && outcome != NotMapped
    ensures Answer(Server(old(m.Intervals()), live.Keys), Free(v)) ==
            if outcome == Done then Some(Server(m.Intervals(), (live - {v}).Keys)) else None
    ensures var free := old(m.Intervals());
            && (outcome == InvalidAddress <==> forall p: nat | PageIn(free, p) :: p < v.begin)
            && (outcome == TooFragmented <==>
                  && !(forall p: nat | PageIn(free, p) :: p < v.begin)
                  && |free| == 24 && !PageIn(free, v.end) && v.begin > 0 && !PageIn(free, v.begin - 1))
            && (outcome == Done ==>
                  forall p: nat :: PageIn(m.Intervals(), p) <==> PageIn(free, p) || v.begin <= p < v.end)
  {
    hide StayUsable, LinksGo;
    hide Tree, Lookup, PageTables.Frames, HugeWithin, Chain, InUse, Canonical, PageIn, With, AboveIndex, FitsBefore;
    hide JoinsNext, JoinsPrevious, Cleared, PageCount, Partition, AllMapped, Elsewhere, Passes, UnmapEnd;
    ghost var free, mem0, root := m.Intervals(), m.tables.mem, m.tables.root;
    ghost var k := AboveIndex(free, v.begin);
    LiveBounds(free, live, v);
    LiveFits(mem0, root, live, v);
    PagesBytes(v.begin, v.end);
    NoneAbove(free, live, v);
    if k < |free| {
      Neighbours(free, live, v, k);
    }
    MappedPasses(mem0, root, m.tables.plan, v.begin, v.end);
    ghost var stop;
    outcome, stop := m.DeallocMapping(v.begin * 4096, v.end * 4096);
    StillUsable(base, mem0, m.tables.mem, root);
    if outcome == Done {
      GiveLive(free, k, live, v);
      UnmapLive(base, mem0, m.tables.mem, root, free, live, v);
    }
  }

  /** The last page is free, and few ranges are live: no range's return can panic. */
  ghost predicate Calm(free: seq<Interval>, live: Ranges)
  {
    PageIn(free, IOMAP_END - 1) && |live| <= 23
  }

  lemma NotAbove(free: seq<Interval>, v: Interval)
    requires v.begin < v.end <= IOMAP_END
    ensures PageIn(free, IOMAP_END - 1) ==> !(forall p: nat | PageIn(free, p) :: p < v.begin)
  {
    hide PageIn;
  }

  lemma KeysLess(live: Ranges, v: Interval)
    requires v in live
    ensures (live - {v}).Keys == live.Keys - {v} && |live - {v}| == |live| - 1
  {
    assert |live| == |live.Keys| && |live - {v}| == |(live - {v}).Keys|;
    assert (live - {v}).Keys == live.Keys - {v};
  }

  method FreeOne(m: Mappings, v: Interval, ghost live: Ranges, ghost base: Memory) returns (done: bool)
    requires Live(m, live, base) && v in live
    modifies m.list, m.list.begins, m.list.ends, m.list.nexts, m.tables
    ensures m.Valid() && m.tables.Frames() == old(m.tables.Frames())
    ensures done ==> Live(m, live - {v}, base)
    ensures Calm(old(m.Intervals()), live) ==> done && Calm(m.Intervals(), live - {v})
  {
    hide StayUsable;
    hide Tree, Lookup, PageTables.Frames, HugeWithin, Chain, InUse, Canonical, PageIn, Partition, AllMapped, Elsewhere;
    ghost var free := m.Intervals();
    LiveBounds(free, live, v);
    if !PageIn(free, v.begin - 1) {
      FewIntervals(free, live, v);
    }
    NotAbove(free, v);
    KeysLess(live, v);
    var outcome := FreeLive(m, v, live, base);
    done := outcome == Done;
  }

  /** The ranges of the list are the live ones, each once. */
  ghost predicate Lists(order: seq<Interval>, live: Ranges)
  {
    (set v | v in order) == live.Keys && forall i, j | 0 <= i < j < |order| :: order[i] != order[j]
  }

  lemma NoKeys(live: Ranges)
    requires live.Keys == {}
    ensures live == map[]
  {
  }

  lemma ListsRest(order: seq<Interval>, live: Ranges)
    requires Lists(order, live)
    ensures if order == [] then live == map[] else order[0] in live && Lists(order[1..], live - {order[0]})
  {
    if order == [] {
      NoKeys(live);
    } else {
      assert (set v | v in order) == (set v | v in order[1..]) + {order[0]};
      assert (set v | v in order[1..]) == (live - {order[0]}).Keys;
    }
  }

  lemma BaseRestored(base: Memory, mem: Memory, root: nat, free: seq<Interval>)
    requires Elsewhere(base, mem, root) && free == [Interval(IOMAP_START, IOMAP_END)]
    requires forall p: nat | PageIn(free, p) :: Lookup(mem, root, p) == Unmapped
    ensures SameLookups(base, mem, root)
  {
    hide Lookup;
    forall w: nat | w < 0x10_0000_0000
      ensures Lookup(mem, root, w) == Lookup(base, root, w)
    {
      assert IOMAP_START <= w < IOMAP_END ==> Inside(free[0], w);
    }
  }

  /** Giving back all live ranges, in whatever order, restores the free list and every translation, unless it
      panics; which cannot be when the last page is free and at most 23 ranges are live. */
  method FreeAll(m: Mappings, order: seq<Interval>, ghost live: Ranges, ghost base: Memory) returns (ok: bool)
    requires Live(m, live, base) && Lists(order, live)
    modifies m.list, m.list.begins, m.list.ends, m.list.nexts, m.tables
    ensures m.Valid() && m.tables.Frames() == old(m.tables.Frames())
    ensures ok ==> m.Intervals() == [Interval(IOMAP_START, IOMAP_END)]
    ensures ok ==> SameLookups(base, m.tables.mem, m.tables.root)
    ensures Calm(old(m.Intervals()), live) ==> ok
    decreases |order|
  {
    hide StayUsable;
    hide Tree, Lookup, PageTables.Frames, HugeWithin, Chain, InUse, Canonical, PageIn, Partition, AllMapped;
    hide Elsewhere, SameLookups, Calm;
    hide Lists;
    ListsRest(order, live);
    if order == [] {
      NothingLive(m.Intervals());
      BaseRestored(base, m.tables.mem, m.tables.root, m.Intervals());
      return true;
    }
    var done := FreeOne(m, order[0], live, base);
    if !done {
      return false;
    }
    ok := FreeAll(m, order[1..], live - {order[0]}, base);
  }

  /** After mmio_freelist_init nothing is live. */
  lemma NothingLiveYet(m: Mappings)
    requires m.Valid() && m.Intervals() == [Interval(IOMAP_START, IOMAP_END)]
    ensures Live(m, map[], m.tables.mem)
  {
    hide Tree, Lookup, PageTables.Frames, Chain, InUse, Canonical;
    AllFree();
    forall w: nat | IOMAP_START <= w < IOMAP_END
      ensures Lookup(m.tables.mem, m.tables.root, w) == Unmapped
    {
      assert Inside(m.Intervals()[0], w);
    }
  }

  // ---------- whole runs ----------

  /** Every page handed out and not yet given back may be read and written. */
  ghost predicate AllUsable(mem: Memory, root: nat, live: Ranges)
  {
    forall v, w: nat {:trigger v in live, Usable(mem, root, w)} | v in live && Inside(v, w) :: Usable(mem, root, w)
  }

  lemma LiveUsable(m: Mappings, live: Ranges, base: Memory)
    requires Live(m, live, base) && LinksUsable(base, m.tables.root)
    ensures AllUsable(m.tables.mem, m.tables.root, live)
  {
    hide Mappings.Valid, Mappings.Intervals, LinksUsable, Lookup, HugeWithin, Partition, PageIn;
    forall v, w: nat | v in live && Inside(v, w)
      ensures Usable(m.tables.mem, m.tables.root, w)
    {
      LiveBounds(m.Intervals(), live, v);
      assert StillMapped(m.tables.mem, m.tables.root, v, live[v]);
      UsableHere(m.tables.mem, m.tables.root, w);
    }
  }

  /** From the free intervals and the held ranges before all requests to those after; None when one of them is a
      panic. */
  function Answers(s: Server, requests: seq<Request>): Option<Server>
  {
    if requests == [] then Some(s)
    else
      match Answers(s, requests[..|requests| - 1])
      case None => None
      case Some(before) => Answer(before, requests[|requests| - 1])
  }

  lemma AnswersLast(s: Server, requests: seq<Request>)
    requires requests != []
    ensures var before := Answers(s, requests[..|requests| - 1]);
            Answers(s, requests) ==
            if before.None? then None else Answer(before.value, requests[|requests| - 1])
  {
  }

  function StartServer(): Server
  {
    Server([Interval(IOMAP_START, IOMAP_END)], {})
  }

  lemma ListsMore(held: seq<Interval>, live: Ranges, v: Interval, maps: seq<Mapping>)
    requires Lists(held, live) && v !in live
    ensures Lists(held + [v], live[v := maps])
  {
    assert forall u :: u in held + [v] <==> u in held || u == v;
    assert (set u | u in held + [v]) == (set u | u in held) + {v};
    assert live[v := maps].Keys == live.Keys + {v};
    assert forall i | 0 <= i < |held| :: held[i] in (set u | u in held);
  }

  lemma RestOf(held: seq<Interval>, j: nat)
    requires j < |held| && forall i, k | 0 <= i < k < |held| :: held[i] != held[k]
    ensures var rest := held[..j] + held[j + 1..];
            && (forall u :: u in rest <==> u in held && u != held[j])
            && forall i, k | 0 <= i < k < |rest| :: rest[i] != rest[k]
  {
    var rest := held[..j] + held[j + 1..];
    forall u
      ensures u in rest <==> u in held && u != held[j]
    {
      if u in held && u != held[j] {
        var i :| 0 <= i < |held| && held[i] == u;
        assert rest[if i < j then i else i - 1] == u;
      }
    }
  }

  lemma ListsLess(held: seq<Interval>, live: Ranges, j: nat)
    requires Lists(held, live) && j < |held|
    ensures Lists(held[..j] + held[j + 1..], live - {held[j]}) && held[j] in live
  {
    var rest := held[..j] + held[j + 1..];
    assert held[j] in (set u | u in held);
    RestOf(held, j);
    assert (set u | u in rest) == (set u | u in held) - {held[j]};
    assert (live - {held[j]}).Keys == live.Keys - {held[j]};
  }

  /** The place of a range in a list, if it is there. */
  method PlaceIn(held: seq<Interval>, v: Interval) returns (j: nat)
    ensures j <= |held| && (j < |held| ==> held[j] == v) && (j == |held| <==> v !in held)
  {
    j := 0;
    while j < |held| && held[j] != v
      invariant j <= |held| && v !in held[..j]
    {
      j := j + 1;
    }
  }

  lemma IsHeld(held: seq<Interval>, live: Ranges, v: Interval)
    requires Lists(held, live)
    ensures v in held <==> v in live
  {
    assert v in held <==> v in (set u | u in held);
  }

  /** One request: not ok for a panic, or for a fault for want of frames. */
  method RunOne(m: Mappings, request: Request, held: seq<Interval>, ghost live: Ranges, ghost base: Memory)
    returns (held': seq<Interval>, ok: bool, ghost live': Ranges)
    requires Live(m, live, base) && Lists(held, live)
    modifies m.list, m.list.begins, m.list.ends, m.list.nexts, m.tables
    ensures m.Valid() && m.tables.Frames() == old(m.tables.Frames())
    ensures var answer := Answer(Server(old(m.Intervals()), live.Keys), request);
            if ok then
              && Live(m, live', base) && Lists(held', live')
              && answer == Some(Server(m.Intervals(), live'.Keys))
            else answer == None || (request.Alloc? && m.tables.pool == {})
  {
    hide StayUsable;
    hide Tree, Lookup, PageTables.Frames, HugeWithin, Chain, InUse, Canonical, PageIn, Partition, AllMapped;
    hide Elsewhere, PageCount, FirstFit, NewMaps, Lists, PageTables.Enough, Mappings.Valid, Mappings.Intervals;
    held', ok, live' := held, true, live;
    match request
    case Alloc(b, e) =>
      if b < e {
        var len := PageCount(b, e);
        var begin;
        begin, ok, live' := AllocLive(m, b, e, live, base);
        if begin.None? {
          ok := false;
        } else {
          var v := Interval(begin.value, begin.value + len);
          ListsMore(held, live, v, live'[v]);
          held' := held + [v];
        }
      }
    case Free(v) =>
      var j := PlaceIn(held, v);
      IsHeld(held, live, v);
      if j < |held| {
        ListsLess(held, live, j);
        var outcome := FreeLive(m, v, live, base);
        ok := outcome == Done;
        if ok {
          held', live' := held[..j] + held[j + 1..], live - {v};
        }
      }
  }

  lemma AnyUsable(m: Mappings, live: Ranges, base: Memory)
    requires Live(m, live, base)
    ensures LinksUsable(base, m.tables.root) ==> AllUsable(m.tables.mem, m.tables.root, live)
  {
    hide LinksUsable, Live, AllUsable;
    if LinksUsable(base, m.tables.root) {
      LiveUsable(m, live, base);
    }
  }

  lemma NothingListed()
    ensures Lists([], map[])
    ensures Answers(StartServer(), []) == Some(Server([Interval(IOMAP_START, IOMAP_END)], {}))
  {
  }

  /** The first `done` requests can be answered, and the one after them is a panic, or an allocation that leaves no
      frame. */
  ghost predicate StopsAt(requests: seq<Request>, done: nat, frames: set<nat>)
  {
    && done < |requests| && Answers(StartServer(), requests[..done]).Some?
    && var before := Answers(StartServer(), requests[..done]).value;
       Answer(before, requests[done]) == None || (requests[done].Alloc? && frames == {})
  }

  lemma StopsEarlier(requests: seq<Request>, n: nat, done: nat, frames: set<nat>)
    requires n <= |requests| && StopsAt(requests[..n], done, frames)
    ensures StopsAt(requests, done, frames)
  {
    hide Answers, Answer;
    assert requests[..n][..done] == requests[..done] && requests[..n][done] == requests[done];
  }

  lemma StopsLast(requests: seq<Request>, before: Server, frames: set<nat>)
    requires requests != [] && Answers(StartServer(), requests[..|requests| - 1]) == Some(before)
    requires Answer(before, requests[|requests| - 1]) == None || (requests[|requests| - 1].Alloc? && frames == {})
    ensures StopsAt(requests, |requests| - 1, frames)
  {
    hide Answers, Answer;
  }

  /** Any sequence of requests, up to the first panic or fault.  It goes through, with the free intervals and the
      held ranges that the requests add up to, or stops at a request that is a panic or finds no frame left. */
  method Run(m: Mappings, requests: seq<Request>)
    returns (held: seq<Interval>, ok: bool, ghost live: Ranges, ghost done: nat)
    requires m.Valid() && m.Intervals() == [Interval(IOMAP_START, IOMAP_END)]
    modifies m.list, m.list.begins, m.list.ends, m.list.nexts, m.tables
    ensures m.Valid() && m.tables.Frames() == old(m.tables.Frames())
    ensures if ok then
              && Live(m, live, old(m.tables.mem)) && Lists(held, live)
              && Answers(StartServer(), requests) == Some(Server(m.Intervals(), live.Keys))
              && (LinksUsable(old(m.tables.mem), m.tables.root) ==> AllUsable(m.tables.mem, m.tables.root, live))
            else StopsAt(requests, done, m.tables.pool)
    decreases |requests|
  {
    hide Tree, Lookup, PageTables.Frames, HugeWithin, Chain, InUse, Canonical, PageIn, Partition, AllMapped;
    hide Elsewhere, PageCount, FirstFit, NewMaps, Lists, Answer, Answers, Mappings.Valid, Mappings.Intervals, Live;
    hide StopsAt, LinksUsable, AllUsable;
    if requests == [] {
      held, ok, live, done := [], true, map[], 0;
      NothingListed();
      assert live.Keys == {};
      NothingLiveYet(m);
      AnyUsable(m, live, m.tables.mem);
      return;
    }
    AnswersLast(StartServer(), requests);
    ghost var base, n := m.tables.mem, |requests| - 1;
    held, ok, live, done := Run(m, requests[..|requests| - 1]);
    if !ok {
      StopsEarlier(requests, n, done, m.tables.pool);
      return;
    }
    ghost var before := Server(m.Intervals(), live.Keys);
    held, ok, live := RunOne(m, requests[|requests| - 1], held, live, base);
    done := n;
    if ok {
      AnyUsable(m, live, base);
    } else {
      StopsLast(requests, before, m.tables.pool);
    }
  }
}
