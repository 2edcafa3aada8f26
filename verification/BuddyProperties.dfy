/** What follows for the buddy allocator from the bitmaps being a canonical encoding: conservation, round
    trips, order independence, and exactly which deallocations give back what they were asked to. */
module BuddyProperties {
  import opened Powers
  import opened Blocks
  import opened BuddyBitmaps
  import opened Buddy
  import opened Pigeonhole
  import opened Rounding

  // ---------- the marked blocks tile the free units ----------

  lemma OnlyOneMaximal(free: set<nat>, u: nat, k: nat, l: nat)
    requires k < l && Whole(free, l, Up(u, l))
    ensures !Canonical(free, k, Up(u, k))
  {
    UpCompose(u, k, l - k);
    UpCompose(Up(u, k), 1, l - k - 1);
    InsideAncestor(k + 1, Up(u, k) / 2, l - k - 1);
  }

  /** Every free unit lies in exactly one marked block. */
  lemma FreeUnitInOneBlock(n: nat, free: set<nat>, u: nat, k: nat, l: nat)
    requires free <= AllUnits(n)
    requires Canonical(free, k, Up(u, k)) && Canonical(free, l, Up(u, l))
    ensures k == l
  {
    if k < l {
      OnlyOneMaximal(free, u, k, l);
    } else if l < k {
      OnlyOneMaximal(free, u, l, k);
    }
  }

  /** Right after initialisation the marked blocks follow the binary expansion of n: bit k of n being set
      gives the block of level k that ends at the k-th truncation of n. */
  lemma InitialTiling(n: nat, k: nat, u: nat)
    ensures Canonical(AllUnits(n), k, Up(u, k)) <==>
              Up(n, k) % 2 == 1 && Leftmost(Up(n, k) - 1, k) <= u < Leftmost(Up(n, k), k)
  {
    hide Canonical, Leftmost, AllUnits, Units;
    InitialMarks(n, k, Up(u, k));
    if Up(n, k) > 0 {
      UnitsUp(k, Up(n, k) - 1, u);
      UnitsRange(k, Up(n, k) - 1, u);
    }
  }

  /** used + BUDDY_UNIT * (sum of count * 2^level) == BUDDY_UNIT * units, in every valid state. */
  lemma Conservation(b: BuddyBlocks)
    requires b.Valid()
    ensures b.used + 4096 * MarkedUnits(b.bitmaps[..]) == 4096 * b.units
  {
    CountsConserve(b.units, b.bits[..], b.bitmaps[..], b.free);
    SubsetSize(b.free, AllUnits(b.units));
  }

  /** Two valid allocators of the same size with the same free units hold the same bytes and counts. */
  lemma StateIsFunctionOfFreeSet(a: BuddyBlocks, b: BuddyBlocks)
    requires a.Valid() && b.Valid() && a.units == b.units
    ensures a.free == b.free <==> a.bits[..] == b.bits[..]
    ensures a.free == b.free ==> a.bitmaps[..] == b.bitmaps[..] && a.used == b.used
  {
    if a.free == b.free {
      EncodingUnique(a.units, a.bits[..], a.bitmaps[..], b.bits[..], b.bitmaps[..], a.free);
    }
    if a.bits[..] == b.bits[..] {
      FreeSetUnique(a.units, a.bits[..], a.free, b.free);
    }
  }

  // ---------- allocation, then deallocation ----------

  lemma PageAlignedCover(begin: nat, offset: nat, len: nat)
    requires begin % 4096 == 0 && offset % 4096 == 0
    ensures CoveredUnits(begin + offset, len) == DivCeil(len, 4096)
    ensures (begin + offset - begin) / 4096 == offset / 4096
  {
    assert (begin + offset) % 4096 == 0;
  }

  lemma {:induction false} OffsetUnits(k: nat, i: nat)
    ensures Offset(k, i) % 4096 == 0
    ensures Up(Offset(k, i) / 4096, k) == i
  {
    if k == 0 {
    } else {
      OffsetUnits(k - 1, 2 * i);
      UpLast(Offset(k, i) / 4096, k);
    }
  }

  /** Any length of the same fitting level, given with the block's address, names the block. */
  lemma NamesBlock(b: BuddyBlocks, k: nat, i: nat, len: nat)
    requires b.Layout() && b.Aligned() && len > 0 && FitLen(len) == k
    ensures b.FreedLevel(b.BlockAddr(k, i), len) == k
    ensures b.FreedIndex(b.BlockAddr(k, i), len) == i
  {
    var begin, offset := b.DataAddr(), Offset(k, i);
    b.AlignedEnd();
    OffsetUnits(k, i);
    PageAlignedCover(begin, offset, len);
    assert b.BlockAddr(k, i) == begin + offset;
  }

  /** A block of level k within the area ends inside it, and its level exists. */
  lemma BlockInArea(b: BuddyBlocks, k: nat, i: nat)
    requires b.Layout() && b.Aligned() && Units(k, i) <= AllUnits(b.units)
    ensures b.BlockAddr(k, i) + 4096 * Pow2(k) <= b.startAddr + b.totalLen
    ensures k < b.levels
  {
    b.AlignedEnd();
    OffsetInArea(b.units, k, i);
    InRange(b.units, k, i);
    LevelsNonEmpty(b.units, k);
  }

  /** Freeing block (k, i) by its address, with any length that fits its level and no smaller one. */
  method FreeByAddress(b: BuddyBlocks, addr: nat, len: nat, ghost k: nat, ghost i: nat)
    requires b.Valid() && b.Aligned() && len > 0 && FitLen(len) == k < INT_LEVELS
    requires addr == b.BlockAddr(k, i)
    requires Units(k, i) <= AllUnits(b.units) - b.free
    modifies b`free, b`used, b.bits, b.bitmaps
    ensures b.Valid()
    ensures b.free == old(b.free) + Units(k, i)
  {
    NamesBlock(b, k, i, len);
    BlockInArea(b, k, i);
    FitLenBounds(len);
    b.Dealloc(addr, len);
  }

  /** No address goes wrong: above the levels whose block size is an int, only a first block is marked. */
  ghost predicate AddressesRight(free: set<nat>)
  {
    forall l: nat, i: nat | Canonical(free, l, i) :: l < INT_LEVELS || i == 0
  }

  /** So it is in every area of up to 20 levels, which is less than 4 GiB. */
  lemma SmallAreaRight(n: nat, free: set<nat>)
    requires free <= AllUnits(n) && Levels(n) <= 20
    ensures AddressesRight(free)
  {
    hide Levels, Up, AllUnits, Units;
    forall l: nat, i: nat | Canonical(free, l, i)
      ensures l < INT_LEVELS || i == 0
    {
      InRange(n, l, i);
      LevelsNonEmpty(n, l);
      LevelsNonEmpty(n, 20);
      UpLast(n, 20);
    }
  }

  lemma {:induction false} UpOfLeftmost(i: nat, k: nat, l: nat)
    requires l <= k
    ensures Up(Leftmost(i, k), l) == Leftmost(i, k - l)
    decreases l
  {
    if l == 0 {
    } else {
      UpOfLeftmost(i, k, l - 1);
      UpLast(Leftmost(i, k), l);
    }
  }

  lemma DoubleEven(x: nat)
    ensures 2 * x % 2 == 0
  {
  }

  lemma {:induction false} OddOrEven(d: nat)
    ensures d == 0 ==> Leftmost(3, d) == 3
    ensures d > 0 ==> Leftmost(3, d) % 2 == 0
  {
    if d > 0 {
      DoubleEven(Leftmost(3, d - 1));
    }
  }

  /** An area where it goes wrong from the start: of 6 GiB, all free, even the first page is cut from the
      odd block at the end, of 2 GiB, whose address comes out as 8 GiB less. */
  lemma FirstPageAstray(begin: nat)
    requires 0x2_0000_0000 <= begin && begin + 4096 * 0x18_0000 < 0x1_0000_0000_0000_0000
    ensures AllocLevel(1) == 0 && ChosenBlock(AllUnits(0x18_0000), 0, 19, 2)
    ensures SliceAddr(begin, 19, 2) == begin + Offset(19, 2) - 0x2_0000_0000
  {
    hide Offset, AllUnits, Canonical, IntUnit, Pow2, Leftmost, Up;
    var n := 0x18_0000;
    Pow2Of19();
    LeftmostProduct(3, 19);
    forall l: nat, i: nat | l <= 19
      ensures Canonical(AllUnits(n), l, i) <==> l == 19 && i == 2
    {
      UpOfLeftmost(3, 19, l);
      InitialMarks(n, l, i);
      OddOrEven(19 - l);
    }
    OffsetProduct(19, 2);
    IntUnitIs(19);
    SliceAddrIs(begin, 19, 2);
    WrapSame(begin - 0x1_0000_0000);
  }

  lemma TookRight(b: BuddyBlocks, free0: set<nat>, k: nat, level: nat, top: nat, block: nat)
    requires b.Took(free0, k, level, top, block) && AddressesRight(free0)
    ensures level < INT_LEVELS || top == 0
    ensures Units(k, block) <= free0 && b.free == free0 - Units(k, block)
  {
  }

  /** Allocation where no address goes wrong. */
  method AllocRight(b: BuddyBlocks, len: nat) returns (ptr: nat, length: nat, ghost block: nat)
    requires b.Valid() && b.levels <= INT_BITS && AddressesRight(b.free)
    requires 0 < len <= MAX_LEN || 0xffff_ffff_ffff_f000 < len < 0x1_0000_0000_0000_0000
    requires AllocLevel(len) < INT_LEVELS || NoWhole(b.free, AllocLevel(len))
    modifies b`free, b`used, b.bits, b.bitmaps
    ensures b.Valid() && (ptr == 0 <==> NoWhole(old(b.free), AllocLevel(len)))
    ensures ptr == 0 ==> b.free == old(b.free)
    ensures ptr != 0 ==>
              && AllocLevel(len) < INT_LEVELS
              && ptr == b.BlockAddr(AllocLevel(len), block) && length == 4096 * Pow2(AllocLevel(len))
              && Units(AllocLevel(len), block) <= old(b.free)
              && b.free == old(b.free) - Units(AllocLevel(len), block)
  {
    hide BuddyBlocks.Slice, BuddyBlocks.Took, AllocLevel, Units, AllUnits, NoWhole, AddressesRight, Encodes, Levels;
    ghost var free, k := b.free, AllocLevel(len);
    ghost var level, top;
    ptr, length, block, level, top := b.AllocSlice(len);
    if !NoWhole(free, k) {
      b.SliceBounds(k, level, top, block, ptr, length);
      TookRight(b, free, k, level, top, block);
    }
  }

  lemma FitOfWholeBlock(k: nat)
    ensures FitLen(4096 * Pow2(k)) == k
  {
    assert DivCeil(4096 * Pow2(k), 4096) == Pow2(k);
    FitUnique(Pow2(k), k);
  }

  /** Allocating and then deallocating, with the requested length or with the one returned, restores every byte,
      count and `used`, where the address that allocation computes is right and the block's size is an int. */
  method AllocThenDealloc(b: BuddyBlocks, len: nat, returned: bool)
    requires b.Valid() && b.Aligned() && b.levels <= INT_BITS && AddressesRight(b.free)
    requires 0 < len <= MAX_LEN || (returned && 0xffff_ffff_ffff_f000 < len < 0x1_0000_0000_0000_0000)
    requires AllocLevel(len) < INT_LEVELS || NoWhole(b.free, AllocLevel(len))
    modifies b`free, b`used, b.bits, b.bitmaps
    ensures b.Valid() && b.free == old(b.free)
    ensures b.bits[..] == old(b.bits[..]) && b.bitmaps[..] == old(b.bitmaps[..]) && b.used == old(b.used)
  {
    hide NoWhole, AddressesRight, Units, AllUnits, Encodes, Levels;
    ghost var free, bits, maps := b.free, b.bits[..], b.bitmaps[..];
    b.ArraysFit();
    var ptr, length, block := AllocRight(b, len);
    if ptr != 0 {
      FitOfWholeBlock(AllocLevel(len));
      FreeByAddress(b, ptr, if returned then length else len, AllocLevel(len), block);
      assert b.free == free;
    }
    EncodingUnique(b.units, bits, maps, b.bits[..], b.bitmaps[..], free);
  }

  // ---------- order independence ----------

  datatype Block = Block(level: nat, index: nat)

  function UnitsOf(blocks: seq<Block>): set<nat>
  {
    if blocks == [] then {} else Units(blocks[0].level, blocks[0].index) + UnitsOf(blocks[1..])
  }

  /** No two of the blocks share a unit. */
  ghost predicate Disjoint(blocks: seq<Block>)
  {
    blocks == [] || (Units(blocks[0].level, blocks[0].index) !! UnitsOf(blocks[1..]) && Disjoint(blocks[1..]))
  }

  /** The live blocks: disjoint, and making up exactly the units that are not free. */
  ghost predicate Live(b: BuddyBlocks, blocks: seq<Block>)
    reads b
  {
    Disjoint(blocks) && UnitsOf(blocks) == AllUnits(b.units) - b.free
  }

  lemma LiveAfterAlloc(all: set<nat>, free: set<nat>, blocks: seq<Block>, block: Block)
    requires Disjoint(blocks) && UnitsOf(blocks) == all - free
    requires Units(block.level, block.index) <= free <= all
    ensures ([block] + blocks)[1..] == blocks
    ensures Disjoint([block] + blocks)
    ensures UnitsOf([block] + blocks) == all - (free - Units(block.level, block.index))
  {
    assert ([block] + blocks)[1..] == blocks;
  }

  lemma LiveIs(b: BuddyBlocks, blocks: seq<Block>)
    requires Live(b, blocks)
    ensures Disjoint(blocks) && UnitsOf(blocks) == AllUnits(b.units) - b.free
  {
  }

  lemma LiveTook(b: BuddyBlocks, free0: set<nat>, blocks: seq<Block>, k: nat, level: nat, top: nat, block: nat)
    requires Disjoint(blocks) && UnitsOf(blocks) == AllUnits(b.units) - free0 && free0 <= AllUnits(b.units)
    requires b.Took(free0, k, level, top, block)
    ensures Live(b, [Block(k, block)] + blocks) && ([Block(k, block)] + blocks)[1..] == blocks
    ensures ChosenBlock(free0, k, level, top)
  {
    hide ChosenBlock, Leftmost;
    LiveAfterAlloc(AllUnits(b.units), free0, blocks, Block(k, block));
  }

  /** An allocation adds one block to the live ones. */
  method AllocKeepsLive(b: BuddyBlocks, len: nat, ghost blocks: seq<Block>)
    returns (ptr: nat, ghost blocks': seq<Block>, ghost level: nat, ghost top: nat)
    requires b.State() && b.levels <= INT_BITS && b.used < 0x1_0000_0000_0000_0000 && Live(b, blocks)
    requires 0 < len <= MAX_LEN || 0xffff_ffff_ffff_f000 < len < 0x1_0000_0000_0000_0000
    modifies b`free, b`used, b.bits, b.bitmaps
    ensures b.State() && Live(b, blocks') && (old(b.Valid()) && AllocLevel(len) < 20 ==> b.Valid())
    ensures if NoWhole(old(b.free), AllocLevel(len)) then blocks' == blocks && ptr == 0
            else
              && |blocks'| == |blocks| + 1 && blocks'[1..] == blocks && blocks'[0].level == AllocLevel(len)
              && ChosenBlock(old(b.free), AllocLevel(len), level, top)
              && (ptr == b.BlockAddr(blocks'[0].level, blocks'[0].index) <==> level < INT_LEVELS || top == 0)
  {
    hide Encodes, NoWhole, ChosenBlock, Live, BuddyBlocks.State, BuddyBlocks.Slice, BuddyBlocks.Took, AllocLevel;
    hide Disjoint, UnitsOf, AllUnits, Units;
    LiveIs(b, blocks);
    b.ArraysFit();
    var p, length, block, l, t := b.AllocSlice(len);
    ptr, level, top := p, l, t;
    ghost var k := AllocLevel(len);
    blocks' := if NoWhole(old(b.free), k) then blocks else [Block(k, block)] + blocks;
    if !NoWhole(old(b.free), k) {
      b.SliceBounds(k, l, t, block, p, length);
      LiveTook(b, old(b.free), blocks, k, l, t, block);
    }
  }

  lemma WithoutOne(blocks: seq<Block>, j: nat)
    requires j < |blocks|
    ensures multiset(blocks[..j] + blocks[j + 1..]) == multiset(blocks) - multiset{blocks[j]}
  {
    assert blocks == blocks[..j] + [blocks[j]] + blocks[j + 1..];
  }

  lemma {:induction false} MoveToFront(blocks: seq<Block>, j: nat)
    requires j < |blocks|
    ensures var rest := blocks[..j] + blocks[j + 1..];
            && UnitsOf(blocks) == Units(blocks[j].level, blocks[j].index) + UnitsOf(rest)
            && (Disjoint(blocks) ==> Units(blocks[j].level, blocks[j].index) !! UnitsOf(rest) && Disjoint(rest))
  {
    var rest := blocks[..j] + blocks[j + 1..];
    if j == 0 {
      assert rest == blocks[1..];
    } else {
      MoveToFront(blocks[1..], j - 1);
      assert rest[0] == blocks[0] && rest[1..] == blocks[1..][..j - 1] + blocks[1..][j..];
    }
  }

  lemma FirstApart(order: seq<Block>)
    requires order != []
    ensures multiset(order[1..]) == multiset(order) - multiset{order[0]}
  {
    assert order == [order[0]] + order[1..];
  }

  lemma WithoutFirst(blocks: seq<Block>, order: seq<Block>) returns (j: nat)
    requires multiset(order) == multiset(blocks) && order != []
    ensures j < |blocks| && blocks[j] == order[0]
    ensures multiset(order[1..]) == multiset(blocks[..j] + blocks[j + 1..])
  {
    assert order[0] in multiset(order);
    j :| j < |blocks| && blocks[j] == order[0];
    WithoutOne(blocks, j);
    FirstApart(order);
  }

  lemma DisjointFront(blocks: seq<Block>)
    requires blocks != []
    ensures Disjoint(blocks) <==>
              Disjoint(blocks[1..]) && Units(blocks[0].level, blocks[0].index) !! UnitsOf(blocks[1..])
  {
  }

  lemma {:induction false} SameUnitsInAnyOrder(blocks: seq<Block>, order: seq<Block>)
    requires multiset(order) == multiset(blocks)
    ensures UnitsOf(order) == UnitsOf(blocks)
    ensures Disjoint(blocks) ==> Disjoint(order)
  {
    if order == [] {
      assert |multiset(blocks)| == 0;
    } else {
      hide Units, UnitsOf, Disjoint;
      var j := WithoutFirst(blocks, order);
      MoveToFront(blocks, j);
      MoveToFront(order, 0);
      assert order[..0] + order[1..] == order[1..];
      SameUnitsInAnyOrder(blocks[..j] + blocks[j + 1..], order[1..]);
      DisjointFront(order);
    }
  }

  /** The listing order of the live blocks does not matter. */
  lemma {:induction false} LiveInAnyOrder(b: BuddyBlocks, blocks: seq<Block>, order: seq<Block>)
    requires Live(b, blocks) && multiset(order) == multiset(blocks)
    ensures Live(b, order)
  {
    SameUnitsInAnyOrder(blocks, order);
  }

  /** b is as buddy_init left it: byte for byte, since nothing else encodes the all-free set. */
  ghost predicate AsInitialised(b: BuddyBlocks)
    reads b, b.bits, b.bitmaps
  {
    && b.Valid() && b.free == AllUnits(b.units) && b.used == 0
    && forall bytes, maps | Encodes(b.units, bytes, maps, AllUnits(b.units)) ::
         b.bits[..] == bytes && b.bitmaps[..] == maps
  }

  lemma AllFreeIsInitial(b: BuddyBlocks)
    requires b.Valid() && b.free == AllUnits(b.units)
    ensures AsInitialised(b)
  {
    forall bytes, maps | Encodes(b.units, bytes, maps, AllUnits(b.units))
      ensures b.bits[..] == bytes && b.bitmaps[..] == maps
    {
      EncodingUnique(b.units, b.bits[..], b.bitmaps[..], bytes, maps, b.free);
    }
  }

  method FreeOneLive(b: BuddyBlocks, blocks: seq<Block>)
    requires b.Valid() && b.Aligned() && Live(b, blocks) && blocks != [] && blocks[0].level < INT_LEVELS
    modifies b`free, b`used, b.bits, b.bitmaps
    ensures b.Valid() && Live(b, blocks[1..])
  {
    var k, i := blocks[0].level, blocks[0].index;
    FitOfWholeBlock(k);
    FreeByAddress(b, b.BlockAddr(k, i), 4096 * Pow2(k), k, i);
  }

  lemma NoneLive(b: BuddyBlocks)
    requires Live(b, []) && b.free <= AllUnits(b.units)
    ensures b.free == AllUnits(b.units)
  {
  }

  /** Deallocating every live block, in whatever order they are listed, restores the state right after
      initialisation: every byte and count of it, and `used`. */
  method FreeAll(b: BuddyBlocks, blocks: seq<Block>)
    requires b.Valid() && b.Aligned() && Live(b, blocks)
    requires forall j | 0 <= j < |blocks| :: blocks[j].level < INT_LEVELS
    modifies b`free, b`used, b.bits, b.bitmaps
    ensures AsInitialised(b)
  {
    hide Encodes, Live, Levels, AllUnits;
    if blocks == [] {
      b.ArraysFit();
      NoneLive(b);
      AllFreeIsInitial(b);
    } else {
      FreeOneLive(b, blocks);
      FreeAll(b, blocks[1..]);
    }
  }

  // ---------- what a deallocation really frees ----------

  ghost predicate PowerOfTwo(m: nat)
  {
    exists k: nat :: m == Pow2(k)
  }

  /** The first unit of the run of `size` units around u. */
  function RunStart(u: nat, size: nat): nat
    requires size > 0
  {
    u / size * size
  }

  lemma RunInterval(w: nat, u: nat, size: nat)
    requires size > 0
    ensures SameRun(w, u, size) <==> RunStart(u, size) <= w < RunStart(u, size) + size
  {
    var q := u / size;
    assert (q + 1) * size == q * size + size;
    if q * size <= w < (q + 1) * size {
      DivUnique(w, size, q);
    }
    assert w == w / size * size + w % size;
  }

  lemma OnlyPower(m: nat, k: nat)
    requires m <= Pow2(k) < 2 * m
    ensures PowerOfTwo(m) <==> m == Pow2(k)
  {
    if l: nat :| m == Pow2(l) && l != k {
      if l < k {
        Pow2Monotone(l, k - 1);
      } else {
        Pow2Monotone(k + 1, l);
      }
    }
  }

  lemma StartOfRun(u: nat, size: nat)
    requires size > 0
    ensures RunStart(u, size) <= u && (u % size == 0 <==> u == RunStart(u, size))
  {
    assert u == u / size * size + u % size;
  }

  /** The run of the least power of two is the range itself exactly when that has a power of two of units and begins
      at a multiple of it. */
  lemma RunExactly(first: nat, m: nat, k: nat)
    requires m <= Pow2(k) < 2 * m
    ensures (forall w: nat :: SameRun(w, first, Pow2(k)) <==> first <= w < first + m) <==>
            PowerOfTwo(m) && first % m == 0
  {
    OnlyPower(m, k);
    hide PowerOfTwo, SameRun, Pow2;
    var size, start := Pow2(k), RunStart(first, Pow2(k));
    forall w: nat
      ensures SameRun(w, first, size) <==> start <= w < start + size
    {
      RunInterval(w, first, size);
    }
    StartOfRun(first, size);
    assert SameRun(start, first, size) && SameRun(start + size - 1, first, size);
    assert SameRun(first + m - 1, first, size) <==> start <= first + m - 1 < start + size;
    assert SameRun(first, first, size);
  }

  lemma RunIs(free0: set<nat>, free: set<nat>, first: nat, m: nat, size: nat)
    requires RunFreed(free0, free, first, m, size)
    ensures m <= size < 2 * m
    ensures forall w: nat :: w in free && w !in free0 <==> SameRun(w, first, size)
  {
  }

  /** buddy_dealloc frees exactly the units it is asked for if and only if their number is a power of two and the
      first is a multiple of it. */
  method FreesExactly(b: BuddyBlocks, addr: nat, len: nat)
    requires b.Valid() && b.Aligned() && len > 0 && b.DataAddr() <= addr && addr + len <= b.startAddr + b.totalLen
    requires b.FreedLevel(addr, len) < b.levels && b.FreedLevel(addr, len) < INT_LEVELS
    requires Units(b.FreedLevel(addr, len), b.FreedIndex(addr, len)) <= AllUnits(b.units) - b.free
    modifies b`free, b`used, b.bits, b.bitmaps
    ensures b.Valid()
    ensures var first, last := (addr - b.DataAddr()) / 4096, (addr + len - 1 - b.DataAddr()) / 4096;
            (forall w: nat :: w in b.free && w !in old(b.free) <==> first <= w <= last) <==>
            PowerOfTwo(last - first + 1) && first % (last - first + 1) == 0
  {
    hide Encodes, Units, AllUnits, Levels, PowerOfTwo, BuddyBlocks.FreedIndex, BuddyBlocks.FreedLevel, SameRun;
    hide RunFreed, Pow2;
    ghost var first, last := b.UnitOf(addr), b.UnitOf(addr + len - 1);
    ghost var k := b.FreedLevel(addr, len);
    b.Dealloc(addr, len);
    RunIs(old(b.free), b.free, first, last - first + 1, Pow2(k));
    RunExactly(first, last - first + 1, k);
    assert forall w: nat :: w in b.free && w !in old(b.free) <==> SameRun(w, first, Pow2(k));
  }

  lemma LastChunk(count: nat, k: nat, a: nat, u: nat)
    requires a < Leftmost(count, k) <= a + Pow2(k)
    ensures u in Units(k, Up(a, k)) <==> Leftmost(count, k) - Pow2(k) <= u < Leftmost(count, k)
  {
    if count == 0 {
      LeftmostProduct(0, k);
    }
    LeftmostNext(count - 1, k);
    UpLeftmost(count - 1, k, a);
    UnitsRange(k, count - 1, u);
  }

  /** The last m units of a block of 2^d lie in its last 2^Fit(m). */
  lemma TailBlock(index: nat, d: nat, m: nat, u: nat)
    requires 0 < m <= Pow2(d)
    ensures Leftmost(index + 1, d) >= Pow2(d)
    ensures var end := Leftmost(index + 1, d);
            u in Units(Fit(m), Up(end - m, Fit(m))) <==> end - Pow2(Fit(m)) <= u < end
  {
    hide Fit, Leftmost, Up, Units, Pow2;
    var k, end := Fit(m), Leftmost(index + 1, d);
    LeftmostNext(index, d);
    FitBounds(m);
    if d < k {
      Pow2Monotone(d, k - 1);
    }
    LeftmostCompose(index + 1, d - k, k);
    LastChunk(Leftmost(index + 1, d - k), k, end - m, u);
  }

  lemma BlockOffset(k: nat, i: nat)
    ensures Offset(k, i) == 4096 * Leftmost(i, k) && Offset(k, i) / 4096 == Leftmost(i, k)
  {
    OffsetProduct(k, i);
    LeftmostProduct(i, k);
    assert i * (4096 * Pow2(k)) == 4096 * (i * Pow2(k));
  }

  lemma ThisMany(first: nat, m: nat)
    requires m > 0
    ensures 4096 * first / 4096 == first && (4096 * first + 4096 * m - 1) / 4096 == first + m - 1
  {
  }

  /** The block that a deallocation of the last m units of block (d, index) frees. */
  lemma TailNamed(b: BuddyBlocks, d: nat, index: nat, m: nat)
    requires b.Layout() && b.Aligned() && Units(d, index) <= AllUnits(b.units) && 0 < m <= Pow2(d)
    ensures Leftmost(index + 1, d) >= m
    ensures var addr, len := b.BlockAddr(d, index) + 4096 * (Pow2(d) - m), 4096 * m;
            && addr + len <= b.startAddr + b.totalLen && b.FreedLevel(addr, len) == Fit(m) <= d < b.levels
            && b.FreedIndex(addr, len) == Up(Leftmost(index + 1, d) - m, Fit(m))
    ensures Leftmost(index + 1, d) == (b.BlockAddr(d, index) - b.DataAddr()) / 4096 + Pow2(d)
  {
    hide Units, AllUnits, Pow2, Fit, Leftmost, Up, Levels, BuddyBlocks.Layout, CoveredUnits, Offset;
    BlockInArea(b, d, index);
    b.AlignedEnd();
    BlockOffset(d, index);
    CoveredIs(b.DataAddr(), b.BlockAddr(d, index) + 4096 * (Pow2(d) - m), 4096 * m);
    ThisMany(Leftmost(index, d) + (Pow2(d) - m), m);
    LeftmostNext(index, d);
    FitBounds(m);
    if d < Fit(m) {
      Pow2Monotone(d, Fit(m) - 1);
    }
  }

  lemma TailInside(n: nat, free: set<nat>, d: nat, index: nat, m: nat)
    requires Units(d, index) <= AllUnits(n) - free && 0 < m <= Pow2(d)
    ensures Leftmost(index + 1, d) >= m
    ensures Units(Fit(m), Up(Leftmost(index + 1, d) - m, Fit(m))) <= AllUnits(n) - free
  {
    hide Units, AllUnits, Pow2, Fit, Leftmost, Up;
    var end := Leftmost(index + 1, d);
    LeftmostNext(index, d);
    FitBounds(m);
    if d < Fit(m) {
      Pow2Monotone(d, Fit(m) - 1);
    }
    Pow2Monotone(Fit(m), d);
    forall u | u in Units(Fit(m), Up(end - m, Fit(m)))
      ensures u in Units(d, index)
    {
      TailBlock(index, d, m, u);
      UnitsRange(d, index, u);
    }
  }

  lemma FitSize(m: nat)
    requires m > 0
    ensures PowerOfTwo(Pow2(Fit(m))) && m <= Pow2(Fit(m)) < 2 * m
    ensures PowerOfTwo(m) <==> m == Pow2(Fit(m))
  {
    FitBounds(m);
    OnlyPower(m, Fit(m));
  }

  /** What the deallocation of the tail frees, by unit numbers. */
  lemma TailFrees(free0: set<nat>, free: set<nat>, d: nat, index: nat, m: nat)
    requires 0 < m <= Pow2(d) && Units(d, index) !! free0 && Leftmost(index + 1, d) >= m
    requires free == free0 + Units(Fit(m), Up(Leftmost(index + 1, d) - m, Fit(m)))
    ensures var end, size := Leftmost(index + 1, d), Pow2(Fit(m));
            && PowerOfTwo(size) && m <= size < 2 * m
            && (forall w: nat :: w in free <==> w in free0 || end - size <= w < end)
            && ((forall w: nat | end - Pow2(d) <= w < end - m :: w !in free) <==> PowerOfTwo(m))
  {
    FitBounds(m);
    if d < Fit(m) {
      Pow2Monotone(d, Fit(m) - 1);
    }
    Pow2Monotone(Fit(m), d);
    hide Units, Pow2, Fit, Leftmost, Up, PowerOfTwo;
    var end, size := Leftmost(index + 1, d), Pow2(Fit(m));
    FitSize(m);
    LeftmostNext(index, d);
    forall w: nat
      ensures w in free <==> w in free0 || end - size <= w < end
      ensures end - Pow2(d) <= w < end ==> w !in free0
    {
      TailBlock(index, d, m, w);
      UnitsRange(d, index, w);
    }
    if size != m {
      assert end - m - 1 in free;
    }
  }

  lemma CeilUp(x: nat)
    ensures PageCeil(x) == 4096 * ((x + 4095) / 4096)
  {
  }

  /** What arraylist_shrink leaves of a list's block: it gives back the tail, and what that frees is the last run of a
      power of two of units.  The units that are kept stay in use exactly when the tail is a power of two itself. */
  method Shrink(b: BuddyBlocks, ptr: nat, oldLen: nat, newLen: nat, ghost d: nat, ghost index: nat)
    returns (kept: nat, ghost size: nat)
    requires b.Valid() && b.Aligned() && d < INT_LEVELS && Units(d, index) <= AllUnits(b.units) - b.free
    requires ptr == b.BlockAddr(d, index) && newLen <= oldLen && (oldLen + 4095) / 4096 == Pow2(d)
    modifies b`free, b`used, b.bits, b.bitmaps
    ensures b.Valid() && kept == 4096 * ((newLen + 4095) / 4096)
    ensures var first, end, m := (ptr - b.DataAddr()) / 4096, (ptr - b.DataAddr()) / 4096 + Pow2(d),
                                 Pow2(d) - (newLen + 4095) / 4096;
            && (m == 0 ==> b.free == old(b.free))
            && (m > 0 ==>
                  && PowerOfTwo(size) && m <= size < 2 * m
                  && (forall w: nat :: w in b.free <==> w in old(b.free) || end - size <= w < end)
                  && ((forall w: nat | first <= w < end - m :: w !in b.free) <==> PowerOfTwo(m)))
  {
    hide Units, AllUnits, Pow2, Fit, Leftmost, Encodes, Levels, BuddyBlocks.FreedLevel, BuddyBlocks.FreedIndex;
    hide PowerOfTwo, RunFreed, BuddyBlocks.UnitOf, BuddyBlocks.Layout, PageCeil;
    var alignedOld, alignedNew := PageCeil(oldLen), PageCeil(newLen);
    CeilUp(oldLen);
    CeilUp(newLen);
    kept, size := alignedNew, 0;
    if alignedOld == alignedNew {
      return;
    }
    ghost var m, end := Pow2(d) - (newLen + 4095) / 4096, Leftmost(index + 1, d);
    size := Pow2(Fit(m));
    TailNamed(b, d, index, m);
    TailInside(b.units, b.free, d, index, m);
    b.Dealloc(ptr + alignedNew, alignedOld - alignedNew);
    TailFrees(old(b.free), b.free, d, index, m);
  }

  lemma FirstInUse(b: BuddyBlocks, d: nat, index: nat)
    requires b.Layout() && Units(d, index) !! b.free
    ensures (b.BlockAddr(d, index) - b.DataAddr()) / 4096 !in b.free
  {
    hide Units, Pow2, Leftmost, Levels, BuddyBlocks.Layout;
    BlockOffset(d, index);
    LeftmostNext(index, d);
    UnitsRange(d, index, Leftmost(index, d));
  }

  lemma FourForThree(size: nat)
    requires PowerOfTwo(size) && 3 <= size < 6
    ensures size == 4
  {
    var k: nat :| size == Pow2(k);
    if k > 2 {
      Pow2Monotone(3, k);
    } else {
      Pow2Monotone(k, 2);
    }
    assert Pow2(2) == 4 && Pow2(3) == 8;
    assert k == 0 || k == 1 || k >= 2;
  }

  /** Shrinking a four-page list to one page frees all four: pages 1 to 3 are given back, page 0 goes too. */
  method ShrinkFreesLivePage(b: BuddyBlocks, ptr: nat, ghost index: nat)
    requires b.Valid() && b.Aligned() && Units(2, index) <= AllUnits(b.units) - b.free
    requires ptr == b.BlockAddr(2, index)
    modifies b`free, b`used, b.bits, b.bitmaps
    ensures b.Valid() && (ptr - b.DataAddr()) / 4096 in b.free && (ptr - b.DataAddr()) / 4096 !in old(b.free)
  {
    hide Units, AllUnits, Encodes, Levels, PowerOfTwo;
    FirstInUse(b, 2, index);
    assert Pow2(2) == 4;
    var kept;
    ghost var size;
    kept, size := Shrink(b, ptr, 0x4000, 0x1000, 2, index);
    FourForThree(size);
  }
}
