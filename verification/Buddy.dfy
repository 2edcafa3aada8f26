/** The buddy allocator of libbuddy/src/buddy.c.

    The bitmaps are kept in place, one bit and one count at a time.  The ghost field `free` is the set of
    free units; Valid says the bytes and counts in memory are its canonical encoding, so every operation
    is specified by what it does to that set. */
module Buddy {
  import opened Powers
  import opened ByteBits
  import opened Blocks
  import opened BuddyBitmaps
  import opened BuddyMetadata
  import opened Pigeonhole
  import opened Rounding

  /** From this level on the int `BUDDY_UNIT << level` is not the size of a block. */
  const INT_LEVELS: nat := 19

  /** An int is not shifted by its width or more. */
  const INT_BITS: nat := 32

  /** The greatest length whose fitting block has a size in 64 bits. */
  const MAX_LEN: nat := 0x8000_0000_0000_0000

  /** (size_t)BUDDY_UNIT << idx, in 64 bits. */
  function ShiftedUnit(idx: nat): nat
  {
    4096 * Pow2(idx) % 0x1_0000_0000_0000_0000
  }

  /** BUDDY_UNIT << idx, an int: cut to 32 bits, the highest of which is the sign. */
  function IntUnit(idx: nat): int
  {
    var cut := 4096 * Pow2(idx) % 0x1_0000_0000;
    if cut < 0x8000_0000 then cut else cut - 0x1_0000_0000
  }

  lemma Pow2Twice(k: nat)
    ensures Pow2(k + 1) == 2 * Pow2(k)
  {
  }

  lemma Pow2Of6()
    ensures Pow2(3) == 8 && Pow2(6) == 64
  {
  }

  lemma Pow2Of19()
    ensures Pow2(18) == 0x4_0000 && Pow2(19) == 0x8_0000 && Pow2(20) == 0x10_0000
  {
    Pow2Of6();
    hide Pow2;
    Pow2Add(6, 6);
    Pow2Add(12, 6);
    Pow2Twice(18);
    Pow2Twice(19);
  }

  lemma Multiple32(p: nat)
    ensures 4096 * (0x10_0000 * p) % 0x1_0000_0000 == 0
  {
  }

  lemma IntUnitIs(idx: nat)
    ensures IntUnit(idx) == if idx < 19 then 4096 * Pow2(idx) else if idx == 19 then -0x8000_0000 else 0
    ensures idx < 19 ==> Pow2(idx) <= 0x4_0000
    ensures idx == 19 ==> Pow2(idx) == 0x8_0000
  {
    Pow2Of19();
    hide Pow2;
    if idx < 19 {
      Pow2Monotone(idx, 18);
    } else if idx > 19 {
      Pow2Add(20, idx - 20);
      Multiple32(Pow2(idx - 20));
    }
  }

  /** allocated_len, a uint32_t */
  function SliceLen(fit: nat): nat
  {
    IntUnit(fit) % 0x1_0000_0000
  }

  lemma SliceLenIs(fit: nat)
    ensures SliceLen(fit) == if fit < 20 then 4096 * Pow2(fit) else 0
  {
    IntUnitIs(fit);
    hide IntUnit, Pow2;
  }

  /** The level of the smallest block of at least n units. */
  function Fit(n: nat): nat
    decreases n
  {
    if n <= 1 then 0 else 1 + Fit((n + 1) / 2)
  }

  lemma {:induction false} FitBounds(n: nat)
    ensures n <= Pow2(Fit(n))
    ensures Fit(n) > 0 ==> Pow2(Fit(n) - 1) < n
    decreases n
  {
    if n <= 1 {
    } else {
      FitBounds((n + 1) / 2);
    }
  }

  /** Fit(n) is the only level whose blocks hold n units while those one level down do not. */
  lemma FitUnique(n: nat, k: nat)
    requires n <= Pow2(k) && (k > 0 ==> Pow2(k - 1) < n)
    ensures k == Fit(n)
  {
    FitBounds(n);
    if k < Fit(n) {
      Pow2Monotone(k, Fit(n) - 1);
    } else if Fit(n) < k {
      Pow2Monotone(Fit(n), k - 1);
    }
  }

  lemma Pow2Of51()
    ensures Pow2(51) == 0x8_0000_0000_0000
  {
    hide Pow2;
    Pow2Of6();
    Pow2Add(6, 6);
    Pow2Add(12, 12);
    Pow2Add(24, 24);
    Pow2Add(48, 3);
  }

  /** Up to level 51 the shift loses nothing. */
  lemma ShiftExact(idx: nat)
    requires idx <= 51
    ensures ShiftedUnit(idx) == 4096 * Pow2(idx) <= MAX_LEN
  {
    Pow2Of51();
    Pow2Monotone(idx, 51);
  }

  /** bitmap_index_for_size, on a size that is a whole number of units. */
  method BitmapIndexForSize(size: nat) returns (idx: nat)
    requires size % 4096 == 0 && size <= MAX_LEN
    ensures idx == Fit(size / 4096)
  {
    idx := 0;
    ghost var n := size / 4096;
    ShiftExact(0);
    while ShiftedUnit(idx) < size
      invariant idx <= 51 && ShiftedUnit(idx) == 4096 * Pow2(idx)
      invariant idx > 0 ==> Pow2(idx - 1) < n
      decreases 51 - idx
    {
      Pow2Of51();
      assert idx < 51;
      idx := idx + 1;
      ShiftExact(idx);
    }
    FitUnique(n, idx);
  }

  lemma Multiple64(p: nat)
    ensures 4096 * (0x10_0000_0000_0000 * p) % 0x1_0000_0000_0000_0000 == 0
  {
  }

  /** From level 52 on nothing of the unit is left. */
  lemma ShiftOut(idx: nat)
    requires 52 <= idx
    ensures ShiftedUnit(idx) == 0
  {
    Pow2Of51();
    Pow2Add(52, idx - 52);
    Pow2Add(51, 1);
    hide Pow2;
    Multiple64(Pow2(idx - 52));
  }

  /** A greater size is above every shift that 64 bits allow: the loop does not end. */
  lemma NoShiftFits(size: nat, idx: nat)
    requires MAX_LEN < size && idx < 64
    ensures ShiftedUnit(idx) < size
  {
    if idx <= 51 {
      ShiftExact(idx);
    } else {
      ShiftOut(idx);
    }
  }

  ghost predicate FirstBit(b: byte, offset: nat)
    requires offset < 8
  {
    Bit(b, offset) && forall j: nat | j < offset :: !Bit(b, j)
  }

  /** The bit loop of get_first_1. */
  method FirstBitOfByte(b: byte) returns (offset: nat)
    requires b != 0
    ensures offset < 8 && FirstBit(b, offset)
  {
    ZeroByte(b);
    offset := 0;
    while offset < 8 && b & Mask(offset) == 0
      invariant offset <= 8
      invariant forall j: nat | j < offset :: !Bit(b, j)
    {
      offset := offset + 1;
    }
    assert offset < 8;
  }

  lemma MarkedByte(n: nat, bytes: seq<byte>, k: nat, i: nat) returns (b: nat)
    requires |bytes| == TotalBytes(n) && BitSlot(n, k, i) && LevelBit(n, bytes, k, i)
    ensures b < BytesFor(n, k) && BitsStart(n, k) + b < |bytes| && bytes[BitsStart(n, k) + b] != 0
  {
    SlotInBounds(n, k, i);
    b := i / 8;
    ZeroByte(bytes[BitsStart(n, k) + b]);
  }

  lemma SomeMarkedByte(n: nat, bytes: seq<byte>, bitmaps: seq<BlockBitmap>, free: set<nat>, k: nat) returns (b: nat)
    requires Encodes(n, bytes, bitmaps, free) && k < |bitmaps| && bitmaps[k].count > 0
    ensures b < BytesFor(n, k) && BitsStart(n, k) + b < |bytes| && bytes[BitsStart(n, k) + b] != 0
    ensures bitmaps[k].bits == BitsStart(n, k)
  {
    assert |CanonicalSet(n, free, k)| > 0;
    var w :| w in CanonicalSet(n, free, k);
    BlockHasSlots(n, k, w);
    b := MarkedByte(n, bytes, k, w);
  }

  ghost predicate FirstNonZero(bytes: seq<byte>, start: nat, b: nat)
  {
    start + b < |bytes| && bytes[start + b] != 0 && forall at | start <= at < start + b :: bytes[at] == 0
  }

  /** Bit `offset` of byte b is the first set bit of the first non-zero byte of level k. */
  ghost predicate FirstBitAt(n: nat, bytes: seq<byte>, k: nat, b: nat, offset: nat)
    requires offset < 8
  {
    var start := BitsStart(n, k);
    FirstNonZero(bytes, start, b) && FirstBit(bytes[start + b], offset)
  }

  /** i is the lowest maximal free block of level k. */
  ghost predicate LowestCanonical(free: set<nat>, k: nat, i: nat)
  {
    Canonical(free, k, i) && forall j | 0 <= j < i :: !Canonical(free, k, j)
  }

  lemma NoEarlierBit(n: nat, bytes: seq<byte>, k: nat, b: nat, offset: nat, j: nat)
    requires offset < 8 && FirstBitAt(n, bytes, k, b, offset) && j < b * 8 + offset
    ensures !LevelBit(n, bytes, k, j)
  {
    var start := BitsStart(n, k);
    var jb, jo := j / 8, j % 8;
    BareMask(0, jo);
    if jb < b {
      assert bytes[start + jb] == 0;
    } else {
      assert jb == b && jo < offset;
    }
  }

  /** The lowest set bit of a level is its lowest marked block. */
  lemma FirstMarked(n: nat, bytes: seq<byte>, free: set<nat>, k: nat, b: nat, offset: nat)
    requires BitsEncode(n, bytes, free) && k < Levels(n) && b < BytesFor(n, k) && offset < 8
    requires FirstBitAt(n, bytes, k, b, offset)
    ensures LowestCanonical(free, k, b * 8 + offset)
  {
    var i := b * 8 + offset;
    assert i / 8 == b && i % 8 == offset;
    assert BitSlot(n, k, i) && LevelBit(n, bytes, k, i);
    forall j | 0 <= j < i
      ensures !Canonical(free, k, j)
    {
      NoEarlierBit(n, bytes, k, b, offset, j);
      assert BitSlot(n, k, j);
    }
  }

  lemma FirstMarkedUpTo(n: nat, bytes: seq<byte>, bitmaps: seq<BlockBitmap>, free: set<nat>, k: nat, i: nat,
                        offset: nat, w: nat)
    requires Encodes(n, bytes, bitmaps, free) && k < |bitmaps| && i / 8 <= w < BytesFor(n, k) && offset < 8
    requires i == i / 8 * 8 + offset && FirstBitAt(n, bytes, k, i / 8, offset)
    ensures LowestCanonical(free, k, i)
  {
    FirstMarked(n, bytes, free, k, i / 8, offset);
  }

  /** The level of the smallest block of at least len bytes. */
  function FitLen(len: nat): nat
  {
    Fit(DivCeil(len, 4096))
  }

  /** The level buddy_alloc_slice looks for, wrap-around included. */
  function AllocLevel(len: nat): nat
  {
    if len <= MAX_LEN then FitLen(len) else 0
  }

  lemma CeilBounds(len: nat)
    ensures len <= MAX_LEN ==> DivCeil(len, 4096) <= 0x8_0000_0000_0000
    ensures 0xffff_ffff_ffff_f000 < len < 0x1_0000_0000_0000_0000 ==> DivCeil(len, 4096) == 0x10_0000_0000_0000
  {
    var q := len / 4096;
    assert len == 4096 * q + len % 4096;
  }

  lemma TimesUnit(n: nat)
    requires n <= 0x8_0000_0000_0000 || n == 0x10_0000_0000_0000
    ensures var aligned := n * 4096 % 0x1_0000_0000_0000_0000;
            aligned == if n == 0x10_0000_0000_0000 then 0 else n * 4096
    ensures n * 4096 % 4096 == 0 && n * 4096 / 4096 == n
  {
  }

  lemma FitOfNone()
    ensures Fit(0) == 0
  {
  }

  lemma AlignedLen(len: nat)
    requires 0 < len <= MAX_LEN || 0xffff_ffff_ffff_f000 < len < 0x1_0000_0000_0000_0000
    ensures var aligned := PageCeil(len) % 0x1_0000_0000_0000_0000;
            aligned % 4096 == 0 && aligned <= MAX_LEN && Fit(aligned / 4096) == AllocLevel(len)
  {
    CeilBounds(len);
    hide Fit, DivCeil;
    TimesUnit(DivCeil(len, 4096));
    FitOfNone();
  }

  lemma FitLenBounds(len: nat)
    ensures len <= 4096 * Pow2(FitLen(len))
    ensures FitLen(len) > 0 ==> 4096 * Pow2(FitLen(len) - 1) < len
  {
    FitBounds(DivCeil(len, 4096));
  }

  lemma AllocLevelBounds(len: nat)
    requires 0 < len
    ensures len > MAX_LEN ==> AllocLevel(len) == 0
    ensures len <= MAX_LEN ==> len <= 4096 * Pow2(AllocLevel(len))
    ensures len <= MAX_LEN && AllocLevel(len) > 0 ==> 4096 * Pow2(AllocLevel(len) - 1) < len
    ensures len > MAX_LEN ==> 4096 * Pow2(AllocLevel(len)) < len
  {
    FitLenBounds(len);
  }

  /** A level that an int is shifted by has less than 64 bits of size. */
  lemma SmallLevel(n: nat)
    requires Fit(n) < INT_LEVELS
    ensures 4096 * n <= MAX_LEN
  {
    FitBounds(n);
    Pow2Of51();
    Pow2Monotone(Fit(n), 51);
  }

  lemma FreeWithin(n: nat, bytes: seq<byte>, bitmaps: seq<BlockBitmap>, free: set<nat>, k: nat, i: nat)
    requires Encodes(n, bytes, bitmaps, free) && Canonical(free, k, i)
    ensures Units(k, i) <= free <= AllUnits(n)
  {
  }

  lemma LeftmostNone(i: nat)
    ensures Leftmost(i, 0) == i
  {
  }

  lemma LeftmostMore(i: nat, d: nat)
    ensures Leftmost(i, d + 1) == Leftmost(i, d) * 2
  {
  }

  ghost predicate NoCanonical(free: set<nat>, k: nat)
  {
    forall i: nat :: !Canonical(free, k, i)
  }

  ghost predicate NoWhole(free: set<nat>, k: nat)
  {
    forall i: nat :: !Whole(free, k, i)
  }

  /** top is the first maximal free block of the first level, from fit on, that has any. */
  ghost predicate ChosenBlock(free: set<nat>, fit: nat, level: nat, top: nat)
  {
    && fit <= level
    && LowestCanonical(free, level, top)
    && forall l: nat | fit <= l < level :: NoCanonical(free, l)
  }

  lemma EmptyLevel(n: nat, bytes: seq<byte>, bitmaps: seq<BlockBitmap>, free: set<nat>, k: nat)
    requires Encodes(n, bytes, bitmaps, free) && k < |bitmaps| && bitmaps[k].count == 0
    ensures NoCanonical(free, k)
  {
    var marked := CanonicalSet(n, free, k);
    assert marked == {};
    forall i: nat
      ensures !Canonical(free, k, i)
    {
      InRange(n, k, i);
      assert i !in marked;
    }
  }

  lemma WholeHasCanonical(n: nat, free: set<nat>, k: nat, i: nat)
    requires free <= AllUnits(n) && Whole(free, k, i)
    ensures exists l: nat :: k <= l < Levels(n) && !NoCanonical(free, l)
  {
    LevelsNonEmpty(n, Levels(n));
    var l := MaximalAbove(n, free, k, i, Levels(n));
    assert !NoCanonical(free, l);
  }

  /** No maximal free block at any level from k on means no wholly free block at level k. */
  lemma NoneAtAnyLevel(n: nat, free: set<nat>, k: nat)
    requires free <= AllUnits(n)
    requires forall l: nat | k <= l < Levels(n) :: NoCanonical(free, l)
    ensures NoWhole(free, k)
  {
    forall i: nat
      ensures !Whole(free, k, i)
    {
      if Whole(free, k, i) {
        WholeHasCanonical(n, free, k, i);
      }
    }
  }

  lemma TooLarge(n: nat, free: set<nat>, k: nat)
    requires free <= AllUnits(n) && Levels(n) <= k
    ensures NoWhole(free, k)
  {
    LevelsNonEmpty(n, k);
    forall i: nat
      ensures !Whole(free, k, i)
    {
      InRange(n, k, i);
    }
  }

  /** The right half of a block just taken can be marked free on its own. */
  lemma SplitBlock(n: nat, free: set<nat>, k: nat, left: nat)
    requires free <= AllUnits(n) && left % 2 == 0 && Units(k + 1, left / 2) <= free
    ensures left + 1 < Up(n, k) && Units(k, left) <= free
    ensures var rest := free - Units(k + 1, left / 2);
            && Units(k, left + 1) !! rest && !Whole(rest, k, Buddy(left + 1))
            && rest + Units(k, left + 1) == free - Units(k, left)
  {
    ParentUnits(k, left);
    InRange(n, k, left + 1);
    SameLevelDisjoint(k, left, left + 1);
    FirstUnit(k, left);
  }

  lemma TakenUnits(n: nat, free: set<nat>, k: nat, i: nat)
    requires Units(k, i) <= free <= AllUnits(n)
    ensures |free - Units(k, i)| == |free| - Pow2(k) <= n
    ensures 4096 * (n - |free - Units(k, i)|) == 4096 * (n - |free|) + 4096 * Pow2(k)
  {
    UnitsSize(k, i);
    SubsetSize(free, AllUnits(n));
  }

  /** block_index * (BUDDY_UNIT << level): the byte offset of block (k, i) in the data area. */
  function Offset(k: nat, i: nat): nat
  {
    if k == 0 then 4096 * i else Offset(k - 1, 2 * i)
  }

  /** The chosen block and its leftmost piece start at the same address. */
  lemma {:induction false} LeftmostOffset(k: nat, i: nat, fit: nat)
    requires fit <= k
    ensures Offset(k, i) == Offset(fit, Leftmost(i, k - fit))
  {
    if fit >= k {
    } else {
      LeftmostOffset(k - 1, 2 * i, fit);
      LeftmostShift(i, k - fit - 1);
    }
  }

  /** Units of the page-aligned range around [addr, addr + len). */
  function CoveredUnits(addr: nat, len: nat): nat
  {
    DivCeil(addr + len, 4096) - addr / 4096
  }

  /** The range assertions of buddy_dealloc hold for a non-empty range inside a page-aligned area. */
  lemma AlignedRange(begin: nat, end: nat, addr: nat, len: nat)
    requires begin % 4096 == 0 && end % 4096 == 0
    requires begin <= addr && len > 0 && addr + len <= end
    ensures begin <= PageFloor(addr) < end
    ensures begin < PageCeil(addr + len) <= end
    ensures PageCeil(addr + len) - PageFloor(addr) == CoveredUnits(addr, len) * 4096
  {
  }

  function Quotient(x: nat, d: nat): nat
    requires d > 0
  {
    x / d
  }

  /** offset / (BUDDY_UNIT << level) */
  function BlockIndex(offset: nat, k: nat): nat
  {
    Quotient(offset, 4096 * Pow2(k))
  }

  lemma ScaleInterval(q: nat, p: nat, u: nat)
    requires q * p <= u < (q + 1) * p
    ensures q * (4096 * p) <= 4096 * u < (q + 1) * (4096 * p)
  {
    assert q * (4096 * p) == 4096 * (q * p);
    assert (q + 1) * (4096 * p) == 4096 * ((q + 1) * p);
  }

  lemma DivUnique(x: nat, d: nat, q: nat)
    requires d > 0 && q * d <= x < (q + 1) * d
    ensures x / d == q
  {
    var r := x / d;
    assert r * d <= x < (r + 1) * d;
    if r < q {
      MulMonotone(r + 1, q, d);
    } else if q < r {
      MulMonotone(q + 1, r, d);
    }
  }

  lemma BlockIndexIsUp(offset: nat, k: nat)
    requires offset % 4096 == 0
    ensures BlockIndex(offset, k) == Up(offset / 4096, k)
  {
    var u, p := offset / 4096, Pow2(k);
    UpInterval(u, k);
    var q := Up(u, k);
    ScaleInterval(q, p, u);
    DivUnique(offset, 4096 * p, q);
  }

  lemma CeilIs(x: nat)
    requires x > 0
    ensures DivCeil(x, 4096) == (x - 1) / 4096 + 1
  {
  }

  /** The units around [addr, addr + len), by their numbers. */
  lemma CoveredIs(begin: nat, addr: nat, len: nat)
    requires begin % 4096 == 0 && begin <= addr && len > 0
    ensures CoveredUnits(addr, len) == (addr + len - 1 - begin) / 4096 - (addr - begin) / 4096 + 1
  {
    var b := begin / 4096;
    assert begin == b * 4096;
    assert (addr - begin) / 4096 == addr / 4096 - b;
    assert (addr + len - 1 - begin) / 4096 == (addr + len - 1) / 4096 - b;
    CeilIs(addr + len);
  }

  /** k is the lowest level whose blocks hold m units. */
  predicate LeastLevel(m: nat, k: nat)
  {
    m <= Pow2(k) && (k > 0 ==> Pow2(k - 1) < m)
  }

  lemma FitIsLeast(m: nat)
    ensures LeastLevel(m, Fit(m))
  {
    FitBounds(m);
  }

  lemma LeastSize(m: nat, k: nat)
    requires LeastLevel(m, k)
    ensures m > 0 ==> m <= Pow2(k) < 2 * m
  {
  }

  /** u >> k as a quotient. */
  lemma UpQuotient(u: nat, k: nat)
    ensures Up(u, k) == u / Pow2(k)
  {
    UpInterval(u, k);
    DivUnique(u, Pow2(k), Up(u, k));
  }

  /** w is in the aligned run of `size` units around u. */
  predicate SameRun(w: nat, u: nat, size: nat)
    requires size > 0
  {
    w / size == u / size
  }

  /** Block (k, i) is the run of 2^k units around any of its units. */
  lemma BlockIsRun(k: nat, i: nat, u: nat)
    requires i == u / Pow2(k)
    ensures forall w: nat :: w in Units(k, i) <==> SameRun(w, u, Pow2(k))
    ensures SameRun(u, u, Pow2(k))
  {
    hide Units, Up, Pow2;
    forall w: nat
      ensures w in Units(k, i) <==> SameRun(w, u, Pow2(k))
    {
      UnitsUp(k, i, w);
      UpQuotient(w, k);
    }
  }

  /** From free0 to free the aligned run of `size` units around `first` became free, none of which was; and `size` is
      the least power of two, if it is one, of at least m. */
  ghost predicate RunFreed(free0: set<nat>, free: set<nat>, first: nat, m: nat, size: nat)
  {
    && m <= size < 2 * m && first in free
    && (forall w: nat | SameRun(w, first, size) :: w !in free0)
    && (forall w: nat :: w in free <==> w in free0 || SameRun(w, first, size))
  }

  lemma BlockFreed(free: set<nat>, k: nat, i: nat, first: nat, m: nat)
    requires m > 0 && i == first / Pow2(k) && LeastLevel(m, k) && Units(k, i) !! free
    ensures RunFreed(free, free + Units(k, i), first, m, Pow2(k))
  {
    hide Units, SameRun, LeastLevel, Pow2;
    LeastSize(m, k);
    BlockIsRun(k, i, first);
  }

  lemma FreedBlock(begin: nat, addr: nat, k: nat)
    requires begin % 4096 == 0 && begin <= PageFloor(addr)
    ensures BlockIndex(PageFloor(addr) - begin, k) == Up((addr - begin) / 4096, k)
  {
    var offset := PageFloor(addr) - begin;
    assert offset % 4096 == 0 && offset / 4096 == (addr - begin) / 4096;
    BlockIndexIsUp(offset, k);
  }

  lemma BuddyFreeOrNot(n: nat, free: set<nat>, target: set<nat>, k: nat, i: nat)
    requires Units(k, i) <= target <= AllUnits(n) && free == target - Units(k, i)
    ensures !Canonical(free, k, i)
    ensures Canonical(free, k, Buddy(i)) <==> Whole(free, k, Buddy(i))
    ensures free + Units(k, i) == target
    ensures Whole(free, k, Buddy(i)) ==>
              && k + 1 < Levels(n)
              && Units(k + 1, i / 2) <= target
              && free - Units(k, Buddy(i)) == target - Units(k + 1, i / 2)
  {
    FirstUnit(k, i);
    ParentUnits(k, i);
    assert Buddy(i) / 2 == i / 2;
    if Whole(free, k, Buddy(i)) {
      InRange(n, k + 1, i / 2);
      LevelsNonEmpty(n, k + 1);
    }
  }

  /** What holds before each round of the coalescing loop; the assertion on get_bit never fires. */
  lemma FreeingState(n: nat, bytes: seq<byte>, maps: seq<BlockBitmap>, free: set<nat>, target: set<nat>, k: nat, i: nat)
    requires Encodes(n, bytes, maps, free)
    requires Units(k, i) <= target <= AllUnits(n) && free == target - Units(k, i)
    ensures |bytes| == TotalBytes(n) && k < |maps| && maps[k].bits == BitsStart(n, k)
    ensures BitSlot(n, k, i) && BitSlot(n, k, Buddy(i))
    ensures ByteIndex(n, k, i) < |bytes| && ByteIndex(n, k, Buddy(i)) < |bytes|
    ensures !LevelBit(n, bytes, k, i)
    ensures LevelBit(n, WithBitSet(n, bytes, k, i), k, Buddy(i)) <==> LevelBit(n, bytes, k, Buddy(i))
    ensures LevelBit(n, bytes, k, Buddy(i)) ==>
              && k + 1 < |maps| && maps[k].count > 0
              && Encodes(n, WithBitClear(n, bytes, k, Buddy(i)), WithCount(maps, k, -1), free - Units(k, Buddy(i)))
              && Units(k + 1, i / 2) <= target
              && free - Units(k, Buddy(i)) == target - Units(k + 1, i / 2)
    ensures !LevelBit(n, bytes, k, Buddy(i)) ==>
              Encodes(n, WithBitSet(n, bytes, k, i), WithCount(maps, k, 1), target)
  {
    InRange(n, k, i);
    BlockHasSlots(n, k, i);
    SlotInBounds(n, k, i);
    SlotInBounds(n, k, Buddy(i));
    FirstUnit(k, i);
    WithBitSetBits(n, bytes, k, i, k, Buddy(i));
    BuddyFreeOrNot(n, free, target, k, i);
    if LevelBit(n, bytes, k, Buddy(i)) {
      ClearEncodes(n, bytes, maps, free, k, Buddy(i));
    } else {
      SetEncodes(n, bytes, maps, free, k, i);
    }
  }

  lemma AddBlockUnits(n: nat, free: set<nat>, k: nat, i: nat)
    requires free <= AllUnits(n) && Units(k, i) <= AllUnits(n) - free
    ensures |free + Units(k, i)| == |free| + Pow2(k) <= n
    ensures 4096 * (n - |free + Units(k, i)|) == 4096 * (n - |free|) - 4096 * Pow2(k)
  {
    UnitsSize(k, i);
    DisjointUnionSize(free, Units(k, i));
    SubsetSize(free + Units(k, i), AllUnits(n));
  }

  /** bitsIdx is where level idx starts, and the block count reaches zero just past the last level. */
  ghost predicate LevelReached(n: nat, bitsIdx: nat, idx: nat)
  {
    bitsIdx == BitsStart(n, idx) && (Up(n, idx) == 0 ==> idx == Levels(n))
  }

  /** The bytes after an odd level of blockCount blocks has marked its last block. */
  function WithLastMarked(bytes: seq<byte>, start: nat, blockCount: nat): seq<byte>
    requires blockCount > 0 && start + (blockCount - 1) / 8 < |bytes|
  {
    if blockCount % 2 == 0 then bytes
    else bytes[start + (blockCount - 1) / 8 := Mask((blockCount - 1) % 8)]
  }

  /** Levels below k hold their initial bits, and nothing is set from level k on. */
  ghost predicate InitialBytes(n: nat, bytes: seq<byte>, k: nat)
  {
    && |bytes| == TotalBytes(n)
    && (forall l: nat, j: nat | l < k && BitSlot(n, l, j) :: LevelBit(n, bytes, l, j) <==> Canonical(AllUnits(n), l, j))
    && (forall at | BitsStart(n, k) <= at < |bytes| :: bytes[at] == 0)
  }

  ghost predicate InitialCounts(n: nat, bitmaps: seq<BlockBitmap>, k: nat)
  {
    && |bitmaps| == Levels(n) && k <= |bitmaps|
    && forall l | 0 <= l < k ::
         bitmaps[l] == BlockBitmap(BitsStart(n, l), |CanonicalSet(n, AllUnits(n), l)|)
  }

  ghost predicate Initial(n: nat, bytes: seq<byte>, bitmaps: seq<BlockBitmap>, k: nat)
  {
    InitialBytes(n, bytes, k) && InitialCounts(n, bitmaps, k)
  }

  /** Level k of an all-free area has one marked block, its last, exactly when bit k of n is set. */
  lemma InitialMarks(n: nat, k: nat, i: nat)
    ensures Canonical(AllUnits(n), k, i) <==> Up(n, k) % 2 == 1 && i == Up(n, k) - 1
  {
    InRange(n, k, i);
    InRange(n, k + 1, i / 2);
    UpLast(n, k + 1);
  }

  lemma InitialCount(n: nat, k: nat)
    ensures |CanonicalSet(n, AllUnits(n), k)| == Up(n, k) % 2
  {
    forall i: nat
      ensures Canonical(AllUnits(n), k, i) <==> Up(n, k) % 2 == 1 && i == Up(n, k) - 1
    {
      InitialMarks(n, k, i);
    }
    if Up(n, k) % 2 == 1 {
      assert CanonicalSet(n, AllUnits(n), k) == {Up(n, k) - 1};
    } else {
      assert CanonicalSet(n, AllUnits(n), k) == {};
    }
  }

  lemma InitialCountsStep(n: nat, bitmaps: seq<BlockBitmap>, bitmaps': seq<BlockBitmap>, k: nat)
    requires k < |bitmaps| && InitialCounts(n, bitmaps, k)
    requires bitmaps' == bitmaps[k := BlockBitmap(BitsStart(n, k), Up(n, k) % 2)]
    ensures InitialCounts(n, bitmaps', k + 1)
  {
    InitialCount(n, k);
  }

  lemma LastBit(bytes: seq<byte>, bytes': seq<byte>, start: nat, blockCount: nat, j: nat)
    requires blockCount > 0 && start + (blockCount - 1) / 8 < |bytes| && start + j / 8 < |bytes|
    requires bytes[start + j / 8] == 0
    requires bytes' == WithLastMarked(bytes, start, blockCount)
    ensures |bytes'| == |bytes| && (Bit(bytes'[start + j / 8], j % 8) <==> blockCount % 2 == 1 && j == blockCount - 1)
  {
    var last := blockCount - 1;
    BareMask(0, j % 8);
    BareMask(last % 8, j % 8);
    if j / 8 == last / 8 && j % 8 == last % 8 {
      assert j == last;
    }
  }

  /** The bytes of lower levels come first. */
  lemma LowerByte(n: nat, l: nat, k: nat, j: nat)
    requires l < k && BitSlot(n, l, j)
    ensures ByteIndex(n, l, j) < BitsStart(n, k)
  {
    SlotInBounds(n, l, j);
    BitsStartMonotone(n, l + 1, k);
  }

  lemma LowerByteKept(bytes: seq<byte>, bytes': seq<byte>, start: nat, count: nat, b: nat)
    requires count > 0 && start + (count - 1) / 8 < |bytes| && bytes' == WithLastMarked(bytes, start, count)
    requires b < start
    ensures |bytes'| == |bytes| && bytes'[b] == bytes[b]
  {
  }

  lemma InitialBit(n: nat, bytes: seq<byte>, bytes': seq<byte>, k: nat, l: nat, j: nat)
    requires k < Levels(n) && Up(n, k) > 0 && InitialBytes(n, bytes, k)
    requires BitsStart(n, k) + (Up(n, k) - 1) / 8 < |bytes|
    requires bytes' == WithLastMarked(bytes, BitsStart(n, k), Up(n, k))
    requires l <= k && BitSlot(n, l, j)
    ensures LevelBit(n, bytes', l, j) <==> Canonical(AllUnits(n), l, j)
  {
    hide Canonical, AllUnits, BitsStart, WithLastMarked;
    SlotInBounds(n, l, j);
    if l < k {
      LowerByte(n, l, k, j);
      LowerByteKept(bytes, bytes', BitsStart(n, k), Up(n, k), ByteIndex(n, l, j));
    } else {
      InitialMarks(n, l, j);
      LastBit(bytes, bytes', BitsStart(n, k), Up(n, k), j);
    }
  }

  lemma InitialBytesStep(n: nat, bytes: seq<byte>, bytes': seq<byte>, k: nat)
    requires k < Levels(n) && Up(n, k) > 0 && InitialBytes(n, bytes, k)
    requires BitsStart(n, k) + (Up(n, k) - 1) / 8 < |bytes|
    requires bytes' == WithLastMarked(bytes, BitsStart(n, k), Up(n, k))
    ensures InitialBytes(n, bytes', k + 1)
  {
    forall l: nat, j: nat | l < k + 1 && BitSlot(n, l, j)
      ensures LevelBit(n, bytes', l, j) <==> Canonical(AllUnits(n), l, j)
    {
      InitialBit(n, bytes, bytes', k, l, j);
    }
  }

  lemma InitialStep(n: nat, bytes: seq<byte>, bitmaps: seq<BlockBitmap>,
                    bytes': seq<byte>, bitmaps': seq<BlockBitmap>, k: nat)
    requires k < Levels(n) && Up(n, k) > 0 && Initial(n, bytes, bitmaps, k)
    requires BitsStart(n, k) + (Up(n, k) - 1) / 8 < |bytes|
    requires bytes' == WithLastMarked(bytes, BitsStart(n, k), Up(n, k))
    requires bitmaps' == bitmaps[k := BlockBitmap(BitsStart(n, k), Up(n, k) % 2)]
    ensures Initial(n, bytes', bitmaps', k + 1)
  {
    InitialBytesStep(n, bytes, bytes', k);
    InitialCountsStep(n, bitmaps, bitmaps', k);
  }

  lemma InitialDone(n: nat, bytes: seq<byte>, bitmaps: seq<BlockBitmap>)
    requires Initial(n, bytes, bitmaps, Levels(n))
    ensures Encodes(n, bytes, bitmaps, AllUnits(n))
  {
  }

  lemma {:induction false} NextOffset(k: nat, i: nat)
    ensures Offset(k, i + 1) == Offset(k, i) + 4096 * Pow2(k)
  {
    if k == 0 {
    } else {
      NextOffset(k - 1, 2 * i);
      NextOffset(k - 1, 2 * i + 1);
    }
  }

  lemma {:induction false} OffsetInArea(n: nat, k: nat, i: nat)
    requires Units(k, i) <= AllUnits(n)
    ensures Offset(k, i) + 4096 * Pow2(k) <= 4096 * n
  {
    if k == 0 {
      assert i in Units(0, i);
    } else {
      OffsetInArea(n, k - 1, 2 * i + 1);
      NextOffset(k - 1, 2 * i);
    }
  }

  lemma {:induction false} OffsetProduct(k: nat, i: nat)
    ensures Offset(k, i) == i * (4096 * Pow2(k))
  {
    if k == 0 {
    } else {
      OffsetProduct(k - 1, 2 * i);
      var p := 4096 * Pow2(k - 1);
      assert (2 * i) * p == i * (2 * p);
    }
  }

  /** With at most 32 levels there are fewer than 2^32 units. */
  lemma FewUnits(n: nat)
    requires Levels(n) <= INT_BITS
    ensures n < 0x1_0000_0000
  {
    hide Pow2, Up, Levels;
    LevelsNonEmpty(n, 32);
    UpInterval(n, 32);
    Pow2Of19();
    Pow2Of6();
    Pow2Add(20, 6);
    Pow2Add(26, 6);
  }

  /** The address of block (k, i) of an area at `begin`, as buddy_alloc_slice computes it. */
  function SliceAddr(begin: nat, k: nat, i: nat): nat
  {
    (begin + i * IntUnit(k)) % 0x1_0000_0000_0000_0000
  }

  lemma WrapSame(x: nat)
    requires x < 0x1_0000_0000_0000_0000
    ensures x % 0x1_0000_0000_0000_0000 == x
  {
  }

  lemma WrapBelow(x: nat, y: nat)
    requires x < 0x1_0000_0000_0000_0000 && 0 < y < 0x1000_0000_0000
    ensures (x - y) % 0x1_0000_0000_0000_0000 != x + y
  {
    if x >= y {
      WrapSame(x - y);
    } else {
      assert (x - y) % 0x1_0000_0000_0000_0000 == x - y + 0x1_0000_0000_0000_0000;
    }
  }

  lemma TimesNegative(i: nat, unit: int)
    requires unit == -0x8000_0000
    ensures i * unit == -(i * 0x8000_0000)
  {
  }

  lemma TimesZero(i: nat, unit: int)
    requires unit == 0 || i == 0
    ensures i * unit == 0
  {
  }

  lemma SliceAddrIs(begin: nat, k: nat, i: nat)
    ensures SliceAddr(begin, k, i) == (begin + i * IntUnit(k)) % 0x1_0000_0000_0000_0000
  {
  }

  lemma OffsetPositive(k: nat, i: nat)
    requires i > 0
    ensures Offset(k, i) > 0
  {
    if k > 0 {
      OffsetPositive(k - 1, 2 * i);
    }
  }

  /** It is right exactly when the int is the block's size, or the block is the first of its level. */
  lemma AddressRight(begin: nat, n: nat, k: nat, i: nat)
    requires Levels(n) <= INT_BITS && Units(k, i) <= AllUnits(n)
    requires begin + 4096 * (n - 1) < 0x1_0000_0000_0000_0000
    ensures SliceAddr(begin, k, i) == begin + Offset(k, i) <==> k < INT_LEVELS || i == 0
  {
    hide SliceAddr, IntUnit, Offset, Units, AllUnits, Levels, Pow2;
    FewUnits(n);
    OffsetInArea(n, k, i);
    OffsetProduct(k, i);
    IntUnitIs(k);
    SliceAddrIs(begin, k, i);
    if k < 19 {
      WrapSame(begin + Offset(k, i));
    } else if i == 0 {
      TimesZero(i, IntUnit(k));
      WrapSame(begin);
    } else if k == 19 {
      TimesNegative(i, IntUnit(k));
      WrapBelow(begin, i * 0x8000_0000);
    } else {
      TimesZero(i, IntUnit(k));
      OffsetPositive(k, i);
      WrapSame(begin);
    }
  }

  /** The bytes in use after an allocation fit 64 bits. */
  lemma UsedAfter(n: nat, used: nat, free: nat, more: nat)
    requires more <= free <= n && used == 4096 * (n - free) && 4096 * n < 0x1_0000_0000_0000_0000
    ensures (used + 4096 * more) % 0x1_0000_0000_0000_0000 == used + 4096 * more == 4096 * (n - (free - more))
  {
    WrapSame(used + 4096 * more);
  }

  lemma SumOfUnits(x: nat, y: nat)
    requires x % 4096 == 0 && y % 4096 == 0
    ensures (x + y) % 4096 == 0
  {
  }

  lemma RestOfUnits(x: nat, y: nat)
    requires y <= x && x % 4096 == 0 && y % 4096 == 0
    ensures (x - y) % 4096 == 0
  {
  }

  lemma WholeUnits(len: nat)
    requires len > 0 && len % 4096 == 0
    ensures UnitsFor(len) * 4096 == len
  {
    assert len == len / 4096 * 4096;
  }

  /** Rounding up adds less than a unit. */
  lemma LeastOffset(len: nat)
    ensures var offset := DivCeil(len, 4096) * 4096;
            offset % 4096 == 0 && offset - 4096 < len <= offset
  {
    assert len == len / 4096 * 4096 + len % 4096;
  }

  lemma LeastUnits(len: nat)
    requires len > 0
    ensures 4096 * (UnitsFor(len) - 1) < len <= 4096 * UnitsFor(len)
  {
    assert len - 1 == (len - 1) / 4096 * 4096 + (len - 1) % 4096;
  }

  lemma UpNone(n: nat)
    ensures Up(n, 0) == n
  {
  }

  /** As many levels as the number of units has binary digits. */
  lemma LevelsBounds(n: nat)
    requires n > 0
    ensures Levels(n) > 0 && Pow2(Levels(n) - 1) <= n < Pow2(Levels(n))
  {
    hide Levels, Up, Pow2;
    LevelsNonEmpty(n, 0);
    UpNone(n);
    LevelsNonEmpty(n, Levels(n) - 1);
    LevelsNonEmpty(n, Levels(n));
    UpInterval(n, Levels(n) - 1);
    UpInterval(n, Levels(n));
    MulMonotone(1, Up(n, Levels(n) - 1), Pow2(Levels(n) - 1));
  }

  class BuddyBlocks {
    var startAddr: nat
    var totalLen: nat
    var metadataLen: nat
    var dataOffset: nat
    var units: nat
    var levels: nat
    var used: nat
    var bits: array<byte>
    var bitmaps: array<BlockBitmap>
    ghost var free: set<nat>

    ghost predicate Encoded()
      reads this, bits, bitmaps
    {
      Encodes(units, bits[..], bitmaps[..], free)
    }

    ghost predicate Layout()
      reads this
    {
      && bits as object != bitmaps
      && 2 <= units
      && levels == Levels(units)
      && metadataLen == MetadataLen(units) < dataOffset < totalLen
      && dataOffset % 4096 == 0 && units == UnitsFor(totalLen - dataOffset)
      && startAddr + totalLen <= 0x1_0000_0000_0000_0000
    }

    /** The area is made of whole pages. */
    predicate Aligned()
      reads this
    {
      startAddr % 4096 == 0 && totalLen % 4096 == 0
    }

    function DataAddr(): nat
      reads this
    {
      startAddr + dataOffset
    }

    /** The address of block (k, i). */
    function BlockAddr(k: nat, i: nat): nat
      reads this
    {
      DataAddr() + Offset(k, i)
    }

    /** The last unit ends inside the area exactly when the area's length is a whole number of units. */
    lemma LastUnit()
      requires Layout()
      ensures BlockAddr(0, units - 1) + 4096 <= startAddr + totalLen <==> totalLen % 4096 == 0
      ensures BlockAddr(0, units - 1) < startAddr + totalLen
      ensures BlockAddr(0, 0) == startAddr + dataOffset
    {
      hide BuddyBitmaps.Levels, MetadataLen;
    }

    /** The invariant but for `used`. */
    ghost predicate State()
      reads this, bits, bitmaps
    {
      Layout() && Encoded()
    }

    ghost predicate Valid()
      reads this, bits, bitmaps
    {
      State() && used == 4096 * (units - |free|)
    }

    /** Level k and bit i of it are inside the two arrays. */
    ghost predicate InArrays(k: nat, i: nat)
      reads this, bits, bitmaps
    {
      && bits as object != bitmaps
      && k < bitmaps.Length && bitmaps[k].bits == BitsStart(units, k)
      && ByteIndex(units, k, i) < bits.Length
    }

    // ---------- single bits ----------

    method GetBit(k: nat, i: nat) returns (b: bool)
      requires InArrays(k, i)
      ensures b == LevelBit(units, bits[..], k, i)
    {
      b := bits[bitmaps[k].bits + i / 8] & Mask(i % 8) != 0;
    }

    method Set1(k: nat, i: nat)
      requires InArrays(k, i)
      modifies bits, bitmaps
      ensures bits[..] == WithBitSet(units, old(bits[..]), k, i)
      ensures bitmaps[..] == WithCount(old(bitmaps[..]), k, if LevelBit(units, old(bits[..]), k, i) then 0 else 1)
    {
      var prev := GetBit(k, i);
      var at := bitmaps[k].bits + i / 8;
      bits[at] := bits[at] | Mask(i % 8);
      if !prev {
        bitmaps[k] := bitmaps[k].(count := bitmaps[k].count + 1);
      }
    }

    method Set0(k: nat, i: nat)
      requires InArrays(k, i)
      requires LevelBit(units, bits[..], k, i) ==> bitmaps[k].count > 0
      modifies bits, bitmaps
      ensures bits[..] == WithBitClear(units, old(bits[..]), k, i)
      ensures bitmaps[..] == WithCount(old(bitmaps[..]), k, if LevelBit(units, old(bits[..]), k, i) then -1 else 0)
    {
      var prev := GetBit(k, i);
      var at := bitmaps[k].bits + i / 8;
      bits[at] := bits[at] & !Mask(i % 8);
      if prev {
        bitmaps[k] := bitmaps[k].(count := bitmaps[k].count - 1);
      }
    }

    /** set_1 on a block whose buddy is not wholly free: the block joins the free set. */
    method MarkFree(k: nat, i: nat)
      requires bits as object != bitmaps && Encoded()
      requires i < Up(units, k) && Units(k, i) !! free && !Whole(free, k, Buddy(i))
      modifies this`free, bits, bitmaps
      ensures Encoded() && free == old(free) + Units(k, i)
    {
      SetEncodes(units, bits[..], bitmaps[..], free, k, i);
      Set1(k, i);
      free := free + Units(k, i);
    }

    /** set_0 on a marked block: the block leaves the free set. */
    method MarkUsed(k: nat, i: nat)
      requires bits as object != bitmaps && Encoded()
      requires Canonical(free, k, i)
      modifies this`free, bits, bitmaps
      ensures Encoded() && free == old(free) - Units(k, i)
    {
      ClearEncodes(units, bits[..], bitmaps[..], free, k, i);
      Set0(k, i);
      free := free - Units(k, i);
    }

    /** The byte loop of get_first_1; w only bounds the search. */
    method FirstNonZeroByte(start: nat, ghost w: nat) returns (b: nat)
      requires start + w < bits.Length && bits[start + w] != 0
      ensures b <= w && FirstNonZero(bits[..], start, b)
    {
      b := 0;
      while bits[start + b] == 0
        invariant b <= w
        invariant forall at | start <= at < start + b :: bits[at] == 0
        decreases w - b
      {
        b := b + 1;
      }
    }

    method FirstSetBit(k: nat, ghost w: nat) returns (i: nat, ghost offset: nat)
      requires k < bitmaps.Length && bitmaps[k].bits == BitsStart(units, k)
      requires BitsStart(units, k) + w < bits.Length && bits[BitsStart(units, k) + w] != 0
      ensures i / 8 <= w && offset < 8 && i == i / 8 * 8 + offset
      ensures FirstBitAt(units, bits[..], k, i / 8, offset)
    {
      var byteIdx := FirstNonZeroByte(bitmaps[k].bits, w);
      var bit := FirstBitOfByte(bits[bitmaps[k].bits + byteIdx]);
      i, offset := byteIdx * 8 + bit, bit;
      assert i / 8 == byteIdx;
    }

    /** get_first_1: the lowest marked block of a level that has one. */
    method GetFirst1(k: nat) returns (i: nat)
      requires Encoded() && k < bitmaps.Length && bitmaps[k].count > 0
      ensures LowestCanonical(free, k, i)
    {
      hide Encodes, LowestCanonical, BitsStart, BytesFor, FirstBitAt;
      ghost var w := SomeMarkedByte(units, bits[..], bitmaps[..], free, k);
      ghost var offset;
      i, offset := FirstSetBit(k, w);
      FirstMarkedUpTo(units, bits[..], bitmaps[..], free, k, i, offset, w);
    }

    // ---------- initialisation ----------

    /** One round of it: an odd level marks its last block. */
    method FillLevel(idx: nat, blockCount: nat, bitsIdx: nat) returns (bitsLen: nat)
      requires bits as object != bitmaps
      requires idx < bitmaps.Length && blockCount > 0 && bitsIdx + (blockCount - 1) / 8 < bits.Length
      modifies bits, bitmaps
      ensures bitsLen == (blockCount - 1) / 8 + 1
      ensures bits[..] == WithLastMarked(old(bits[..]), bitsIdx, blockCount)
      ensures bitmaps[..] == old(bitmaps[..])[idx := BlockBitmap(bitsIdx, blockCount % 2)]
    {
      bitsLen := (blockCount - 1) / 8 + 1;
      var count := 0;
      if blockCount % 2 != 0 {
        bits[bitsIdx + bitsLen - 1] := Mask(blockCount % 8 - 1);
        count := 1;
      }
      bitmaps[idx] := BlockBitmap(bitsIdx, count);
    }

    method FillNextLevel(idx: nat, blockCount: nat, bitsIdx: nat) returns (nextIdx: nat)
      requires bits as object != bitmaps
      requires blockCount == Up(units, idx) > 0 && LevelReached(units, bitsIdx, idx)
      requires Initial(units, bits[..], bitmaps[..], idx)
      modifies bits, bitmaps
      ensures Up(units, idx + 1) == blockCount / 2 && LevelReached(units, nextIdx, idx + 1)
      ensures Initial(units, bits[..], bitmaps[..], idx + 1)
    {
      ghost var before, maps := bits[..], bitmaps[..];
      NextLevel(units, idx);
      LastByteInBounds(units, idx);
      var bitsLen := FillLevel(idx, blockCount, bitsIdx);
      InitialStep(units, before, maps, bits[..], bitmaps[..], idx);
      nextIdx := bitsIdx + bitsLen;
    }

    /** The loop of buddy_init. */
    method FillLevels()
      requires bits as object != bitmaps
      requires units > 0 && LevelReached(units, 0, 0)
      requires Initial(units, bits[..], bitmaps[..], 0)
      modifies bits, bitmaps
      ensures Initial(units, bits[..], bitmaps[..], Levels(units))
    {
      var blockCount, bitsIdx, idx := units, 0, 0;
      while blockCount != 0  // units > 0, so the do-while of the source and this loop run alike
        invariant blockCount == Up(units, idx) && LevelReached(units, bitsIdx, idx)
        invariant Initial(units, bits[..], bitmaps[..], idx)
        decreases blockCount
      {
        bitsIdx := FillNextLevel(idx, blockCount, bitsIdx);
        blockCount, idx := blockCount / 2, idx + 1;
      }
    }

    /** The bitmaps of an all-free area. */
    method FillBitmaps()
      requires Layout() && free == AllUnits(units) && used == 0
      requires bits.Length == TotalBytes(units) && bitmaps.Length == Levels(units)
      requires forall at | 0 <= at < bits.Length :: bits[at] == 0
      modifies bits, bitmaps
      ensures Valid()
    {
      BottomLevel(units);
      FillLevels();
      InitialDone(units, bits[..], bitmaps[..]);
    }

    /** buddy_init: every unit is free. */
    constructor (startAddr: nat, totalLen: nat)
      requires startAddr + totalLen <= 0x1_0000_0000_0000_0000 && InitAsserts(totalLen)
      ensures Valid() && fresh(bits) && fresh(bitmaps)
      ensures this.startAddr == startAddr && this.totalLen == totalLen && dataOffset == DataOffset(totalLen)
      ensures dataOffset % 4096 == 0
      ensures dataOffset - 4096 < MetadataLen((totalLen - 1) / 4096 + 1) <= dataOffset
      ensures 4096 * (units - 1) < totalLen - dataOffset <= 4096 * units
      ensures levels > 0 && Pow2(levels - 1) <= units < Pow2(levels)
      ensures 16 * bitmaps.Length + bits.Length == MetadataLen(units) < dataOffset
      ensures free == AllUnits(units) && used == 0
    {
      hide BuddyBitmaps.Levels, AllUnits, Encodes, TotalBytes;
      var fullLen, _, _ := CalcMetadata(totalLen);
      var offset := DivCeil(fullLen, 4096) * 4096;
      var len, n, lv := CalcMetadata(totalLen - offset);
      this.startAddr, this.totalLen, this.metadataLen := startAddr, totalLen, len;
      this.dataOffset, this.units, this.levels, this.used := offset, n, lv, 0;
      this.bits := new byte[len - lv * 16](_ => 0);
      this.bitmaps := new BlockBitmap[lv](_ => BlockBitmap(0, 0));
      this.free := AllUnits(n);
      new;
      LeastOffset(fullLen);
      LeastUnits(totalLen - offset);
      LevelsBounds(n);
      FillBitmaps();
    }

    // ---------- allocation ----------

    /** What a successful allocation at level fit did: it took the leftmost piece, of that level, of the
        lowest maximal free block (level, top) at the lowest level that has one. */
    ghost predicate Took(free0: set<nat>, fit: nat, level: nat, top: nat, block: nat)
      reads this
    {
      && ChosenBlock(free0, fit, level, top)
      && block == Leftmost(top, level - fit)
      && Whole(free0, fit, block)
      && free == free0 - Units(fit, block)
    }

    /** What it returned.  The address is right exactly when the block is cut from a level below 19 or is the first
        of its level, and the length when the fitting level is below 20. */
    ghost predicate Slice(fit: nat, level: nat, top: nat, block: nat, ptr: nat, length: nat)
      reads this
    {
      && ptr == SliceAddr(DataAddr(), level, top) && length == SliceLen(fit)
      && (ptr == BlockAddr(fit, block) <==> level < INT_LEVELS || top == 0)
      && (length == 4096 * Pow2(fit) <==> fit < 20)
    }

    /** set_1(below_bitmap, below_block_index + 1) */
    method FreeRightHalf(k: nat, left: nat, ghost free0: set<nat>)
      requires bits as object != bitmaps && Encoded() && left % 2 == 0
      requires Units(k + 1, left / 2) <= free0 <= AllUnits(units) && free == free0 - Units(k + 1, left / 2)
      modifies this`free, bits, bitmaps
      ensures Encoded()
      ensures Units(k, left) <= free0 && free == free0 - Units(k, left)
    {
      SplitBlock(units, free0, k, left);
      MarkFree(k, left + 1);
    }

    /** set_0 on the chosen block, then the loop that leaves each right half free on the way down. */
    method TakeLeftmost(idx: nat, blockIndex: nat, idxFit: nat) returns (ghost block: nat)
      requires bits as object != bitmaps && Encoded()
      requires idxFit <= idx && Canonical(free, idx, blockIndex)
      modifies this`free, bits, bitmaps
      ensures Encoded()
      ensures block == Leftmost(blockIndex, idx - idxFit)
      ensures Units(idxFit, block) <= old(free) && free == old(free) - Units(idxFit, block)
    {
      hide Units, Encodes, Canonical, Leftmost, AllUnits;
      FreeWithin(units, bits[..], bitmaps[..], free, idx, blockIndex);
      MarkUsed(idx, blockIndex);
      var below, belowIndex := idx, blockIndex;
      LeftmostNone(blockIndex);
      while below > idxFit
        invariant idxFit <= below <= idx && Encoded()
        invariant belowIndex == Leftmost(blockIndex, idx - below)
        invariant Units(below, belowIndex) <= old(free) && free == old(free) - Units(below, belowIndex)
      {
        LeftmostMore(blockIndex, idx - below);
        below := below - 1;
        belowIndex := belowIndex * 2;
        FreeRightHalf(below, belowIndex, old(free));
      }
      block := belowIndex;
    }

    method TakeBlock(idxFit: nat, idx: nat) returns (blockIndex: nat, ghost block: nat)
      requires bits as object != bitmaps && Encoded()
      requires idxFit <= idx < bitmaps.Length && bitmaps[idx].count > 0
      modifies this`free, bits, bitmaps
      ensures Encoded()
      ensures LowestCanonical(old(free), idx, blockIndex) && block == Leftmost(blockIndex, idx - idxFit)
      ensures Units(idxFit, block) <= old(free) && free == old(free) - Units(idxFit, block)
    {
      blockIndex := GetFirst1(idx);
      block := TakeLeftmost(idx, blockIndex, idxFit);
    }

    lemma UsedFits()
      requires Layout()
      ensures 4096 * units < 0x1_0000_0000_0000_0000
    {
      hide BuddyBitmaps.Levels, MetadataLen;
    }

    /** buddy->used += allocated_len */
    method Account(idxFit: nat, ghost free0: set<nat>, ghost block: nat) returns (length: nat)
      requires State() && used < 0x1_0000_0000_0000_0000
      requires Units(idxFit, block) <= free0 <= AllUnits(units) && free == free0 - Units(idxFit, block)
      modifies this`used
      ensures State() && length == SliceLen(idxFit) && used == (old(used) + length) % 0x1_0000_0000_0000_0000
      ensures idxFit < 20 && old(used) == 4096 * (units - |free0|) ==> Valid() && used == old(used) + length
    {
      hide SliceLen, Pow2, BuddyBitmaps.Levels, MetadataLen, UnitsFor, AllUnits, Units, Encodes;
      TakenUnits(units, free0, idxFit, block);
      SliceLenIs(idxFit);
      UsedFits();
      if idxFit < 20 && used == 4096 * (units - |free0|) {
        UsedAfter(units, used, |free0|, Pow2(idxFit));
      }
      length := SliceLen(idxFit);
      used := (used + length) % 0x1_0000_0000_0000_0000;
    }

    lemma StartsInside()
      requires Layout()
      ensures DataAddr() + 4096 * (units - 1) < 0x1_0000_0000_0000_0000
    {
      hide BuddyBitmaps.Levels, MetadataLen;
    }

    method TakeAt(idxFit: nat, idx: nat) returns (ptr: nat, length: nat, ghost block: nat, ghost top: nat)
      requires State() && levels <= INT_BITS && used < 0x1_0000_0000_0000_0000
      requires idxFit <= idx < levels == bitmaps.Length && bitmaps[idx].count > 0
      requires forall l: nat | idxFit <= l < idx :: NoCanonical(free, l)
      modifies this`free, this`used, bits, bitmaps
      ensures State() && Took(old(free), idxFit, idx, top, block)
      ensures Slice(idxFit, idx, top, block, ptr, length)
      ensures used == (old(used) + length) % 0x1_0000_0000_0000_0000
      ensures idxFit < 20 && old(Valid()) ==> Valid() && used == old(used) + length
    {
      hide SliceLen, SliceAddr, Pow2, BuddyBitmaps.Levels, MetadataLen, UnitsFor, AllUnits, Units, Encodes, Offset;
      hide Canonical, NoCanonical, Leftmost;
      ghost var free0, bytes, maps := free, bits[..], bitmaps[..];
      var blockIndex;
      blockIndex, block := TakeBlock(idxFit, idx);
      FreeWithin(units, bytes, maps, free0, idx, blockIndex);
      top := blockIndex;
      length := Account(idxFit, old(free), block);
      ptr := SliceAddr(startAddr + dataOffset, idx, blockIndex);
      LeftmostOffset(idx, blockIndex, idxFit);
      StartsInside();
      SliceLenIs(idxFit);
      AddressRight(startAddr + dataOffset, units, idx, blockIndex);
    }

    /** The search loop of buddy_alloc_slice: the lowest level from idxFit on with a marked block. */
    method FindLevel(idxFit: nat) returns (idx: nat)
      requires Encoded() && levels == bitmaps.Length && idxFit < levels
      ensures idxFit <= idx <= levels
      ensures forall l: nat | idxFit <= l < idx :: NoCanonical(free, l)
      ensures idx < levels ==> bitmaps[idx].count > 0
    {
      hide Encodes, NoCanonical;
      idx := idxFit;
      while idx < levels && bitmaps[idx].count == 0
        invariant idxFit <= idx <= levels
        invariant forall l: nat | idxFit <= l < idx :: NoCanonical(free, l)
      {
        EmptyLevel(units, bits[..], bitmaps[..], free, idx);
        idx := idx + 1;
      }
    }

    lemma ArraysFit()
      requires State()
      ensures levels == bitmaps.Length && levels == Levels(units) && free <= AllUnits(units)
    {
    }

    lemma SliceBounds(fit: nat, level: nat, top: nat, block: nat, ptr: nat, length: nat)
      requires Slice(fit, level, top, block, ptr, length)
      ensures fit < 20 ==> length == 4096 * Pow2(fit)
      ensures ptr == BlockAddr(fit, block) <==> level < INT_LEVELS || top == 0
    {
    }

    lemma TookSome(free0: set<nat>, fit: nat, level: nat, top: nat, block: nat)
      requires Took(free0, fit, level, top, block)
      ensures !NoWhole(free0, fit)
    {
    }

    /** buddy_alloc_slice: NULL when no block of the fitting level is wholly free; else a block is taken.  Rounding up
        wraps to 0 for the last lengths of 64 bits, which so get a single unit; for the others above MAX_LEN the search
        for the level does not end. */
    method AllocSlice(len: nat) returns (ptr: nat, length: nat, ghost block: nat, ghost level: nat, ghost top: nat)
      requires State() && levels <= INT_BITS && used < 0x1_0000_0000_0000_0000
      requires 0 < len <= MAX_LEN || 0xffff_ffff_ffff_f000 < len < 0x1_0000_0000_0000_0000
      modifies this`free, this`used, bits, bitmaps
      ensures State() && (old(Valid()) && AllocLevel(len) < 20 ==> Valid())
      ensures var k := AllocLevel(len);
              if len <= MAX_LEN then len <= 4096 * Pow2(k) && (k > 0 ==> 4096 * Pow2(k - 1) < len) else k == 0
      ensures NoWhole(old(free), AllocLevel(len)) ==>
                ptr == 0 && length == 0 && unchanged(this) && unchanged(bits) && unchanged(bitmaps)
      ensures !NoWhole(old(free), AllocLevel(len)) ==>
                && Took(old(free), AllocLevel(len), level, top, block) && level < levels
                && Slice(AllocLevel(len), level, top, block, ptr, length)
                && (AllocLevel(len) < 20 ==> (length >= len <==> len <= MAX_LEN))
                && used == (old(used) + length) % 0x1_0000_0000_0000_0000
    {
      hide AllocLevel, Pow2, PageCeil, Fit, AllUnits;
      hide Whole, Slice, SliceLen, Took, Encodes, BuddyBitmaps.Levels, MetadataLen, UnitsFor, NoCanonical, NoWhole;
      block, level, top := 0, 0, 0;
      var alignedLen := PageCeil(len) % 0x1_0000_0000_0000_0000;
      AlignedLen(len);
      AllocLevelBounds(len);
      var idxFit := BitmapIndexForSize(alignedLen);
      ArraysFit();
      if idxFit >= levels {
        TooLarge(units, free, idxFit);
        return 0, 0, 0, 0, 0;
      }
      var idx := FindLevel(idxFit);
      if idx == levels {
        NoneAtAnyLevel(units, free, idxFit);
        return 0, 0, 0, 0, 0;
      }
      ptr, length, block, top := TakeAt(idxFit, idx);
      SliceBounds(idxFit, idx, top, block, ptr, length);
      TookSome(old(free), idxFit, idx, top, block);
      level := idx;
    }

    // ---------- deallocation ----------

    /** The number of the unit that holds an address. */
    function UnitOf(addr: nat): nat
      requires DataAddr() <= addr
      reads this
    {
      (addr - DataAddr()) / 4096
    }

    /** The level and index of the block that buddy_dealloc(addr, len) frees. */
    function FreedLevel(addr: nat, len: nat): nat
    {
      Fit(CoveredUnits(addr, len))
    }

    function FreedIndex(addr: nat, len: nat): nat
      requires DataAddr() <= addr
      reads this
    {
      Up((addr - DataAddr()) / 4096, FreedLevel(addr, len))
    }

    /** buddy->used -= BUDDY_UNIT << bitmap_idx_fit */
    method Unaccount(idxFit: nat, ghost free0: set<nat>, ghost block: nat)
      requires State() && used == 4096 * (units - |free0|)
      requires free0 <= AllUnits(units) && Units(idxFit, block) <= AllUnits(units) - free0
      requires free == free0 + Units(idxFit, block)
      modifies this`used
      ensures Valid()
      ensures used == old(used) - 4096 * Pow2(idxFit)
    {
      AddBlockUnits(units, free0, idxFit, block);
      used := used - 4096 * Pow2(idxFit);
    }

    lemma AlignedEnd()
      requires Layout() && Aligned()
      ensures DataAddr() % 4096 == 0 && (startAddr + totalLen) % 4096 == 0 && dataOffset % 4096 == 0
      ensures totalLen == dataOffset + units * 4096
    {
      hide BuddyBitmaps.Levels, MetadataLen, UnitsFor;
      SumOfUnits(startAddr, dataOffset);
      SumOfUnits(startAddr, totalLen);
      RestOfUnits(totalLen, dataOffset);
      WholeUnits(totalLen - dataOffset);
    }

    lemma UnitsAre(addr: nat, len: nat)
      requires DataAddr() % 4096 == 0 && DataAddr() <= addr && len > 0
      ensures UnitOf(addr) == (addr - DataAddr()) / 4096
      ensures UnitOf(addr) <= UnitOf(addr + len - 1)
      ensures CoveredUnits(addr, len) == UnitOf(addr + len - 1) - UnitOf(addr) + 1
    {
      hide CoveredUnits;
      CoveredIs(DataAddr(), addr, len);
    }

    /** The address arithmetic of buddy_dealloc, with its two range assertions. */
    method BlockToFree(addr: nat, len: nat) returns (idxFit: nat, blockIndex: nat)
      requires Layout() && Aligned() && len > 0 && FreedLevel(addr, len) < INT_LEVELS
      requires DataAddr() <= addr && addr + len <= startAddr + totalLen
      ensures idxFit == FreedLevel(addr, len) && blockIndex == FreedIndex(addr, len)
      ensures var first, last := UnitOf(addr), UnitOf(addr + len - 1);
              first <= last && blockIndex == first / Pow2(idxFit) && LeastLevel(last - first + 1, idxFit)
    {
      hide Fit, Pow2, LeastLevel, Quotient, Up, PageFloor, PageCeil, CoveredUnits, BlockIndex, BuddyBitmaps.Levels;
      hide MetadataLen, UnitOf;
      AlignedEnd();
      UnitsAre(addr, len);
      var dataAddr := startAddr + dataOffset;
      var dataEnd := dataAddr + (totalLen - dataOffset);
      var alignedAddr := PageFloor(addr);
      var alignedEnd := PageCeil(addr + len);
      AlignedRange(dataAddr, dataEnd, addr, len);
      assert dataAddr <= alignedAddr < dataEnd;
      assert dataAddr < alignedEnd <= dataEnd;
      SmallLevel(CoveredUnits(addr, len));
      idxFit := BitmapIndexForSize(alignedEnd - alignedAddr);
      blockIndex := BlockIndex(alignedAddr - dataAddr, idxFit);
      FreedBlock(dataAddr, addr, idxFit);
      FitIsLeast(CoveredUnits(addr, len));
      UpQuotient((addr - dataAddr) / 4096, idxFit);
    }

    /** set_0(bitmap, buddy_index); set_0(bitmap, block_index) right after set_1(bitmap, block_index). */
    method ClearBoth(k: nat, i: nat, ghost bytes: seq<byte>, ghost maps: seq<BlockBitmap>)
      requires InArrays(k, i) && BitSlot(units, k, i) && BitSlot(units, k, Buddy(i))
      requires |bytes| == TotalBytes(units) && ByteIndex(units, k, i) < |bytes| && k < |maps|
      requires !LevelBit(units, bytes, k, i) && LevelBit(units, bytes, k, Buddy(i)) && maps[k].count > 0
      requires bits[..] == WithBitSet(units, bytes, k, i) && bitmaps[..] == WithCount(maps, k, 1)
      modifies bits, bitmaps
      ensures ByteIndex(units, k, Buddy(i)) < |bytes| && bits[..] == WithBitClear(units, bytes, k, Buddy(i))
      ensures bitmaps[..] == WithCount(maps, k, -1)
    {
      MergeBytes(units, bytes, k, i);
      WithBitSetBits(units, bytes, k, i, k, Buddy(i));
      Set0(k, Buddy(i));
      WithBitSetBits(units, bytes, k, i, k, i);
      WithBitClearBits(units, WithBitSet(units, bytes, k, i), k, Buddy(i), k, i);
      Set0(k, i);
    }

    /** One round of it: set_1, then either stop or clear both halves and go on with the parent. */
    method FreeOrMerge(k: nat, i: nat, ghost target: set<nat>) returns (merged: bool)
      requires bits as object != bitmaps && Encoded() && levels == bitmaps.Length
      requires Units(k, i) <= target <= AllUnits(units) && free == target - Units(k, i)
      modifies this`free, bits, bitmaps
      ensures Encoded()
      ensures !merged ==> free == target
      ensures merged ==> k + 1 < levels && Units(k + 1, i / 2) <= target && free == target - Units(k + 1, i / 2)
    {
      hide Encodes, Units, AllUnits, BuddyBitmaps.Levels, WithBitSet, WithBitClear, LevelBit, BitSlot, ByteIndex;
      hide BitsStart;
      ghost var bytes, maps := bits[..], bitmaps[..];
      FreeingState(units, bytes, maps, free, target, k, i);
      var before := GetBit(k, i);
      assert !before;
      Set1(k, i);
      var buddyFree := GetBit(k, Buddy(i));
      merged := buddyFree && k + 1 < levels;
      if merged {
        ClearBoth(k, i, bytes, maps);
        free := free - Units(k, Buddy(i));
      } else {
        free := target;
      }
    }

    /** The coalescing loop: free the block, merging with its buddy for as long as that is wholly free. */
    method FreeBlock(idxFit: nat, blockIndex: nat)
      requires bits as object != bitmaps && Encoded() && idxFit < levels == bitmaps.Length
      requires Units(idxFit, blockIndex) <= AllUnits(units) - free
      modifies this`free, bits, bitmaps
      ensures Encoded() && free == old(free) + Units(idxFit, blockIndex)
    {
      ghost var target := free + Units(idxFit, blockIndex);
      var current, index, merged := idxFit, blockIndex, true;
      while merged
        invariant Encoded() && bitmaps.Length == levels
        invariant merged ==> Units(current, index) <= target && free == target - Units(current, index)
        invariant merged ==> current <= levels
        invariant !merged ==> free == target
        decreases merged, levels - current
      {
        merged := FreeOrMerge(current, index, target);
        if merged {
          index, current := index / 2, current + 1;
        }
      }
    }

    /** The part of buddy_dealloc after the test for an empty range. */
    method FreeRange(addr: nat, len: nat)
      requires Valid() && Aligned() && len > 0 && DataAddr() <= addr && addr + len <= startAddr + totalLen
      requires FreedLevel(addr, len) < levels && FreedLevel(addr, len) < INT_LEVELS
      requires Units(FreedLevel(addr, len), FreedIndex(addr, len)) <= AllUnits(units) - free
      modifies this`free, this`used, bits, bitmaps
      ensures Valid()
      ensures free == old(free) + old(Units(FreedLevel(addr, len), FreedIndex(addr, len)))
      ensures used == old(used) - 4096 * Pow2(FreedLevel(addr, len))
      ensures old(UnitOf(addr) <= UnitOf(addr + len - 1))
      ensures RunFreed(old(free), free, old(UnitOf(addr)), old(UnitOf(addr + len - 1) - UnitOf(addr) + 1),
                       Pow2(FreedLevel(addr, len)))
    {
      hide Units, LeastLevel, FreedLevel, FreedIndex, AllUnits, Encodes, UnitsFor, RunFreed, Pow2;
      hide BuddyBitmaps.Levels, MetadataLen, UnitOf;
      ghost var first, last := UnitOf(addr), UnitOf(addr + len - 1);
      ArraysFit();
      var idxFit, blockIndex := BlockToFree(addr, len);
      BlockFreed(free, idxFit, blockIndex, first, last - first + 1);
      FreeBlock(idxFit, blockIndex);
      Unaccount(idxFit, old(free), blockIndex);
    }

    /** buddy_dealloc.  The caller owes that the block it computes is in range and has no free unit: the run of the
        least power of two of units, around the first one, that is large enough. */
    method Dealloc(addr: nat, len: nat)
      requires Valid()
      requires len > 0 ==>
                 && Aligned() && DataAddr() <= addr && addr + len <= startAddr + totalLen
                 && FreedLevel(addr, len) < levels && FreedLevel(addr, len) < INT_LEVELS
                 && Units(FreedLevel(addr, len), FreedIndex(addr, len)) <= AllUnits(units) - free
      modifies this`free, this`used, bits, bitmaps
      ensures Valid()
      ensures len == 0 ==> unchanged(this) && unchanged(bits) && unchanged(bitmaps)
      ensures len > 0 ==>
                && free == old(free) + old(Units(FreedLevel(addr, len), FreedIndex(addr, len)))
                && used == old(used) - 4096 * Pow2(FreedLevel(addr, len))
      ensures len > 0 ==>
                && old(UnitOf(addr) <= UnitOf(addr + len - 1))
                && RunFreed(old(free), free, old(UnitOf(addr)), old(UnitOf(addr + len - 1) - UnitOf(addr) + 1),
                            Pow2(FreedLevel(addr, len)))
    {
      hide Units, FreedLevel, FreedIndex, AllUnits, Encodes, RunFreed, Pow2, UnitOf;
      if len != 0 {
        FreeRange(addr, len);
      }
    }
  }
}
