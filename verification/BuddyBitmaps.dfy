/** The layout of the buddy bitmaps in memory, and what it means for them to encode a free set.

    All levels share one byte array (total_bits in buddy_init); level k starts at BitsStart(n, k) and
    has one bit for each of its n >> k blocks, rounded up to whole bytes. */
module BuddyBitmaps {
  import opened Powers
  import opened ByteBits
  import opened Blocks
  import Pigeonhole

  /** struct block_bitmap, with the bits pointer as an offset into total_bits. */
  datatype BlockBitmap = BlockBitmap(bits: nat, count: nat)

  /** Number of levels: how often n can be halved before it reaches zero. */
  function Levels(n: nat): nat
  {
    if n == 0 then 0 else 1 + Levels(n / 2)
  }

  /** Bytes of level k: (block_count - 1) / 8 + 1. */
  function BytesFor(n: nat, k: nat): nat
  {
    (Up(n, k) + 7) / 8
  }

  /** Offset of level k in total_bits. */
  function BitsStart(n: nat, k: nat): nat
  {
    if k == 0 then 0 else BitsStart(n, k - 1) + BytesFor(n, k - 1)
  }

  function TotalBytes(n: nat): nat
  {
    BitsStart(n, Levels(n))
  }

  /** The byte that holds bit i of level k. */
  function ByteIndex(n: nat, k: nat, i: nat): nat
  {
    BitsStart(n, k) + i / 8
  }

  /** Bit i of level k is set. */
  predicate LevelBit(n: nat, bytes: seq<byte>, k: nat, i: nat)
  {
    var at := ByteIndex(n, k, i);
    at < |bytes| && Bit(bytes[at], i % 8)
  }

  /** i indexes a bit, possibly a padding bit, of level k. */
  predicate BitSlot(n: nat, k: nat, i: nat)
  {
    k < Levels(n) && i < 8 * BytesFor(n, k)
  }

  // ---------- layout ----------

  lemma {:induction false} LevelsNonEmpty(n: nat, k: nat)
    ensures k < Levels(n) <==> Up(n, k) > 0
    decreases k
  {
    if n == 0 {
      UpZero(k);
    } else if k != 0 {
      LevelsNonEmpty(n / 2, k - 1);
    }
  }

  /** Halving the block count moves up one level; the count reaches zero one past the last level. */
  lemma NextLevel(n: nat, k: nat)
    requires Up(n, k) > 0
    ensures k < Levels(n) && Up(n, k + 1) == Up(n, k) / 2
    ensures if Up(n, k) / 2 > 0 then k + 1 < Levels(n) else k + 1 == Levels(n)
    ensures BitsStart(n, k + 1) == BitsStart(n, k) + (Up(n, k) - 1) / 8 + 1
  {
    UpLast(n, k + 1);
    LevelsNonEmpty(n, k);
    LevelsNonEmpty(n, k + 1);
  }

  lemma BottomLevel(n: nat)
    ensures Up(n, 0) == n && BitsStart(n, 0) == 0
  {
  }

  lemma {:induction false} BitsStartMonotone(n: nat, k: nat, l: nat)
    requires k <= l
    ensures BitsStart(n, k) <= BitsStart(n, l)
    decreases l
  {
    if k >= l {
    } else {
      BitsStartMonotone(n, k, l - 1);
    }
  }

  lemma SlotInBounds(n: nat, k: nat, i: nat)
    requires BitSlot(n, k, i)
    ensures ByteIndex(n, k, i) < TotalBytes(n)
  {
    BitsStartMonotone(n, k + 1, Levels(n));
  }

  lemma LastByteInBounds(n: nat, k: nat)
    requires k < Levels(n)
    ensures BytesFor(n, k) == (Up(n, k) - 1) / 8 + 1
    ensures BitsStart(n, k) + BytesFor(n, k) - 1 < TotalBytes(n)
  {
    LevelsNonEmpty(n, k);
    BitsStartMonotone(n, k + 1, Levels(n));
  }

  lemma SlotsDistinct(n: nat, k: nat, i: nat, l: nat, j: nat)
    requires BitSlot(n, k, i) && BitSlot(n, l, j)
    requires ByteIndex(n, k, i) == ByteIndex(n, l, j) && i % 8 == j % 8
    ensures k == l && i == j
  {
    if k < l {
      BitsStartMonotone(n, k + 1, l);
    } else if l < k {
      BitsStartMonotone(n, l + 1, k);
    }
  }

  lemma WholeBytes(count: nat, i: nat)
    requires i < count
    ensures i < 8 * ((count + 7) / 8) && Buddy(i) < 8 * ((count + 7) / 8)
  {
  }

  /** A block in range and its buddy both have a bit: the buddy of an odd level's last block has a padding bit. */
  lemma BlockHasSlots(n: nat, k: nat, i: nat)
    requires i < Up(n, k)
    ensures BitSlot(n, k, i) && BitSlot(n, k, Buddy(i))
  {
    hide Up, Levels, BitsStart;
    LevelsNonEmpty(n, k);
    WholeBytes(Up(n, k), i);
  }

  // ---------- writing one bit ----------

  /** total_bits after set_1(level k, block i). */
  function WithBitSet(n: nat, bytes: seq<byte>, k: nat, i: nat): seq<byte>
    requires ByteIndex(n, k, i) < |bytes|
  {
    var at := ByteIndex(n, k, i);
    bytes[at := bytes[at] | Mask(i % 8)]
  }

  /** total_bits after set_0(level k, block i). */
  function WithBitClear(n: nat, bytes: seq<byte>, k: nat, i: nat): seq<byte>
    requires ByteIndex(n, k, i) < |bytes|
  {
    var at := ByteIndex(n, k, i);
    bytes[at := bytes[at] & !Mask(i % 8)]
  }

  /** The bitmap descriptors after the count of level k changes by d. */
  function WithCount(bitmaps: seq<BlockBitmap>, k: nat, d: int): seq<BlockBitmap>
    requires k < |bitmaps| && bitmaps[k].count + d >= 0
  {
    bitmaps[k := bitmaps[k].(count := bitmaps[k].count + d)]
  }

  lemma OneBitSet(bytes: seq<byte>, at: nat, a: nat, other: nat, b: nat)
    requires at < |bytes| && other < |bytes| && a < 8 && b < 8
    ensures Bit(bytes[at := bytes[at] | Mask(a)][other], b) <==> Bit(bytes[other], b) || (other == at && b == a)
  {
    OrMask(bytes[at], a, b);
    hide Bit, Mask;
  }

  lemma OneBitClear(bytes: seq<byte>, at: nat, a: nat, other: nat, b: nat)
    requires at < |bytes| && other < |bytes| && a < 8 && b < 8
    ensures Bit(bytes[at := bytes[at] & !Mask(a)][other], b) <==> Bit(bytes[other], b) && !(other == at && b == a)
  {
    AndNotMask(bytes[at], a, b);
    hide Bit, Mask;
  }

  lemma SetAt(n: nat, bytes: seq<byte>, k: nat, i: nat, l: nat, j: nat)
    requires ByteIndex(n, k, i) < |bytes| && ByteIndex(n, l, j) < |bytes|
    ensures LevelBit(n, WithBitSet(n, bytes, k, i), l, j) <==>
            LevelBit(n, bytes, l, j) || (ByteIndex(n, l, j) == ByteIndex(n, k, i) && j % 8 == i % 8)
  {
    hide ByteIndex, Mask, Bit;
    OneBitSet(bytes, ByteIndex(n, k, i), i % 8, ByteIndex(n, l, j), j % 8);
  }

  lemma ClearedAt(n: nat, bytes: seq<byte>, k: nat, i: nat, l: nat, j: nat)
    requires ByteIndex(n, k, i) < |bytes| && ByteIndex(n, l, j) < |bytes|
    ensures LevelBit(n, WithBitClear(n, bytes, k, i), l, j) <==>
            LevelBit(n, bytes, l, j) && !(ByteIndex(n, l, j) == ByteIndex(n, k, i) && j % 8 == i % 8)
  {
    hide ByteIndex, Mask, Bit;
    OneBitClear(bytes, ByteIndex(n, k, i), i % 8, ByteIndex(n, l, j), j % 8);
  }

  lemma WithBitSetBits(n: nat, bytes: seq<byte>, k: nat, i: nat, l: nat, j: nat)
    requires |bytes| == TotalBytes(n) && BitSlot(n, k, i) && BitSlot(n, l, j)
    requires ByteIndex(n, k, i) < |bytes|
    ensures LevelBit(n, WithBitSet(n, bytes, k, i), l, j) <==> LevelBit(n, bytes, l, j) || (l == k && j == i)
  {
    hide Mask, Bit, ByteIndex, BitSlot, TotalBytes, LevelBit, WithBitSet;
    SlotInBounds(n, l, j);
    SetAt(n, bytes, k, i, l, j);
    if ByteIndex(n, k, i) == ByteIndex(n, l, j) && i % 8 == j % 8 {
      SlotsDistinct(n, k, i, l, j);
    }
  }

  lemma WithBitClearBits(n: nat, bytes: seq<byte>, k: nat, i: nat, l: nat, j: nat)
    requires |bytes| == TotalBytes(n) && BitSlot(n, k, i) && BitSlot(n, l, j)
    requires ByteIndex(n, k, i) < |bytes|
    ensures LevelBit(n, WithBitClear(n, bytes, k, i), l, j) <==> LevelBit(n, bytes, l, j) && !(l == k && j == i)
  {
    hide Mask, Bit, ByteIndex, BitSlot, TotalBytes, LevelBit, WithBitClear;
    SlotInBounds(n, l, j);
    ClearedAt(n, bytes, k, i, l, j);
    if ByteIndex(n, k, i) == ByteIndex(n, l, j) && i % 8 == j % 8 {
      SlotsDistinct(n, k, i, l, j);
    }
  }

  lemma BuddySameByte(i: nat)
    ensures Buddy(i) / 8 == i / 8
  {
    var q, h := i / 8, i / 2;
    assert h / 4 == q && 4 * q <= h <= 4 * q + 3;
    assert 8 * q <= Buddy(i) <= 8 * q + 7;
  }

  lemma MergeByte(b: bv8, m: bv8, m': bv8)
    requires b & m == 0
    ensures ((b | m) & !m') & !m == b & !m'
  {
  }

  /** Setting a clear bit, then clearing its buddy and the bit itself, only clears the buddy. */
  lemma MergeBytes(n: nat, bytes: seq<byte>, k: nat, i: nat)
    requires |bytes| == TotalBytes(n) && BitSlot(n, k, i) && BitSlot(n, k, Buddy(i))
    requires ByteIndex(n, k, i) < |bytes| && !LevelBit(n, bytes, k, i)
    ensures ByteIndex(n, k, Buddy(i)) == ByteIndex(n, k, i)
    ensures WithBitClear(n, WithBitClear(n, WithBitSet(n, bytes, k, i), k, Buddy(i)), k, i)
         == WithBitClear(n, bytes, k, Buddy(i))
  {
    BuddySameByte(i);
    MergeByte(bytes[ByteIndex(n, k, i)], Mask(i % 8), Mask(Buddy(i) % 8));
  }

  // ---------- what the bitmaps encode ----------

  /** The bits set at level k for a free set. */
  function CanonicalSet(n: nat, free: set<nat>, k: nat): set<nat>
  {
    set i: nat | i < Up(n, k) && Canonical(free, k, i)
  }

  /** Every bit, padding included, is set exactly for the maximal free blocks. */
  ghost predicate BitsEncode(n: nat, bytes: seq<byte>, free: set<nat>)
  {
    && |bytes| == TotalBytes(n)
    && forall k, i | BitSlot(n, k, i) :: LevelBit(n, bytes, k, i) <==> Canonical(free, k, i)
  }

  /** Every cached count is the number of set bits of its level. */
  ghost predicate CountsEncode(n: nat, bitmaps: seq<BlockBitmap>, free: set<nat>)
  {
    && |bitmaps| == Levels(n)
    && forall k | 0 <= k < |bitmaps| ::
         bitmaps[k] == BlockBitmap(BitsStart(n, k), |CanonicalSet(n, free, k)|)
  }

  ghost predicate Encodes(n: nat, bytes: seq<byte>, bitmaps: seq<BlockBitmap>, free: set<nat>)
  {
    free <= AllUnits(n) && BitsEncode(n, bytes, free) && CountsEncode(n, bitmaps, free)
  }

  lemma SetBitsEncode(n: nat, bytes: seq<byte>, free: set<nat>, k: nat, i: nat)
    requires BitsEncode(n, bytes, free) && BitSlot(n, k, i) && ByteIndex(n, k, i) < |bytes|
    requires Units(k, i) !! free && !Whole(free, k, Buddy(i))
    ensures BitsEncode(n, WithBitSet(n, bytes, k, i), free + Units(k, i))
  {
    var bytes', free' := WithBitSet(n, bytes, k, i), free + Units(k, i);
    forall l, j | BitSlot(n, l, j)
      ensures LevelBit(n, bytes', l, j) <==> Canonical(free', l, j)
    {
      WithBitSetBits(n, bytes, k, i, l, j);
      AddBlock(free, k, i, l, j);
    }
  }

  lemma SetCanonicalSet(n: nat, free: set<nat>, k: nat, i: nat, l: nat)
    requires Units(k, i) !! free && !Whole(free, k, Buddy(i)) && i < Up(n, k)
    ensures CanonicalSet(n, free + Units(k, i), l) == CanonicalSet(n, free, l) + if l == k then {i} else {}
    ensures i !in CanonicalSet(n, free, k)
  {
    FirstUnit(k, i);
    var cs := CanonicalSet(n, free, l);
    forall j: nat
      ensures j in CanonicalSet(n, free + Units(k, i), l) <==> j in cs || (l == k && j == i)
    {
      AddBlock(free, k, i, l, j);
    }
  }

  lemma SetCountsEncode(n: nat, bitmaps: seq<BlockBitmap>, free: set<nat>, k: nat, i: nat)
    requires CountsEncode(n, bitmaps, free) && k < |bitmaps| && i < Up(n, k)
    requires Units(k, i) !! free && !Whole(free, k, Buddy(i))
    ensures CountsEncode(n, WithCount(bitmaps, k, 1), free + Units(k, i))
  {
    var free' := free + Units(k, i);
    var bitmaps' := WithCount(bitmaps, k, 1);
    forall l | 0 <= l < |bitmaps'|
      ensures bitmaps'[l] == BlockBitmap(BitsStart(n, l), |CanonicalSet(n, free', l)|)
    {
      SetCanonicalSet(n, free, k, i, l);
      FirstUnit(k, i);
    }
  }

  /** set_1 on a block whose buddy is not wholly free moves the encoding to the larger free set. */
  lemma SetEncodes(n: nat, bytes: seq<byte>, bitmaps: seq<BlockBitmap>, free: set<nat>, k: nat, i: nat)
    requires Encodes(n, bytes, bitmaps, free)
    requires Units(k, i) !! free && !Whole(free, k, Buddy(i)) && i < Up(n, k)
    ensures k < |bitmaps| && ByteIndex(n, k, i) < |bytes| && !LevelBit(n, bytes, k, i)
    ensures Encodes(n, WithBitSet(n, bytes, k, i),
                    WithCount(bitmaps, k, 1), free + Units(k, i))
  {
    BlockHasSlots(n, k, i);
    SlotInBounds(n, k, i);
    InRange(n, k, i);
    FirstUnit(k, i);
    SetBitsEncode(n, bytes, free, k, i);
    SetCountsEncode(n, bitmaps, free, k, i);
  }

  lemma ClearBitsEncode(n: nat, bytes: seq<byte>, free: set<nat>, k: nat, i: nat)
    requires BitsEncode(n, bytes, free) && BitSlot(n, k, i) && ByteIndex(n, k, i) < |bytes|
    requires Canonical(free, k, i)
    ensures BitsEncode(n, WithBitClear(n, bytes, k, i), free - Units(k, i))
  {
    var bytes', free' := WithBitClear(n, bytes, k, i), free - Units(k, i);
    forall l, j | BitSlot(n, l, j)
      ensures LevelBit(n, bytes', l, j) <==> Canonical(free', l, j)
    {
      WithBitClearBits(n, bytes, k, i, l, j);
      RemoveBlock(free, k, i, l, j);
    }
  }

  lemma ClearCanonicalSet(n: nat, free: set<nat>, k: nat, i: nat, l: nat)
    requires Canonical(free, k, i)
    ensures CanonicalSet(n, free - Units(k, i), l) == CanonicalSet(n, free, l) - if l == k then {i} else {}
  {
    var cs := CanonicalSet(n, free, l);
    forall j: nat
      ensures j in CanonicalSet(n, free - Units(k, i), l) <==> j in cs && !(l == k && j == i)
    {
      RemoveBlock(free, k, i, l, j);
    }
  }

  lemma ClearCountsEncode(n: nat, bitmaps: seq<BlockBitmap>, free: set<nat>, k: nat, i: nat)
    requires CountsEncode(n, bitmaps, free) && k < |bitmaps|
    requires Canonical(free, k, i) && i in CanonicalSet(n, free, k) && bitmaps[k].count > 0
    ensures CountsEncode(n, WithCount(bitmaps, k, -1), free - Units(k, i))
  {
    var free' := free - Units(k, i);
    var bitmaps' := WithCount(bitmaps, k, -1);
    forall l | 0 <= l < |bitmaps'|
      ensures bitmaps'[l] == BlockBitmap(BitsStart(n, l), |CanonicalSet(n, free', l)|)
    {
      ClearCanonicalSet(n, free, k, i, l);
    }
  }

  /** set_0 on a set bit moves the encoding to the smaller free set. */
  lemma ClearEncodes(n: nat, bytes: seq<byte>, bitmaps: seq<BlockBitmap>, free: set<nat>, k: nat, i: nat)
    requires Encodes(n, bytes, bitmaps, free)
    requires Canonical(free, k, i)
    ensures k < |bitmaps| && bitmaps[k].count > 0
    ensures ByteIndex(n, k, i) < |bytes| && LevelBit(n, bytes, k, i)
    ensures Encodes(n, WithBitClear(n, bytes, k, i),
                    WithCount(bitmaps, k, -1), free - Units(k, i))
  {
    InRange(n, k, i);
    BlockHasSlots(n, k, i);
    SlotInBounds(n, k, i);
    assert i in CanonicalSet(n, free, k);
    ClearBitsEncode(n, bytes, free, k, i);
    ClearCountsEncode(n, bitmaps, free, k, i);
  }

  // ---------- the encoding is one-to-one ----------

  lemma {:induction false} LevelOfByte(n: nat, at: nat, top: nat) returns (k: nat)
    requires at < BitsStart(n, top)
    ensures k < top && BitsStart(n, k) <= at < BitsStart(n, k) + BytesFor(n, k)
  {
    if BitsStart(n, top - 1) <= at {
      k := top - 1;
    } else {
      k := LevelOfByte(n, at, top - 1);
    }
  }

  /** The bytes and counts are a function of the free set. */
  lemma EncodingUnique(n: nat, bytes: seq<byte>, bitmaps: seq<BlockBitmap>,
                       bytes': seq<byte>, bitmaps': seq<BlockBitmap>, free: set<nat>)
    requires Encodes(n, bytes, bitmaps, free) && Encodes(n, bytes', bitmaps', free)
    ensures bytes == bytes' && bitmaps == bitmaps'
  {
    forall at | 0 <= at < |bytes|
      ensures bytes[at] == bytes'[at]
    {
      var k := LevelOfByte(n, at, Levels(n));
      forall b: nat | b < 8
        ensures Bit(bytes[at], b) == Bit(bytes'[at], b)
      {
        var i := 8 * (at - BitsStart(n, k)) + b;
        assert BitSlot(n, k, i) && ByteIndex(n, k, i) == at && i % 8 == b;
        assert LevelBit(n, bytes, k, i) == LevelBit(n, bytes', k, i);
      }
      Extensional(bytes[at], bytes'[at]);
    }
  }

  /** The free set is a function of the bits: a unit is free exactly when some block above it is marked. */
  lemma FreeUnitMarked(n: nat, bytes: seq<byte>, free: set<nat>, u: nat)
    requires free <= AllUnits(n) && BitsEncode(n, bytes, free)
    ensures u in free <==> exists k: nat :: BitSlot(n, k, Up(u, k)) && LevelBit(n, bytes, k, Up(u, k))
  {
    if u in free {
      LevelsNonEmpty(n, Levels(n));
      var k := MaximalAbove(n, free, 0, u, Levels(n));
      InRange(n, k, Up(u, k));
      BlockHasSlots(n, k, Up(u, k));
    }
    if k: nat :| BitSlot(n, k, Up(u, k)) && LevelBit(n, bytes, k, Up(u, k)) {
      UnitsUp(k, Up(u, k), u);
    }
  }

  /** Two free sets with the same bits are the same. */
  lemma FreeSetUnique(n: nat, bytes: seq<byte>, free: set<nat>, free': set<nat>)
    requires free <= AllUnits(n) && free' <= AllUnits(n)
    requires BitsEncode(n, bytes, free) && BitsEncode(n, bytes, free')
    ensures free == free'
  {
    forall u: nat
      ensures u in free <==> u in free'
    {
      FreeUnitMarked(n, bytes, free, u);
      FreeUnitMarked(n, bytes, free', u);
    }
  }

  /** Two buddies are never both marked. */
  lemma BuddiesNotBothMarked(n: nat, bytes: seq<byte>, free: set<nat>, k: nat, i: nat)
    requires BitsEncode(n, bytes, free)
    requires BitSlot(n, k, i) && LevelBit(n, bytes, k, i) && BitSlot(n, k, Buddy(i))
    ensures !LevelBit(n, bytes, k, Buddy(i))
  {
    ParentUnits(k, i);
  }

  // ---------- conservation ----------

  /** Blocks of level k covered by the marked blocks of levels k and above: the sum over those levels
      l of count * 2^(l - k), evaluated from the top level down. */
  ghost function MarkedFrom(bitmaps: seq<BlockBitmap>, k: nat): nat
    requires k <= |bitmaps|
    decreases |bitmaps| - k
  {
    if k == |bitmaps| then 0 else bitmaps[k].count + 2 * MarkedFrom(bitmaps, k + 1)
  }

  /** Units covered by all marked blocks: the sum of count * 2^level. */
  ghost function MarkedUnits(bitmaps: seq<BlockBitmap>): nat
  {
    MarkedFrom(bitmaps, 0)
  }

  ghost function WholeSet(n: nat, free: set<nat>, k: nat): set<nat>
  {
    set i: nat | i < Up(n, k) && Whole(free, k, i)
  }

  /** Each parent has two children. */
  lemma {:induction false} ChildrenSize(children: set<nat>, parents: set<nat>)
    requires forall i: nat :: i in children <==> i / 2 in parents
    ensures |children| == 2 * |parents|
    decreases |parents|
  {
    if parents == {} {
      assert children == {} by {
        assert forall i: nat :: i !in children;
      }
    } else {
      var p :| p in parents;
      var a, b := 2 * p, 2 * p + 1;
      assert a / 2 == p && b / 2 == p;
      var others := children - {a} - {b};
      forall i: nat
        ensures i in others <==> i / 2 in parents - {p}
      {
        assert i / 2 == p <==> i == a || i == b;
      }
      assert |parents - {p}| == |parents| - 1;
      ChildrenSize(others, parents - {p});
      assert |children| == |children - {a}| + 1;
    }
  }

  lemma WholeInRange(n: nat, free: set<nat>, k: nat, i: nat)
    requires free <= AllUnits(n)
    ensures i in WholeSet(n, free, k) <==> Whole(free, k, i)
  {
    InRange(n, k, i);
  }

  lemma WholeSetSplits(n: nat, free: set<nat>, k: nat)
    requires free <= AllUnits(n)
    ensures |WholeSet(n, free, k)| == |CanonicalSet(n, free, k)| + 2 * |WholeSet(n, free, k + 1)|
  {
    var parents, canonical := WholeSet(n, free, k + 1), CanonicalSet(n, free, k);
    var children := WholeSet(n, free, k) - canonical;
    forall i: nat
      ensures i in children <==> i / 2 in parents
      ensures i in canonical ==> i in WholeSet(n, free, k)
    {
      WholeInRange(n, free, k, i);
      WholeInRange(n, free, k + 1, i / 2);
      ParentUnits(k, i);
    }
    ChildrenSize(children, parents);
    Pigeonhole.DisjointUnionSize(canonical, children);
    assert WholeSet(n, free, k) == canonical + children;
  }

  lemma NoBlockAboveTop(n: nat, free: set<nat>)
    ensures |WholeSet(n, free, Levels(n))| == 0
  {
    LevelsNonEmpty(n, Levels(n));
    assert Up(n, Levels(n)) == 0;
    assert WholeSet(n, free, Levels(n)) == {};
  }

  lemma {:induction false} MarkedFromWhole(n: nat, bitmaps: seq<BlockBitmap>, free: set<nat>, k: nat)
    requires free <= AllUnits(n) && CountsEncode(n, bitmaps, free) && k <= |bitmaps|
    ensures MarkedFrom(bitmaps, k) == |WholeSet(n, free, k)|
    decreases |bitmaps| - k
  {
    if k == |bitmaps| {
      NoBlockAboveTop(n, free);
    } else {
      MarkedFromWhole(n, bitmaps, free, k + 1);
      WholeSetSplits(n, free, k);
      assert bitmaps[k].count == |CanonicalSet(n, free, k)|;
    }
  }

  /** The counts account for every free unit: the sum of count * 2^level is the number of free units. */
  lemma CountsConserve(n: nat, bytes: seq<byte>, bitmaps: seq<BlockBitmap>, free: set<nat>)
    requires Encodes(n, bytes, bitmaps, free)
    ensures MarkedUnits(bitmaps) == |free|
  {
    MarkedFromWhole(n, bitmaps, free, 0);
    assert WholeSet(n, free, 0) == free;
  }
}
