/** Sizing of the buddy metadata area (buddy_info_calc_metadata and buddy_info_init in
    libbuddy/src/buddy.c), and exactly when its assertions hold.

    BUDDY_UNIT is 4096 and sizeof(struct block_bitmap) is 16; both are written as literals, which keeps
    the arithmetic linear for the solver. */
module BuddyMetadata {
  import opened Powers
  import opened BuddyBitmaps
  import opened Rounding

  function MetadataLen(n: nat): nat
  {
    Levels(n) * 16 + TotalBytes(n)
  }

  /** (data_len - 1) / BUDDY_UNIT + 1 */
  function UnitsFor(dataLen: nat): nat
    requires dataLen > 0
  {
    (dataLen - 1) / 4096 + 1
  }

  /** Metadata is rounded up to whole units. */
  function DataOffset(totalLen: nat): nat
    requires totalLen > 0
  {
    DivCeil(MetadataLen(UnitsFor(totalLen)), 4096) * 4096
  }

  /** The assertions of buddy_info_calc_metadata. */
  predicate CalcAsserts(dataLen: nat)
  {
    dataLen > 4096 && MetadataLen(UnitsFor(dataLen)) < dataLen
  }

  /** All assertions of buddy_info_init, in the order the code meets them. */
  predicate InitAsserts(totalLen: nat)
  {
    && CalcAsserts(totalLen)
    && totalLen >= DataOffset(totalLen)
    && CalcAsserts(totalLen - DataOffset(totalLen))
    && MetadataLen(UnitsFor(totalLen - DataOffset(totalLen))) < DataOffset(totalLen)
  }

  lemma {:induction false} LevelsBound(n: nat)
    ensures Levels(n) <= n
  {
    if n == 0 {
    } else {
      LevelsBound(n / 2);
    }
  }

  /** Levels below the top hold at most 2n blocks in all, and a level has at most one byte per block. */
  lemma {:induction false} BitsStartBound(n: nat, k: nat)
    ensures BitsStart(n, k) + 2 * Up(n, k) <= 2 * n
  {
    if k == 0 {
    } else {
      BitsStartBound(n, k - 1);
      UpLast(n, k);
      var c := Up(n, k - 1);
      if c > 0 {
        assert BytesFor(n, k - 1) <= c;
        assert c <= 2 * (c - c / 2);
      }
    }
  }

  /** The assertion that the metadata is smaller than the data never fires. */
  lemma MetadataSmall(n: nat)
    ensures MetadataLen(n) <= 18 * n
  {
    LevelsBound(n);
    BitsStartBound(n, Levels(n));
  }

  lemma NoBitsYet(n: nat)
    ensures Up(n, 0) == n && BitsStart(n, 0) == 0
  {
  }

  lemma BitsNext(n: nat, k: nat)
    requires Up(n, k) >= 1
    ensures BitsStart(n, k + 1) == BitsStart(n, k) + (Up(n, k) - 1) / 8 + 1 && Up(n, k + 1) == Up(n, k) / 2
  {
    UpLast(n, k + 1);
  }

  /** The level that has one block is the last. */
  lemma LastLevel(n: nat, k: nat)
    requires k > 0 && Up(n, k - 1) == 1
    ensures Levels(n) == k
  {
    hide Levels, Up;
    LevelsNonEmpty(n, k - 1);
    UpLast(n, k);
    LevelsNonEmpty(n, k);
  }

  /** buddy_info_calc_metadata */
  method CalcMetadata(dataLen: nat) returns (metadataLen: nat, units: nat, levels: nat)
    requires dataLen > 4096
    ensures units == UnitsFor(dataLen)
    ensures levels == Levels(units)
    ensures metadataLen == MetadataLen(units) < dataLen
  {
    hide Levels, BitsStart, BytesFor, Up;
    levels := 0;
    var bits := 0;
    units := (dataLen - 1) / 4096 + 1;
    var blockCount := units;
    NoBitsYet(units);
    while true
      invariant blockCount == Up(units, levels) >= 1
      invariant bits == BitsStart(units, levels)
      decreases blockCount
    {
      BitsNext(units, levels);
      levels := levels + 1;
      bits := bits + (blockCount - 1) / 8 + 1;
      if blockCount == 1 {
        break;
      }
      blockCount := blockCount / 2;
    }
    LastLevel(units, levels);
    metadataLen := levels * 16 + bits;
    MetadataSmall(units);
  }

  // ---------- bounds ----------

  lemma {:induction false} LevelsMonotone(m: nat, n: nat)
    requires m <= n
    ensures Levels(m) <= Levels(n)
  {
    if m == 0 {
    } else {
      LevelsMonotone(m / 2, n / 2);
    }
  }

  lemma {:induction false} BitsStartGrows(m: nat, n: nat, k: nat)
    requires m <= n
    ensures BitsStart(m, k) <= BitsStart(n, k)
  {
    if k == 0 {
    } else {
      BitsStartGrows(m, n, k - 1);
      UpMonotone(m, n, k - 1);
    }
  }

  /** A smaller data area never needs more metadata: the bitmaps fit the area reserved for them. */
  lemma MetadataMonotone(m: nat, n: nat)
    requires m <= n
    ensures MetadataLen(m) <= MetadataLen(n)
  {
    LevelsMonotone(m, n);
    BitsStartGrows(m, n, Levels(m));
    BitsStartMonotone(n, Levels(m), Levels(n));
  }

  // ---------- when initialisation succeeds ----------

  /** Pages of metadata reserved in front of n pages. */
  function MetadataPages(n: nat): nat
  {
    DivCeil(MetadataLen(n), 4096)
  }

  lemma AlignedArea(n: nat)
    requires n > 0
    ensures UnitsFor(n * 4096) == n
    ensures DataOffset(n * 4096) == MetadataPages(n) * 4096
  {
  }

  lemma PagesFit(n: nat)
    requires n >= 3
    ensures 1 <= MetadataPages(n) <= n - 2
    ensures MetadataLen(n) <= MetadataPages(n) * 4096
    ensures MetadataLen(n) == MetadataPages(n) * 4096 <==> MetadataLen(n) % 4096 == 0
  {
    MetadataSmall(n);
  }

  lemma CalcPages(n: nat)
    requires n > 0
    ensures CalcAsserts(n * 4096) <==> n >= 2
  {
    hide MetadataLen;
    AlignedArea(n);
    MetadataSmall(n);
  }

  lemma OneOfTwo()
    ensures MetadataPages(2) == 1
  {
    assert Levels(2) == 2 && TotalBytes(2) == 2;
  }

  /** For an area of n whole pages, initialisation passes its assertions unless the area is too small,
      or its metadata is a whole number of pages and the area left after them needs just as much. */
  lemma InitAssertsExactly(n: nat)
    requires n > 0
    ensures InitAsserts(n * 4096) <==>
              && n >= 3
              && !(&& MetadataLen(n) % 4096 == 0
                   && MetadataPages(n) <= n
                   && MetadataLen(n - MetadataPages(n)) == MetadataLen(n))
  {
    hide MetadataLen, MetadataPages, UnitsFor, DataOffset, CalcAsserts;
    AlignedArea(n);
    CalcPages(n);
    if n >= 3 {
      PagesFit(n);
      var rest := n - MetadataPages(n);
      assert n * 4096 - MetadataPages(n) * 4096 == rest * 4096;
      AlignedArea(rest);
      CalcPages(rest);
      MetadataMonotone(rest, n);
    } else if n == 2 {
      OneOfTwo();
      CalcPages(1);
    }
  }

  // ---------- a concrete area on which it fails ----------

  /** Metadata of n units, summed from the bottom level up. */
  function MetadataSum(n: nat): nat
  {
    if n == 0 then 0 else 16 + (n + 7) / 8 + MetadataSum(n / 2)
  }

  lemma {:induction false} BitsStartTail(n: nat, k: nat)
    ensures BitsStart(n, k + 1) == BytesFor(n, 0) + BitsStart(n / 2, k)
  {
    if k == 0 {
    } else {
      BitsStartTail(n, k - 1);
    }
  }

  lemma {:induction false} MetadataBySum(n: nat)
    ensures MetadataLen(n) == MetadataSum(n)
  {
    if n == 0 {
    } else {
      MetadataBySum(n / 2);
      BitsStartTail(n, Levels(n / 2));
    }
  }

  lemma OnePageOfMetadata(n: nat)
    requires n >= 3 && MetadataSum(n) == 4096 && MetadataSum(n - 1) == 4096
    ensures !InitAsserts(n * 4096)
    ensures MetadataLen(n) == 4096 && MetadataLen(n - 1) == 4096
  {
    MetadataBySum(n);
    MetadataBySum(n - 1);
    InitAssertsExactly(n);
  }

  lemma SumStep(n: nat, sum: nat)
    requires n > 0 && MetadataSum(n / 2) + 16 + (n + 7) / 8 == sum
    ensures MetadataSum(n) == sum
  {
  }

  lemma SumsAt15466()
    ensures MetadataSum(15466) == 4096 && MetadataSum(15465) == 4096
  {
    SumStep(1, 17);
    SumStep(3, 34);
    SumStep(7, 51);
    SumStep(15, 69);
    SumStep(30, 89);
    SumStep(60, 113);
    SumStep(120, 144);
    SumStep(241, 191);
    SumStep(483, 268);
    SumStep(966, 405);
    SumStep(1933, 663);
    SumStep(3866, 1163);
    SumStep(7733, 2146);
    SumStep(7732, 2146);
    SumStep(15466, 4096);
    SumStep(15465, 4096);
  }

  lemma AnyWithSums() returns (n: nat)
    requires MetadataSum(15466) == 4096 && MetadataSum(15465) == 4096
    ensures n == 15466 && !InitAsserts(n * 4096)
    ensures MetadataLen(n) == 4096 && MetadataLen(n - 1) == 4096
  {
    n :| n == 15466;
    OnePageOfMetadata(n);
  }

  /** The strict assertion does fail: 15466 pages need exactly one page of metadata, and so do the
      15465 pages left after it. */
  lemma StrictAssertionFails() returns (n: nat)
    ensures n == 15466 && !InitAsserts(n * 4096)
    ensures MetadataLen(n) == 4096 && MetadataLen(n - 1) == 4096
  {
    SumsAt15466();
    n := AnyWithSums();
  }
}
