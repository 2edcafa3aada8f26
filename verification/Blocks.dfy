/** The abstract state of the buddy allocator: a set of free units, and the blocks over it.

    Block (k, i) is the i-th aligned run of 2^k units.  The bitmaps of libbuddy/src/buddy.c hold one
    bit per block; Canonical says which bits are set for a given set of free units. */
module Blocks {
  import opened Powers
  import Pigeonhole

  /** The units of block (k, i). */
  function Units(k: nat, i: nat): set<nat>
  {
    if k == 0 then {i} else Units(k - 1, 2 * i) + Units(k - 1, 2 * i + 1)
  }

  /** Every unit of block (k, i) is free. */
  predicate Whole(free: set<nat>, k: nat, i: nat)
  {
    Units(k, i) <= free
  }

  /** Block (k, i) is wholly free and its parent is not: the maximal free blocks. */
  predicate Canonical(free: set<nat>, k: nat, i: nat)
  {
    Whole(free, k, i) && !Whole(free, k + 1, i / 2)
  }

  /** block_index ^ 1 */
  function Buddy(i: nat): nat
  {
    if i % 2 == 0 then i + 1 else i - 1
  }

  /** All units of an allocator with n units. */
  function AllUnits(n: nat): (all: set<nat>)
    ensures forall u: nat :: u in all <==> u < n
    ensures |all| == n
  {
    if n == 0 then {} else AllUnits(n - 1) + {n - 1}
  }

  // ---------- which units a block has ----------

  lemma {:induction false} UnitsUp(k: nat, i: nat, u: nat)
    ensures u in Units(k, i) <==> Up(u, k) == i
  {
    if k == 0 {
    } else {
      UnitsUp(k - 1, 2 * i, u);
      UnitsUp(k - 1, 2 * i + 1, u);
      UpLast(u, k);
    }
  }

  /** Block (k, i) is the interval of units [i * 2^k, (i + 1) * 2^k). */
  lemma UnitsInterval(k: nat, i: nat, u: nat)
    ensures u in Units(k, i) <==> i * Pow2(k) <= u < (i + 1) * Pow2(k)
  {
    UnitsUp(k, i, u);
    UpInterval(u, k);
    if i * Pow2(k) <= u < (i + 1) * Pow2(k) {
      IntervalUp(u, k, i);
    }
  }

  /** The leftmost block d levels below block i of some level: i shifted left d times. */
  function Leftmost(i: nat, d: nat): nat
  {
    if d == 0 then i else 2 * Leftmost(i, d - 1)
  }

  lemma {:induction false} LeftmostProduct(i: nat, d: nat)
    ensures Leftmost(i, d) == i * Pow2(d)
  {
    if d == 0 {
    } else {
      LeftmostProduct(i, d - 1);
      MulDouble(i, Pow2(d - 1));
    }
  }

  lemma {:induction false} LeftmostShift(i: nat, d: nat)
    ensures Leftmost(2 * i, d) == 2 * Leftmost(i, d)
  {
    if d == 0 {
    } else {
      LeftmostShift(i, d - 1);
    }
  }

  lemma {:induction false} LeftmostNext(i: nat, d: nat)
    ensures Leftmost(i + 1, d) == Leftmost(i, d) + Pow2(d)
  {
    if d == 0 {
    } else {
      LeftmostNext(i, d - 1);
    }
  }

  lemma {:induction false} LeftmostCompose(i: nat, a: nat, b: nat)
    ensures Leftmost(Leftmost(i, a), b) == Leftmost(i, a + b)
  {
    if b == 0 {
    } else {
      LeftmostCompose(i, a, b - 1);
    }
  }

  /** The same interval, with the products written as shifts. */
  lemma UnitsRange(k: nat, i: nat, u: nat)
    ensures u in Units(k, i) <==> Leftmost(i, k) <= u < Leftmost(i + 1, k)
  {
    UnitsInterval(k, i, u);
    LeftmostProduct(i, k);
    LeftmostProduct(i + 1, k);
  }

  lemma {:induction false} UpLeftmost(i: nat, k: nat, u: nat)
    requires Leftmost(i, k) <= u < Leftmost(i + 1, k)
    ensures Up(u, k) == i
  {
    UnitsRange(k, i, u);
    UnitsUp(k, i, u);
  }

  lemma SameLevelDisjoint(k: nat, i: nat, j: nat)
    requires i != j
    ensures Units(k, i) !! Units(k, j)
  {
    forall u | u in Units(k, i)
      ensures u !in Units(k, j)
    {
      UnitsUp(k, i, u);
      UnitsUp(k, j, u);
    }
  }

  lemma {:induction false} UnitsSize(k: nat, i: nat)
    ensures |Units(k, i)| == Pow2(k)
  {
    if k == 0 {
    } else {
      UnitsSize(k - 1, 2 * i);
      UnitsSize(k - 1, 2 * i + 1);
      SameLevelDisjoint(k - 1, 2 * i, 2 * i + 1);
      Pigeonhole.DisjointUnionSize(Units(k - 1, 2 * i), Units(k - 1, 2 * i + 1));
    }
  }

  lemma {:induction false} FirstUnit(k: nat, i: nat)
    ensures i * Pow2(k) in Units(k, i)
  {
    UnitsUp(k, i, i * Pow2(k));
    UpOfShifted(i, k);
  }

  /** A block lies inside the block d levels up that its index shifts to ... */
  lemma InsideAncestor(k: nat, i: nat, d: nat)
    ensures Units(k, i) <= Units(k + d, Up(i, d))
  {
    forall u | u in Units(k, i)
      ensures u in Units(k + d, Up(i, d))
    {
      UnitsUp(k, i, u);
      UpCompose(u, k, d);
      UnitsUp(k + d, Up(i, d), u);
    }
  }

  /** ... and is disjoint from every other block of that level. */
  lemma OutsideOthers(k: nat, i: nat, d: nat, j: nat)
    requires Up(i, d) != j
    ensures Units(k, i) !! Units(k + d, j)
  {
    InsideAncestor(k, i, d);
    SameLevelDisjoint(k + d, Up(i, d), j);
  }

  lemma ParentUnits(k: nat, i: nat)
    ensures Units(k + 1, i / 2) == Units(k, i) + Units(k, Buddy(i))
  {
  }

  lemma {:induction false} InRange(n: nat, k: nat, i: nat)
    ensures Units(k, i) <= AllUnits(n) <==> i < Up(n, k)
  {
    if k == 0 {
    } else {
      InRange(n, k - 1, 2 * i);
      InRange(n, k - 1, 2 * i + 1);
      UpLast(n, k);
    }
  }

  // ---------- adding and removing one maximal block ----------

  lemma AddBlockInside(free: set<nat>, k: nat, i: nat, l: nat, x: nat)
    requires Units(k, i) !! free
    requires l < k && Up(x, k - l) == i
    ensures !Canonical(free, l, x) && !Canonical(free + Units(k, i), l, x)
  {
    FirstUnit(l, x);
    InsideAncestor(l, x, k - l);
    UpCompose(x, 1, k - l - 1);
    InsideAncestor(l + 1, x / 2, k - l - 1);
  }

  /** Above a block whose buddy is not free, nothing is wholly free. */
  lemma ProperAncestorNotWhole(free: set<nat>, k: nat, i: nat, l: nat)
    requires k < l
    requires !Whole(free, k, Buddy(i))
    ensures !Whole(free, l, Up(i, l - k)) && !Whole(free + Units(k, i), l, Up(i, l - k))
  {
    UpCompose(i, 1, l - k - 1);
    InsideAncestor(k + 1, i / 2, l - k - 1);
    ParentUnits(k, i);
    SameLevelDisjoint(k, i, Buddy(i));
  }

  lemma WholeDespite(free: set<nat>, k: nat, i: nat, l: nat, x: nat)
    requires Units(l, x) !! Units(k, i)
    ensures Whole(free + Units(k, i), l, x) <==> Whole(free, l, x)
  {
  }

  lemma WholeDespiteAbove(free: set<nat>, k: nat, i: nat, m: nat, p: nat)
    requires !Whole(free, k, Buddy(i))
    requires (k < m && Up(i, m - k) == p) || Units(m, p) !! Units(k, i)
    ensures Whole(free + Units(k, i), m, p) <==> Whole(free, m, p)
  {
    if k < m && Up(i, m - k) == p {
      ProperAncestorNotWhole(free, k, i, m);
    } else {
      WholeDespite(free, k, i, m, p);
    }
  }

  lemma ParentOutside(k: nat, i: nat, l: nat, x: nat)
    requires Units(l, x) !! Units(k, i)
    requires k <= l ==> Up(i, l + 1 - k) != x / 2
    ensures Units(l + 1, x / 2) !! Units(k, i)
  {
    if k <= l {
      OutsideOthers(k, i, l + 1 - k, x / 2);
    } else if Up(x / 2, k - l - 1) != i {
      OutsideOthers(l + 1, x / 2, k - l - 1, i);
    } else {
      InsideAncestor(l, x, k - l);
      FirstUnit(l, x);
    }
  }

  lemma CanonicalMeans(free: set<nat>, l: nat, x: nat)
    ensures Canonical(free, l, x) <==> Whole(free, l, x) && !Whole(free, l + 1, x / 2)
  {
  }

  lemma AddBlockOutside(free: set<nat>, k: nat, i: nat, l: nat, x: nat)
    requires !Whole(free, k, Buddy(i))
    requires Units(l, x) !! Units(k, i)
    ensures Canonical(free + Units(k, i), l, x) <==> Canonical(free, l, x)
  {
    hide Whole, Canonical, Units, Up;
    CanonicalMeans(free, l, x);
    CanonicalMeans(free + Units(k, i), l, x);
    WholeDespite(free, k, i, l, x);
    if k > l || Up(i, l + 1 - k) != x / 2 {
      ParentOutside(k, i, l, x);
    }
    WholeDespiteAbove(free, k, i, l + 1, x / 2);
  }

  /** Freeing a block whose buddy is not wholly free sets exactly its own bit. */
  lemma AddBlock(free: set<nat>, k: nat, i: nat, l: nat, x: nat)
    requires Units(k, i) !! free
    requires !Whole(free, k, Buddy(i))
    ensures Canonical(free + Units(k, i), l, x) <==> Canonical(free, l, x) || (l == k && x == i)
  {
    FirstUnit(l, x);
    if l < k && Up(x, k - l) == i {
      AddBlockInside(free, k, i, l, x);
    } else if l == k && x == i {
      ParentUnits(k, i);
      SameLevelDisjoint(k, i, Buddy(i));
    } else if k < l && Up(i, l - k) == x {
      ProperAncestorNotWhole(free, k, i, l);
    } else {
      if l <= k {
        OutsideOthers(l, x, k - l, i);
      } else {
        OutsideOthers(k, i, l - k, x);
      }
      AddBlockOutside(free, k, i, l, x);
    }
  }

  /** Taking a maximal block clears exactly its own bit. */
  lemma RemoveBlock(free: set<nat>, k: nat, i: nat, l: nat, x: nat)
    requires Canonical(free, k, i)
    ensures Canonical(free - Units(k, i), l, x) <==> Canonical(free, l, x) && !(l == k && x == i)
    ensures !Whole(free - Units(k, i), k, Buddy(i))
  {
    var rest := free - Units(k, i);
    ParentUnits(k, i);
    assert rest + Units(k, i) == free;
    AddBlock(rest, k, i, l, x);
    if l == k && x == i {
      FirstUnit(k, i);
    }
  }

  // ---------- finding a block to allocate ----------

  lemma {:induction false} UpZero(k: nat)
    ensures Up(0, k) == 0
  {
    if k == 0 {
    } else {
      UpZero(k - 1);
    }
  }

  /** A wholly free block lies in a maximal free block of its level or above. */
  lemma {:induction false} MaximalAbove(n: nat, free: set<nat>, k: nat, i: nat, levels: nat) returns (l: nat)
    requires free <= AllUnits(n) && Whole(free, k, i)
    requires Up(n, levels) == 0
    ensures k <= l < levels && Canonical(free, l, Up(i, l - k))
    decreases levels - k
  {
    InRange(n, k, i);
    if levels <= k {
      UpCompose(n, levels, k - levels);
      UpZero(k - levels);
      assert false;
    } else if Canonical(free, k, i) {
      l := k;
    } else {
      if k + 1 == levels {
        InRange(n, k + 1, i / 2);
      }
      l := MaximalAbove(n, free, k + 1, i / 2, levels);
      UpCompose(i, 1, l - k - 1);
    }
  }
}
