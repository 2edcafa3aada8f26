/** The MMIO free list of kernel/src/memory.c: a singly linked list whose nodes come from a pool of 24, where a
    node is in the list exactly when its `begin` is not zero. */
module MmioFreeList {
  import opened FreeIntervals
  import opened Pigeonhole
  import opened Options

  /** The link of the list's dummy node, and the null link. */
  const DUMMY: int := 24
  const NIL: int := -1

  /** What follows after the first k nodes in the list. */
  function LinkAt(order: seq<int>, k: nat): int
  {
    if k < |order| then order[k] else NIL
  }

  /** The node before position k. */
  function Before(order: seq<int>, k: nat): int
    requires k <= |order|
  {
    if k == 0 then DUMMY else order[k - 1]
  }

  /** The links spell the nodes of `order`, all different. */
  ghost predicate Chain(nexts: seq<int>, order: seq<int>)
  {
    && |nexts| == 25
    && (forall k | 0 <= k < |order| :: 0 <= order[k] < 24)
    && (forall j, k | 0 <= j < k < |order| :: order[j] != order[k])
    && (forall k: nat {:trigger LinkAt(order, k)} | k <= |order| :: nexts[Before(order, k)] == LinkAt(order, k))
  }

  ghost predicate InUse(begins: seq<nat>, order: seq<int>)
    requires |begins| == 24
  {
    forall i | 0 <= i < 24 :: begins[i] != 0 <==> i in order
  }

  function IntervalsOf(begins: seq<nat>, ends: seq<nat>, order: seq<int>): (s: seq<Interval>)
    requires |begins| == |ends| == 24 && forall k | 0 <= k < |order| :: 0 <= order[k] < 24
    ensures |s| == |order|
    ensures forall k | 0 <= k < |order| :: s[k] == Interval(begins[order[k]], ends[order[k]])
  {
    seq(|order|, k requires 0 <= k < |order| => Interval(begins[order[k]], ends[order[k]]))
  }

  /** Unlinking the node at position k. */
  lemma ChainRemove(nexts: seq<int>, order: seq<int>, k: nat)
    requires Chain(nexts, order) && k < |order|
    ensures nexts[Before(order, k)] == order[k] && 0 <= Before(order, k) < 25
    ensures Chain(nexts[Before(order, k) := nexts[order[k]]], order[..k] + order[k + 1..])
  {
    assert LinkAt(order, k) == order[k];
    assert LinkAt(order, k + 1) == nexts[order[k]];
    var nexts', order' := nexts[Before(order, k) := nexts[order[k]]], order[..k] + order[k + 1..];
    forall j: nat | j <= |order'|
      ensures nexts'[Before(order', j)] == LinkAt(order', j)
    {
      assert LinkAt(order, if j <= k then j else j + 1) == nexts[Before(order, if j <= k then j else j + 1)];
      assert LinkAt(order', j) == LinkAt(order, if j < k then j else j + 1);
    }
  }

  /** Linking node i in front of position k. */
  lemma ChainInsert(nexts: seq<int>, order: seq<int>, k: nat, i: int)
    requires Chain(nexts, order) && k <= |order| && 0 <= i < 24 && i !in order
    ensures 0 <= Before(order, k) < 25
    ensures Chain(nexts[i := nexts[Before(order, k)]][Before(order, k) := i], order[..k] + [i] + order[k..])
  {
    var nexts', order' := nexts[i := nexts[Before(order, k)]][Before(order, k) := i], order[..k] + [i] + order[k..];
    assert LinkAt(order, k) == nexts[Before(order, k)];
    forall j: nat | j <= |order'|
      ensures nexts'[Before(order', j)] == LinkAt(order', j)
    {
      if j < k {
        assert LinkAt(order, j) == nexts[Before(order, j)];
      } else if j > k + 1 {
        assert LinkAt(order, j - 1) == nexts[Before(order, j - 1)];
      }
    }
  }

  datatype Outcome = Done | InvalidAddress | TooFragmented | NotMapped

  lemma InUseWithout(begins: seq<nat>, nexts: seq<int>, order: seq<int>, k: nat)
    requires |begins| == 24 && InUse(begins, order) && k < |order| && Chain(nexts, order)
    ensures InUse(begins[order[k] := 0], order[..k] + order[k + 1..])
  {
    var rest := order[..k] + order[k + 1..];
    forall i | 0 <= i < 24
      ensures begins[order[k] := 0][i] != 0 <==> i in rest
    {
      if i in order && i != order[k] {
        var j :| 0 <= j < |order| && order[j] == i;
        assert rest[if j < k then j else j - 1] == i;
      }
    }
  }

  lemma IntervalsWithout(begins: seq<nat>, ends: seq<nat>, nexts: seq<int>, order: seq<int>, k: nat)
    requires |begins| == |ends| == 24 && k < |order| && Chain(nexts, order)
    ensures var rest := order[..k] + order[k + 1..];
            && (forall j | 0 <= j < |rest| :: 0 <= rest[j] < 24)
            && IntervalsOf(begins[order[k] := 0], ends, rest) ==
               IntervalsOf(begins, ends, order)[..k] + IntervalsOf(begins, ends, order)[k + 1..]
  {
  }

  /** Changing the bounds of a node in the list. */
  lemma InUseSame(begins: seq<nat>, nexts: seq<int>, ends: seq<nat>, order: seq<int>, k: nat, b: nat, e: nat)
    requires |begins| == |ends| == 24 && InUse(begins, order) && k < |order| && Chain(nexts, order) && b != 0
    ensures InUse(begins[order[k] := b], order)
    ensures IntervalsOf(begins[order[k] := b], ends[order[k] := e], order) ==
            IntervalsOf(begins, ends, order)[k := Interval(b, e)]
  {
  }

  lemma InsertedNodes(order: seq<int>, k: nat, i: int)
    requires k <= |order|
    ensures var more := order[..k] + [i] + order[k..];
            && more[k] == i && (forall j | 0 <= j < |more| && j != k :: more[j] == order[if j < k then j else j - 1])
            && (forall x :: x in more <==> x == i || x in order)
  {
    var more := order[..k] + [i] + order[k..];
    forall x | x in order
      ensures x in more
    {
      var j :| 0 <= j < |order| && order[j] == x;
      assert more[if j < k then j else j + 1] == x;
    }
    assert more[k] == i;
  }

  lemma IntervalsMore(begins: seq<nat>, ends: seq<nat>, nexts: seq<int>, order: seq<int>, k: nat, i: int, b: nat,
                      e: nat)
    requires |begins| == |ends| == 24 && k <= |order| && Chain(nexts, order) && 0 <= i < 24 && i !in order
    ensures var more := order[..k] + [i] + order[k..];
            && (forall j | 0 <= j < |more| :: 0 <= more[j] < 24)
            && IntervalsOf(begins[i := b], ends[i := e], more) ==
               IntervalsOf(begins, ends, order)[..k] + [Interval(b, e)] + IntervalsOf(begins, ends, order)[k..]
  {
    InsertedNodes(order, k, i);
    var more := order[..k] + [i] + order[k..];
    var l, r := IntervalsOf(begins[i := b], ends[i := e], more), IntervalsOf(begins, ends, order);
    forall j | 0 <= j < |more| && j != k
      ensures l[j] == r[if j < k then j else j - 1]
    {
      assert more[j] == order[if j < k then j else j - 1] && more[j] in order;
    }
  }

  lemma UsedMore(begins: seq<nat>, order: seq<int>, k: nat, i: int, b: nat)
    requires |begins| == 24 && InUse(begins, order) && k <= |order| && 0 <= i < 24 && b != 0
    ensures InUse(begins[i := b], order[..k] + [i] + order[k..])
  {
    InsertedNodes(order, k, i);
  }

  /** A further node in the list. */
  lemma InUseMore(begins: seq<nat>, ends: seq<nat>, nexts: seq<int>, order: seq<int>, k: nat, i: int, b: nat, e: nat)
    requires |begins| == |ends| == 24 && InUse(begins, order) && k <= |order| && Chain(nexts, order)
    requires 0 <= i < 24 && i !in order && b != 0
    ensures var more := order[..k] + [i] + order[k..];
            && InUse(begins[i := b], more) && (forall j | 0 <= j < |more| :: 0 <= more[j] < 24)
            && IntervalsOf(begins[i := b], ends[i := e], more) ==
               IntervalsOf(begins, ends, order)[..k] + [Interval(b, e)] + IntervalsOf(begins, ends, order)[k..]
  {
    hide InUse, Chain, IntervalsOf;
    InsertedNodes(order, k, i);
    UsedMore(begins, order, k, i, b);
    IntervalsMore(begins, ends, nexts, order, k, i, b, e);
  }

  class FreeList {
    const begins: array<nat>
    const ends: array<nat>
    const nexts: array<int>
    ghost var order: seq<int>

    ghost predicate Shape()
      reads this, begins, ends, nexts
    {
      && begins.Length == ends.Length == 24 && nexts.Length == 25 && begins != ends
      && Chain(nexts[..], order) && InUse(begins[..], order)
    }

    ghost function Intervals(): seq<Interval>
      requires Shape()
      reads this, begins, ends, nexts
    {
      IntervalsOf(begins[..], ends[..], order)
    }

    ghost predicate Valid()
      reads this, begins, ends, nexts
    {
      Shape() && Canonical(Intervals())
    }

    /** mmio_freelist_init: the whole range is free. */
    constructor ()
      ensures Valid() && Intervals() == [Interval(IOMAP_START, IOMAP_END)]
      ensures fresh(begins) && fresh(ends) && fresh(nexts)
    {
      begins := new nat[24](_ => 0);
      ends := new nat[24](_ => 0);
      nexts := new int[25](_ => NIL);
      order := [0];
      new;
      begins[0], ends[0] := IOMAP_START, IOMAP_END;
      nexts[DUMMY] := 0;
      assert LinkAt(order, 0) == 0 && LinkAt(order, 1) == NIL;
    }

    /** mmio_freelist_newnode: a node of the pool that is not in the list, or a panic. */
    method NewNode() returns (i: Option<int>)
      requires Shape()
      ensures i.Some? <==> |order| < 24
      ensures i.Some? ==> 0 <= i.value < 24 && i.value !in order
    {
      var k := 0;
      while k < 24 && begins[k] != 0
        invariant 0 <= k <= 24 && forall j | 0 <= j < k :: begins[j] != 0
      {
        k := k + 1;
      }
      if k == 24 {
        assert forall j | 0 <= j < 24 :: begins[..][j] != 0;
        AllInUse(order, 24);
        return None;
      }
      assert begins[..][k] == 0;
      SomeSpare(order, k, 24);
      return Some(k);
    }

    /** The node after which the list's k-th node comes; its link is the k-th node. */
    lemma Position(k: nat)
      requires Shape() && k <= |order|
      ensures 0 <= Before(order, k) < 25 && nexts[Before(order, k)] == LinkAt(order, k)
      ensures k < |order| ==> 0 <= order[k] < 24
    {
      assert nexts[..][Before(order, k)] == LinkAt(order, k);
    }

    /** singlylist_remove_after, once the node's `begin` is zero: the interval at position k goes. */
    method RemoveAfter(before: int, ghost k: nat)
      requires begins.Length == ends.Length == 24 && nexts.Length == 25 && begins != ends
      requires Chain(nexts[..], order) && k < |order| && before == Before(order, k)
      modifies nexts, this`order
      ensures nexts.Length == 25 && order == old(order[..k] + order[k + 1..]) && Chain(nexts[..], order)
    {
      ChainRemove(nexts[..], order, k);
      nexts[before] := nexts[nexts[before]];
      order := order[..k] + order[k + 1..];
    }

    /** The interval at position k is taken as a whole: its node leaves the list and is marked free. */
    method TakeWhole(before: int, link: int, ghost k: nat)
      requires Valid() && k < |order| && before == Before(order, k) && link == order[k]
      modifies begins, nexts, this`order
      ensures Valid() && Intervals() == old(Intervals()[..k] + Intervals()[k + 1..])
    {
      hide Chain, InUse, Canonical;
      ghost var free := Intervals();
      Position(k);
      CanonicalAt(free, k);
      WithoutCanonical(free, k, free[k].end - free[k].begin);
      InUseWithout(begins[..], nexts[..], order, k);
      IntervalsWithout(begins[..], ends[..], nexts[..], order, k);
      begins[link] := 0;
      RemoveAfter(before, k);
    }

    /** Or its front is taken. */
    method TakeFront(link: int, b: nat, ghost k: nat)
      requires Valid() && k < |order| && link == order[k]
      requires begins[order[k]] <= b < ends[order[k]]
      modifies begins
      ensures Valid() && Intervals() == old(Intervals())[k := Interval(b, ends[order[k]])]
    {
      hide Chain, InUse, Canonical;
      ghost var free := Intervals();
      Position(k);
      CanonicalAt(free, k);
      WithoutCanonical(free, k, b - free[k].begin);
      InUseSame(begins[..], nexts[..], ends[..], order, k, b, ends[link]);
      begins[link] := b;
      assert ends[..][link := ends[link]] == ends[..];
    }

    /** The rest of the loop body of mmio_alloc_mapping, once an interval that is long enough is found. */
    method TakeAt(before: int, link: int, len: nat, ghost k: nat) returns (b: nat)
      requires Valid() && k < |order| && before == Before(order, k) && link == order[k]
      requires Intervals()[k].end - Intervals()[k].begin >= len
      modifies begins, nexts, this`order
      ensures Valid() && b == old(Intervals())[k].begin && Intervals() == Without(old(Intervals()), k, len)
    {
      hide Chain, InUse, Canonical, Without;
      Position(k);
      b := begins[link];
      WithoutIs(Intervals(), k, len);
      if ends[link] - b == len {
        TakeWhole(before, link, k);
      } else {
        TakeFront(link, b + len, k);
      }
    }

    /** The first-fit search of mmio_alloc_mapping. */
    method TakeFirstFit(len: nat) returns (begin: Option<nat>)
      requires Valid()
      modifies begins, nexts, this`order
      ensures Valid()
      ensures var k := FirstFit(old(Intervals()), len);
              if k == |old(Intervals())| then begin == None && Intervals() == old(Intervals())
              else begin == Some(old(Intervals())[k].begin) && Intervals() == Without(old(Intervals()), k, len)
    {
      hide Chain, InUse, Canonical, FirstFit, Without;
      ghost var free := Intervals();
      ghost var k := 0;
      var before := DUMMY;
      Position(0);
      var link := nexts[before];
      while link != NIL
        invariant unchanged(begins) && unchanged(nexts) && order == old(order)
        invariant k <= |order| && before == Before(order, k) && link == LinkAt(order, k)
        invariant forall j | 0 <= j < k :: free[j].end - free[j].begin < len
        decreases |order| - k
      {
        Position(k);
        Position(k + 1);
        CanonicalAt(free, k);
        var nodeLen := ends[link] - begins[link];
        if nodeLen < len {
          before, link := link, nexts[link];
          k := k + 1;
          continue;
        }
        FirstFitIs(free, len, k);
        var b := TakeAt(before, link, len, k);
        return Some(b);
      }
      Position(k);
      FirstFitIs(free, len, k);
      return None;
    }

    /** Two intervals that meet become one, in the node of the first. */
    method JoinNodes(before: int, link: int, ghost k: nat)
      requires Shape() && 0 < k < |order| && before == order[k - 1] && link == order[k]
      requires Intervals()[k - 1].begin != 0
      modifies begins, ends, nexts, this`order
      ensures Shape()
      ensures Intervals() == old(Intervals()[..k - 1] +
                [Interval(Intervals()[k - 1].begin, Intervals()[k].end)] + Intervals()[k + 1..])
    {
      hide Chain, InUse;
      ghost var was := Intervals();
      Position(k - 1);
      Position(k);
      InUseSame(begins[..], nexts[..], ends[..], order, k - 1, begins[before], ends[link]);
      ends[before] := ends[link];
      assert begins[..][before := begins[before]] == begins[..];
      assert Intervals() == was[k - 1 := Interval(was[k - 1].begin, was[k].end)];
      InUseWithout(begins[..], nexts[..], order, k);
      IntervalsWithout(begins[..], ends[..], nexts[..], order, k);
      begins[link] := 0;
      RemoveAfter(before, k);
    }

    /** The branch that widens the interval at position k downwards, and joins it with the one before. */
    method JoinUp(before: int, link: int, b: nat, ghost e: nat, ghost k: nat)
      requires Valid() && k < |order| && before == Before(order, k) && link == order[k] && b < e
      requires FirstAbove(Intervals(), k, b) && FitsBefore(Intervals(), k, b, e) && JoinsNext(Intervals(), k, e)
      modifies begins, ends, nexts, this`order
      ensures Valid() && Intervals() == With(old(Intervals()), k, b, e)
    {
      hide Chain, InUse, Canonical;
      ghost var free := Intervals();
      Position(k);
      CanonicalAt(free, k);
      WithCanonical(free, k, b, e);
      if k > 0 {
        Position(k - 1);
        CanonicalAt(free, k - 1);
      }
      InUseSame(begins[..], nexts[..], ends[..], order, k, b, ends[link]);
      begins[link] := b;
      assert ends[..][link := ends[link]] == ends[..];
      if before != DUMMY && ends[before] == begins[link] {
        JoinNodes(before, link, k);
      }
    }

    /** The branch that widens the interval before position k upwards. */
    method JoinDown(before: int, b: nat, e: nat, ghost k: nat)
      requires Valid() && k < |order| && before == Before(order, k) && b < e
      requires FirstAbove(Intervals(), k, b) && FitsBefore(Intervals(), k, b, e)
      requires !JoinsNext(Intervals(), k, e) && JoinsPrevious(Intervals(), k, b)
      modifies ends
      ensures Valid() && Intervals() == With(old(Intervals()), k, b, e)
    {
      hide Chain, InUse, Canonical;
      ghost var free := Intervals();
      Position(k - 1);
      CanonicalAt(free, k - 1);
      WithCanonical(free, k, b, e);
      InUseSame(begins[..], nexts[..], ends[..], order, k - 1, begins[before], e);
      ends[before] := ends[before] + (e - b);
      assert begins[..][before := begins[before]] == begins[..];
    }

    /** The branch that takes a node from the pool. */
    method InsertNew(before: int, i: int, b: nat, e: nat, ghost k: nat)
      requires Valid() && k < |order| && before == Before(order, k) && b < e && 0 <= i < 24 && i !in order
      requires FirstAbove(Intervals(), k, b) && FitsBefore(Intervals(), k, b, e)
      requires !JoinsNext(Intervals(), k, e) && !JoinsPrevious(Intervals(), k, b)
      modifies begins, ends, nexts, this`order
      ensures Valid() && Intervals() == With(old(Intervals()), k, b, e)
    {
      hide Chain, InUse, Canonical;
      ghost var free := Intervals();
      Position(k);
      if k > 0 {
        CanonicalAt(free, k - 1);
      }
      WithCanonical(free, k, b, e);
      InUseMore(begins[..], ends[..], nexts[..], order, k, i, b, e);
      ChainInsert(nexts[..], order, k, i);
      begins[i] := b;
      ends[i] := e;
      nexts[i] := nexts[before];
      nexts[before] := i;
      order := order[..k] + [i] + order[k..];
    }

    /** The list never has more nodes than the pool. */
    lemma OrderFits()
      requires Shape()
      ensures |order| <= 24
    {
      AtMost(order, 24);
    }

    /** The rest of the loop body of mmio_dealloc_mapping, once the node above is found. */
    method GiveAt(before: int, link: int, b: nat, e: nat, ghost k: nat) returns (outcome: Outcome)
      requires Valid() && b < e && k < |order| && before == Before(order, k) && link == order[k]
      requires FirstAbove(Intervals(), k, b)
      modifies begins, ends, nexts, this`order
      ensures Valid()
      ensures var free := old(Intervals());
              if !FitsBefore(free, k, b, e) then outcome == InvalidAddress && Intervals() == free
              else if !JoinsNext(free, k, e) && !JoinsPrevious(free, k, b) && |free| == 24 then
                outcome == TooFragmented && Intervals() == free
              else outcome == Done && Intervals() == With(free, k, b, e)
    {
      hide Chain, InUse, Canonical, With, FirstAbove;
      Position(k);
      if k > 0 {
        Position(k - 1);
      }
      OrderFits();
      var beforeEnd := if before != DUMMY then ends[before] else IOMAP_START;
      if !(beforeEnd <= b && e <= begins[link]) {
        return InvalidAddress;
      }
      if e == begins[link] {
        JoinUp(before, link, b, e, k);
      } else if before != DUMMY && ends[before] == b {
        JoinDown(before, b, e, k);
      } else {
        var i := NewNode();
        if i.None? {
          return TooFragmented;
        }
        InsertNew(before, i.value, b, e, k);
      }
      return Done;
    }

    /** mmio_dealloc_mapping, as far as the free list goes: the place is found, and [b, e) joins the intervals it
        touches or gets a node of its own. */
    method GiveBack(b: nat, e: nat) returns (outcome: Outcome)
      requires Valid() && b < e
      modifies begins, ends, nexts, this`order
      ensures Valid()
      ensures var free, k := old(Intervals()), AboveIndex(old(Intervals()), b);
              if k == |free| || !FitsBefore(free, k, b, e) then
                outcome == InvalidAddress && Intervals() == free
              else if !JoinsNext(free, k, e) && !JoinsPrevious(free, k, b) && |free| == 24 then
                outcome == TooFragmented && Intervals() == free
              else
                outcome == Done && Intervals() == With(free, k, b, e)
    {
      hide Chain, InUse, Canonical, With, AboveIndex;
      ghost var free := Intervals();
      ghost var k := 0;
      var before := DUMMY;
      Position(0);
      var link := nexts[before];
      while link != NIL
        invariant unchanged(begins) && unchanged(ends) && unchanged(nexts) && order == old(order)
        invariant k <= |order| && before == Before(order, k) && link == LinkAt(order, k)
        invariant forall j | 0 <= j < k :: free[j].begin <= b
        decreases |order| - k
      {
        Position(k);
        Position(k + 1);
        if b >= begins[link] {
          before, link := link, nexts[link];
          k := k + 1;
          continue;
        }
        AboveIs(free, b, k);
        outcome := GiveAt(before, link, b, e, k);
        return;
      }
      Position(k);
      AboveIs(free, b, k);
      return InvalidAddress;
    }
  }
}
