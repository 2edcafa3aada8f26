/** The free intervals of the MMIO address range (kernel/src/memory.c), as a list in canonical form.  Addresses
    are counted in pages and cut to the 36 bits that the page tables translate. */
module FreeIntervals {
  datatype Interval = Interval(begin: nat, end: nat)

  /** IOMAP_START_VIRT and its end, as page numbers. */
  const IOMAP_START: nat := 0xF_F800_0000
  const IOMAP_END: nat := 0xF_FFF0_0000

  predicate Inside(v: Interval, p: nat)
  {
    v.begin <= p < v.end
  }

  ghost predicate PageIn(free: seq<Interval>, p: nat)
  {
    exists k | 0 <= k < |free| :: Inside(free[k], p)
  }

  /** Sorted, not empty, neither overlapping nor adjacent, and within the range. */
  ghost predicate Canonical(free: seq<Interval>)
  {
    && (forall k | 0 <= k < |free| :: IOMAP_START <= free[k].begin < free[k].end <= IOMAP_END)
    && (forall j, k | 0 <= j < k < |free| :: free[j].end < free[k].begin)
  }

  lemma CanonicalAt(free: seq<Interval>, k: nat)
    requires Canonical(free) && k < |free|
    ensures IOMAP_START <= free[k].begin < free[k].end <= IOMAP_END
  {
  }

  lemma Ordered(free: seq<Interval>, j: nat, k: nat)
    requires Canonical(free) && j < k < |free|
    ensures free[j].end < free[k].begin
  {
  }

  /** The two ends of an interval, and the page after it. */
  lemma Ends(free: seq<Interval>, k: nat)
    requires Canonical(free) && k < |free|
    ensures PageIn(free, free[k].begin) && PageIn(free, free[k].end - 1) && !PageIn(free, free[k].end)
  {
    hide Canonical;
    CanonicalAt(free, k);
    assert Inside(free[k], free[k].begin) && Inside(free[k], free[k].end - 1);
    if j :| 0 <= j < |free| && Inside(free[j], free[k].end) {
      if j < k {
        Ordered(free, j, k);
      } else if k < j {
        Ordered(free, k, j);
      }
      assert false;
    }
  }

  lemma FreeInRange(free: seq<Interval>)
    requires Canonical(free)
    ensures forall p: nat | PageIn(free, p) :: IOMAP_START <= p < IOMAP_END
  {
  }

  lemma NoneFree()
    ensures forall p: nat :: !PageIn([], p)
  {
  }

  lemma RestCanonical(f: seq<Interval>)
    requires Canonical(f) && f != []
    ensures Canonical(f[1..])
  {
  }

  lemma FirstFree(f: seq<Interval>)
    requires Canonical(f)
    ensures f != [] ==> PageIn(f, f[0].begin) && PageIn(f, f[0].end - 1) && !PageIn(f, f[0].end)
    ensures f != [] ==> forall p: nat | p < f[0].begin :: !PageIn(f, p)
  {
    if f != [] {
      assert Inside(f[0], f[0].begin) && Inside(f[0], f[0].end - 1);
    }
  }

  lemma SameFirst(f: seq<Interval>, g: seq<Interval>)
    requires Canonical(f) && Canonical(g) && f != [] && g != []
    requires forall p: nat :: PageIn(f, p) <==> PageIn(g, p)
    ensures f[0].begin <= g[0].begin && f[0].end <= g[0].end
  {
    FirstFree(f);
    FirstFree(g);
    if g[0].end < f[0].end {
      assert f[0].begin <= g[0].begin;
      assert Inside(f[0], g[0].end);
    }
  }

  lemma RestFree(f: seq<Interval>, p: nat)
    requires Canonical(f) && f != []
    ensures PageIn(f[1..], p) <==> PageIn(f, p) && !Inside(f[0], p)
  {
    if k :| 0 <= k < |f| && Inside(f[k], p) {
      assert k > 0 ==> Inside(f[1..][k - 1], p);
    }
    if k :| 0 <= k < |f[1..]| && Inside(f[1..][k], p) {
      assert Inside(f[k + 1], p);
    }
  }

  /** The canonical list of a set of pages is unique. */
  lemma {:induction false} CanonicalUnique(f: seq<Interval>, g: seq<Interval>)
    requires Canonical(f) && Canonical(g) && forall p: nat :: PageIn(f, p) <==> PageIn(g, p)
    ensures f == g
    decreases |f| + |g|
  {
    hide Canonical, PageIn, Inside;
    if f == [] || g == [] {
      FirstFree(f);
      FirstFree(g);
      NoneFree();
    } else {
      SameFirst(f, g);
      SameFirst(g, f);
      RestCanonical(f);
      RestCanonical(g);
      forall p: nat
        ensures PageIn(f[1..], p) <==> PageIn(g[1..], p)
      {
        RestFree(f, p);
        RestFree(g, p);
      }
      CanonicalUnique(f[1..], g[1..]);
      assert f == [f[0]] + f[1..] && g == [g[0]] + g[1..];
    }
  }

  // ---------- allocation ----------

  /** The first interval of at least len pages, or |free|. */
  function FirstFit(free: seq<Interval>, len: nat): (k: nat)
    ensures k <= |free|
    ensures k < |free| ==> free[k].end - free[k].begin >= len
    ensures forall j | 0 <= j < k :: free[j].end - free[j].begin < len
  {
    if free == [] then 0
    else if free[0].end - free[0].begin >= len then 0
    else 1 + FirstFit(free[1..], len)
  }

  lemma {:induction false} FirstFitIs(free: seq<Interval>, len: nat, k: nat)
    requires k <= |free| && forall j | 0 <= j < k :: free[j].end - free[j].begin < len
    requires k < |free| ==> free[k].end - free[k].begin >= len
    ensures FirstFit(free, len) == k
  {
    if k == 0 {
    } else {
      FirstFitIs(free[1..], len, k - 1);
    }
  }

  /** The list after len pages are taken off the front of interval k. */
  function Without(free: seq<Interval>, k: nat, len: nat): seq<Interval>
    requires k < |free| && free[k].end - free[k].begin >= len
  {
    if free[k].end - free[k].begin == len then free[..k] + free[k + 1..]
    else free[k := free[k].(begin := free[k].begin + len)]
  }

  lemma WithoutIs(free: seq<Interval>, k: nat, len: nat)
    requires k < |free| && free[k].end - free[k].begin >= len
    ensures free[k].end - free[k].begin == len ==> Without(free, k, len) == free[..k] + free[k + 1..]
    ensures free[k].end - free[k].begin != len ==>
              Without(free, k, len) == free[k := Interval(free[k].begin + len, free[k].end)]
  {
  }

  lemma WithoutCanonical(free: seq<Interval>, k: nat, len: nat)
    requires Canonical(free) && k < |free| && free[k].end - free[k].begin >= len
    ensures Canonical(Without(free, k, len))
  {
    var rest := Without(free, k, len);
    assert |rest| < |free| ==> forall j | 0 <= j < |rest| :: rest[j] == free[if j < k then j else j + 1];
  }

  /** Which interval the one at place j was. */
  function TakenFrom(free: seq<Interval>, k: nat, len: nat, j: nat): nat
    requires k < |free|
  {
    if free[k].end - free[k].begin == len && j >= k then j + 1 else j
  }

  lemma WithoutAt(free: seq<Interval>, k: nat, len: nat, j: nat)
    requires k < |free| && free[k].end - free[k].begin >= len && j < |Without(free, k, len)|
    ensures var o := TakenFrom(free, k, len, j);
            && o < |free| && (o == k ==> free[k].end - free[k].begin > len)
            && Without(free, k, len)[j] == if o == k then free[k].(begin := free[k].begin + len) else free[o]
  {
  }

  lemma WithoutHas(free: seq<Interval>, k: nat, len: nat, o: nat) returns (j: nat)
    requires k < |free| && free[k].end - free[k].begin >= len && o < |free|
    requires o == k ==> free[k].end - free[k].begin > len
    ensures j < |Without(free, k, len)| && TakenFrom(free, k, len, j) == o
  {
    j := if free[k].end - free[k].begin == len && o > k then o - 1 else o;
  }

  lemma NotBoth(free: seq<Interval>, o: nat, k: nat, p: nat)
    requires Canonical(free) && o < |free| && k < |free| && o != k
    ensures !(Inside(free[o], p) && Inside(free[k], p))
  {
    hide Canonical;
    Ordered(free, if o < k then o else k, if o < k then k else o);
  }

  lemma TakenBack(free: seq<Interval>, k: nat, len: nat, p: nat, j: nat)
    requires Canonical(free) && k < |free| && free[k].end - free[k].begin >= len
    requires j < |Without(free, k, len)| && Inside(Without(free, k, len)[j], p)
    ensures PageIn(free, p) && !(free[k].begin <= p < free[k].begin + len)
  {
    hide Canonical, Without;
    WithoutAt(free, k, len, j);
    var o := TakenFrom(free, k, len, j);
    assert Inside(free[o], p);
    if o != k {
      NotBoth(free, o, k, p);
    }
  }

  lemma TakenStays(free: seq<Interval>, k: nat, len: nat, p: nat, o: nat)
    requires k < |free| && free[k].end - free[k].begin >= len && o < |free| && Inside(free[o], p)
    requires !(free[k].begin <= p < free[k].begin + len)
    ensures PageIn(Without(free, k, len), p)
  {
    hide Without;
    var j := WithoutHas(free, k, len, o);
    WithoutAt(free, k, len, j);
    assert Inside(Without(free, k, len)[j], p);
  }

  /** Exactly these pages are taken, and they were free. */
  lemma TakesExactly(free: seq<Interval>, k: nat, len: nat, p: nat)
    requires Canonical(free) && k < |free| && free[k].end - free[k].begin >= len
    ensures free[k].begin <= p < free[k].begin + len ==> PageIn(free, p)
    ensures PageIn(Without(free, k, len), p) <==> PageIn(free, p) && !(free[k].begin <= p < free[k].begin + len)
  {
    hide Canonical, Without;
    var rest := Without(free, k, len);
    if free[k].begin <= p < free[k].begin + len {
      assert Inside(free[k], p);
    }
    if o :| 0 <= o < |free| && Inside(free[o], p) && !(free[k].begin <= p < free[k].begin + len) {
      TakenStays(free, k, len, p, o);
    }
    if j :| 0 <= j < |rest| && Inside(rest[j], p) {
      TakenBack(free, k, len, p, j);
    }
  }

  lemma TakesAll(free: seq<Interval>, k: nat, len: nat)
    requires Canonical(free) && k < |free| && free[k].end - free[k].begin >= len
    ensures forall p: nat | free[k].begin <= p < free[k].begin + len :: PageIn(free, p)
    ensures forall p: nat :: PageIn(Without(free, k, len), p) <==>
                             PageIn(free, p) && !(free[k].begin <= p < free[k].begin + len)
  {
    hide Canonical, PageIn, Without;
    var rest := Without(free, k, len);
    forall p: nat
      ensures free[k].begin <= p < free[k].begin + len ==> PageIn(free, p)
      ensures PageIn(rest, p) <==> PageIn(free, p) && !(free[k].begin <= p < free[k].begin + len)
    {
      TakesExactly(free, k, len, p);
    }
  }

  // ---------- deallocation ----------

  /** Interval k is the first that begins above b. */
  ghost predicate FirstAbove(free: seq<Interval>, k: nat, b: nat)
  {
    k < |free| && b < free[k].begin && forall j | 0 <= j < k :: free[j].begin <= b
  }

  /** The first interval that begins above b, or |free|. */
  function AboveIndex(free: seq<Interval>, b: nat): (k: nat)
    ensures k <= |free|
    ensures forall j | 0 <= j < k :: free[j].begin <= b
    ensures k < |free| ==> b < free[k].begin
  {
    if free == [] || b < free[0].begin then 0 else 1 + AboveIndex(free[1..], b)
  }

  lemma {:induction false} AboveIs(free: seq<Interval>, b: nat, k: nat)
    requires k <= |free| && forall j | 0 <= j < k :: free[j].begin <= b
    requires k < |free| ==> b < free[k].begin
    ensures AboveIndex(free, b) == k
  {
    if k == 0 {
    } else {
      AboveIs(free[1..], b, k - 1);
    }
  }

  /** When no interval begins above a page that is not free, no free page is above it. */
  lemma AllBelow(free: seq<Interval>, b: nat, p: nat)
    requires AboveIndex(free, b) == |free| && !PageIn(free, b) && PageIn(free, p)
    ensures p < b
  {
    var j :| 0 <= j < |free| && Inside(free[j], p);
    assert !Inside(free[j], b);
  }

  /** [b, e) fits between interval k and the one before. */
  predicate FitsBefore(free: seq<Interval>, k: nat, b: nat, e: nat)
    requires k < |free|
  {
    (if k > 0 then free[k - 1].end else IOMAP_START) <= b && e <= free[k].begin
  }

  predicate JoinsNext(free: seq<Interval>, k: nat, e: nat)
    requires k < |free|
  {
    e == free[k].begin
  }

  predicate JoinsPrevious(free: seq<Interval>, k: nat, b: nat)
    requires k < |free|
  {
    k > 0 && free[k - 1].end == b
  }

  /** The list after [b, e) is given back before interval k. */
  function With(free: seq<Interval>, k: nat, b: nat, e: nat): seq<Interval>
    requires k < |free|
  {
    if JoinsNext(free, k, e) && JoinsPrevious(free, k, b) then
      free[..k - 1] + [Interval(free[k - 1].begin, free[k].end)] + free[k + 1..]
    else if JoinsNext(free, k, e) then free[k := Interval(b, free[k].end)]
    else if JoinsPrevious(free, k, b) then free[k - 1 := Interval(free[k - 1].begin, e)]
    else free[..k] + [Interval(b, e)] + free[k..]
  }

  lemma JoinBoth(free: seq<Interval>, k: nat)
    requires Canonical(free) && 0 < k < |free|
    ensures Canonical(free[..k - 1] + [Interval(free[k - 1].begin, free[k].end)] + free[k + 1..])
  {
    var all := free[..k - 1] + [Interval(free[k - 1].begin, free[k].end)] + free[k + 1..];
    assert all[k - 1] == Interval(free[k - 1].begin, free[k].end);
    assert forall j | 0 <= j < |all| && j != k - 1 :: all[j] == free[if j < k - 1 then j else j + 1];
  }

  lemma BetweenOrdered(free: seq<Interval>, k: nat, v: Interval, i: nat, j: nat)
    requires Canonical(free) && k <= |free| && v.begin < v.end && i < j <= |free|
    requires k > 0 ==> free[k - 1].end < v.begin
    requires k < |free| ==> v.end < free[k].begin
    ensures var all := free[..k] + [v] + free[k..];
            all[i].end < all[j].begin
  {
    hide Canonical;
    if i == k {
      if j > k + 1 {
        CanonicalAt(free, k);
        Ordered(free, k, j - 1);
      }
    } else if j == k {
      if i < k - 1 {
        CanonicalAt(free, k - 1);
        Ordered(free, i, k - 1);
      }
    } else {
      Ordered(free, if i < k then i else i - 1, if j < k then j else j - 1);
    }
  }

  lemma BetweenIs(free: seq<Interval>, k: nat, v: Interval, i: nat)
    requires k <= |free| && i <= |free|
    ensures var all := free[..k] + [v] + free[k..];
            |all| == |free| + 1 && all[i] == if i < k then free[i] else if i == k then v else free[i - 1]
  {
  }

  lemma Between(free: seq<Interval>, k: nat, v: Interval)
    requires Canonical(free) && k <= |free| && IOMAP_START <= v.begin < v.end <= IOMAP_END
    requires k > 0 ==> free[k - 1].end < v.begin
    requires k < |free| ==> v.end < free[k].begin
    ensures Canonical(free[..k] + [v] + free[k..])
  {
    var all := free[..k] + [v] + free[k..];
    assert |all| == |free| + 1;
    forall i: nat | i < |all|
      ensures IOMAP_START <= all[i].begin < all[i].end <= IOMAP_END
    {
      BetweenIs(free, k, v, i);
    }
    forall i: nat, j: nat | i < j < |all|
      ensures all[i].end < all[j].begin
    {
      BetweenOrdered(free, k, v, i, j);
    }
  }

  lemma WithCanonical(free: seq<Interval>, k: nat, b: nat, e: nat)
    requires Canonical(free) && FirstAbove(free, k, b) && FitsBefore(free, k, b, e) && b < e
    ensures Canonical(With(free, k, b, e))
  {
    if JoinsNext(free, k, e) && JoinsPrevious(free, k, b) {
      JoinBoth(free, k);
    } else if JoinsNext(free, k, e) || JoinsPrevious(free, k, b) {
    } else {
      Between(free, k, Interval(b, e));
    }
  }

  /** Which interval the one at place i was, when it is not the given one joined with none. */
  lemma GivenBoth(free: seq<Interval>, k: nat, p: nat, i: nat)
    requires 0 < k < |free|
    requires var all := free[..k - 1] + [Interval(free[k - 1].begin, free[k].end)] + free[k + 1..];
             i < |all| && Inside(all[i], p)
    ensures PageIn(free, p) || free[k - 1].end <= p < free[k].begin
  {
    if i == k - 1 {
      if p < free[k - 1].end {
        assert Inside(free[k - 1], p);
      } else if free[k].begin <= p {
        assert Inside(free[k], p);
      }
    } else {
      assert Inside(free[if i < k - 1 then i else i + 1], p);
    }
  }

  lemma GivenNext(free: seq<Interval>, k: nat, b: nat, p: nat, i: nat)
    requires k < |free| && i < |free| && Inside(free[k := Interval(b, free[k].end)][i], p)
    ensures PageIn(free, p) || b <= p < free[k].begin
  {
    if i != k || free[k].begin <= p {
      assert Inside(free[i], p);
    }
  }

  lemma GivenPrevious(free: seq<Interval>, k: nat, e: nat, p: nat, i: nat)
    requires 0 < k <= |free| && i < |free| && Inside(free[k - 1 := Interval(free[k - 1].begin, e)][i], p)
    ensures PageIn(free, p) || free[k - 1].end <= p < e
  {
    if i != k - 1 || p < free[k - 1].end {
      assert Inside(free[i], p);
    }
  }

  lemma GivenNew(free: seq<Interval>, k: nat, b: nat, e: nat, p: nat, i: nat)
    requires k <= |free| && i <= |free| && Inside((free[..k] + [Interval(b, e)] + free[k..])[i], p)
    ensures PageIn(free, p) || b <= p < e
  {
    if i != k {
      assert Inside(free[if i < k then i else i - 1], p);
    }
  }

  lemma GivesOnly(free: seq<Interval>, k: nat, b: nat, e: nat, p: nat, i: nat)
    requires k < |free| && FitsBefore(free, k, b, e) && b < e
    requires i < |With(free, k, b, e)| && Inside(With(free, k, b, e)[i], p) && !(b <= p < e)
    ensures PageIn(free, p)
  {
    hide Inside, PageIn, FitsBefore;
    if JoinsNext(free, k, e) && JoinsPrevious(free, k, b) {
      GivenBoth(free, k, p, i);
    } else if JoinsNext(free, k, e) {
      GivenNext(free, k, b, p, i);
    } else if JoinsPrevious(free, k, b) {
      GivenPrevious(free, k, e, p, i);
    } else {
      GivenNew(free, k, b, e, p, i);
    }
  }

  lemma KeptBoth(free: seq<Interval>, k: nat, p: nat, j: nat)
    requires 0 < k < |free| && free[k - 1].end <= free[k].begin && j < |free|
    requires Inside(free[j], p) || (j == k && free[k - 1].end <= p < free[k].begin)
    requires free[k - 1].begin <= free[k - 1].end && free[k].begin <= free[k].end
    ensures PageIn(free[..k - 1] + [Interval(free[k - 1].begin, free[k].end)] + free[k + 1..], p)
  {
    var all := free[..k - 1] + [Interval(free[k - 1].begin, free[k].end)] + free[k + 1..];
    assert Inside(all[if j < k then j else j - 1], p);
  }

  lemma KeptOne(free: seq<Interval>, k: nat, v: Interval, p: nat, j: nat)
    requires k < |free| && j < |free| && (if j == k then Inside(v, p) else Inside(free[j], p))
    ensures PageIn(free[k := v], p)
  {
    assert Inside(free[k := v][j], p);
  }

  lemma KeptNew(free: seq<Interval>, k: nat, v: Interval, p: nat)
    requires k <= |free| && (Inside(v, p) || PageIn(free, p))
    ensures PageIn(free[..k] + [v] + free[k..], p)
  {
    var all := free[..k] + [v] + free[k..];
    if Inside(v, p) {
      assert Inside(all[k], p);
    } else {
      var j :| 0 <= j < |free| && Inside(free[j], p);
      assert Inside(all[if j < k then j else j + 1], p);
    }
  }

  lemma IsIn(free: seq<Interval>, j: nat, p: nat)
    requires j < |free| && Inside(free[j], p)
    ensures PageIn(free, p)
  {
  }

  lemma GivesKeeps(free: seq<Interval>, k: nat, b: nat, e: nat, p: nat, j: nat)
    requires Canonical(free) && k < |free| && FitsBefore(free, k, b, e) && b < e && j < |free|
    requires Inside(free[j], p)
    ensures PageIn(With(free, k, b, e), p)
  {
    CanonicalAt(free, k);
    if k > 0 {
      CanonicalAt(free, k - 1);
    }
    hide Canonical, PageIn;
    if JoinsNext(free, k, e) && JoinsPrevious(free, k, b) {
      KeptBoth(free, k, p, j);
    } else if JoinsNext(free, k, e) {
      KeptOne(free, k, Interval(b, free[k].end), p, j);
    } else if JoinsPrevious(free, k, b) {
      KeptOne(free, k - 1, Interval(free[k - 1].begin, e), p, j);
    } else {
      IsIn(free, j, p);
      KeptNew(free, k, Interval(b, e), p);
    }
  }

  lemma GivesThese(free: seq<Interval>, k: nat, b: nat, e: nat, p: nat)
    requires Canonical(free) && k < |free| && FitsBefore(free, k, b, e) && b <= p < e
    ensures PageIn(With(free, k, b, e), p)
  {
    CanonicalAt(free, k);
    if k > 0 {
      CanonicalAt(free, k - 1);
    }
    hide Canonical, PageIn;
    if JoinsNext(free, k, e) && JoinsPrevious(free, k, b) {
      KeptBoth(free, k, p, k);
    } else if JoinsNext(free, k, e) {
      KeptOne(free, k, Interval(b, free[k].end), p, k);
    } else if JoinsPrevious(free, k, b) {
      KeptOne(free, k - 1, Interval(free[k - 1].begin, e), p, k - 1);
    } else {
      KeptNew(free, k, Interval(b, e), p);
    }
  }

  /** Exactly these pages are added. */
  lemma GivesExactly(free: seq<Interval>, k: nat, b: nat, e: nat, p: nat)
    requires Canonical(free) && FirstAbove(free, k, b) && FitsBefore(free, k, b, e) && b < e
    ensures PageIn(With(free, k, b, e), p) <==> PageIn(free, p) || b <= p < e
  {
    hide Canonical, With;
    var all := With(free, k, b, e);
    if b <= p < e {
      GivesThese(free, k, b, e, p);
    }
    if j :| 0 <= j < |free| && Inside(free[j], p) {
      GivesKeeps(free, k, b, e, p, j);
    }
    if i :| 0 <= i < |all| && Inside(all[i], p) && !(b <= p < e) {
      GivesOnly(free, k, b, e, p, i);
    }
  }

  lemma GivesAll(free: seq<Interval>, k: nat, b: nat, e: nat)
    requires Canonical(free) && FirstAbove(free, k, b) && FitsBefore(free, k, b, e) && b < e
    ensures forall p: nat :: PageIn(With(free, k, b, e), p) <==> PageIn(free, p) || b <= p < e
  {
    hide Canonical, PageIn, With;
    var all := With(free, k, b, e);
    forall p: nat
      ensures PageIn(all, p) <==> PageIn(free, p) || b <= p < e
    {
      GivesExactly(free, k, b, e, p);
    }
  }

  lemma Overlap(free: seq<Interval>, b: nat, e: nat, k: nat) returns (p: nat)
    requires Canonical(free) && FirstAbove(free, k, b) && IOMAP_START <= b < e && !FitsBefore(free, k, b, e)
    ensures b <= p < e && PageIn(free, p)
  {
    p := if k > 0 && free[k - 1].end > b then b else free[k].begin;
    assert Inside(free[if k > 0 && free[k - 1].end > b then k - 1 else k], p);
  }

  /** A range that is not free, with a free interval above it, has such a place. */
  lemma PlaceExists(free: seq<Interval>, b: nat, e: nat, k: nat)
    requires Canonical(free) && FirstAbove(free, k, b) && IOMAP_START <= b < e
    requires forall p: nat | b <= p < e :: !PageIn(free, p)
    ensures FitsBefore(free, k, b, e)
  {
    if !FitsBefore(free, k, b, e) {
      var p := Overlap(free, b, e, k);
      assert false;
    }
  }

  /** The page below a range that is not free is free exactly when the range meets an interval there. */
  lemma MeetsPrevious(free: seq<Interval>, k: nat, b: nat)
    requires Canonical(free) && FirstAbove(free, k, b) && b > 0 && !PageIn(free, b)
    ensures JoinsPrevious(free, k, b) <==> PageIn(free, b - 1)
  {
    if j :| 0 <= j < |free| && Inside(free[j], b - 1) {
      assert !Inside(free[j], b);
    }
    if k > 0 {
      Ends(free, k - 1);
    }
  }

  /** And so for the page above. */
  lemma MeetsNext(free: seq<Interval>, k: nat, b: nat, e: nat)
    requires Canonical(free) && FirstAbove(free, k, b) && FitsBefore(free, k, b, e) && b < e
    ensures JoinsNext(free, k, e) <==> PageIn(free, e)
  {
    Ends(free, k);
  }
}
