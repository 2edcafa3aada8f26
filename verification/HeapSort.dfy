/** sort of libfreec/src/stdlib.c: an in-place heapsort whose one loop first builds the heap and then takes the
    greatest element off it, mending the heap in each round.  Offsets are counted in elements. */
module HeapSort {
  /** comp orders all values, up to ties; the source only looks at whether its result is negative. */
  ghost predicate TotalPreorder<T(!new)>(comp: (T, T) -> int)
  {
    && (forall x, y :: comp(x, y) >= 0 || comp(y, x) >= 0)
    && (forall x, y, z :: comp(x, y) >= 0 && comp(y, z) >= 0 ==> comp(x, z) >= 0)
  }

  predicate Child(p: int, c: int)
  {
    c == 2 * p + 1 || c == 2 * p + 2
  }

  /** Each element of s[..end] from start on is at least its children, except the element at `open`. */
  ghost predicate HeapExcept<T(!new)>(s: seq<T>, comp: (T, T) -> int, start: int, end: int, open: int)
    requires 0 <= start && end <= |s|
  {
    forall p, c | start <= p < c < end && Child(p, c) && p != open :: comp(s[p], s[c]) >= 0
  }

  ghost predicate Heap<T(!new)>(s: seq<T>, comp: (T, T) -> int, start: int, end: int)
    requires 0 <= start && end <= |s|
  {
    forall p, c | start <= p < c < end && Child(p, c) :: comp(s[p], s[c]) >= 0
  }

  /** The element above `open` is at least the children of `open`. */
  ghost predicate Bridged<T(!new)>(s: seq<T>, comp: (T, T) -> int, start: int, end: int, open: int)
    requires 0 <= start && end <= |s|
  {
    forall p, c | start <= p < open < c < end && Child(p, open) && Child(open, c) :: comp(s[p], s[c]) >= 0
  }

  /** From end on, each element is at least all those before it. */
  ghost predicate Tail<T(!new)>(s: seq<T>, comp: (T, T) -> int, end: int)
  {
    forall i, j | 0 <= i < j < |s| && end <= j :: comp(s[j], s[i]) >= 0
  }

  ghost predicate Sorted<T(!new)>(s: seq<T>, comp: (T, T) -> int)
  {
    forall i, j | 0 <= i < j < |s| :: comp(s[j], s[i]) >= 0
  }

  /** The first element of a heap is the greatest. */
  lemma {:induction false} FirstIsGreatest<T(!new)>(s: seq<T>, comp: (T, T) -> int, end: int, i: int)
    requires TotalPreorder(comp) && 0 <= i < end <= |s| && Heap(s, comp, 0, end)
    ensures comp(s[0], s[i]) >= 0
  {
    if i == 0 {
    } else {
      var p := (i - 1) / 2;
      assert Child(p, i);
      FirstIsGreatest(s, comp, end, p);
    }
  }

  function Swapped<T>(s: seq<T>, i: int, j: int): seq<T>
    requires 0 <= i < |s| && 0 <= j < |s|
  {
    s[i := s[j]][j := s[i]]
  }

  lemma SwapIsPermutation<T>(s: seq<T>, i: int, j: int)
    requires 0 <= i < |s| && 0 <= j < |s|
    ensures multiset(Swapped(s, i, j)) == multiset(s)
  {
  }

  lemma SwapKeepsTail<T(!new)>(s: seq<T>, comp: (T, T) -> int, end: int, i: int, j: int)
    requires 0 <= i < end <= |s| && 0 <= j < end && Tail(s, comp, end)
    ensures Tail(Swapped(s, i, j), comp, end)
  {
  }

  /** child is a child of open, and at least each child of open. */
  ghost predicate GreaterChild<T(!new)>(s: seq<T>, comp: (T, T) -> int, end: int, open: int, child: int)
    requires 0 <= open < child < end <= |s|
  {
    Child(open, child) && forall c | open < c < end && Child(open, c) :: comp(s[child], s[c]) >= 0
  }

  lemma ChooseChild<T(!new)>(s: seq<T>, comp: (T, T) -> int, end: int, open: int)
    requires TotalPreorder(comp) && 0 <= open && 2 * open + 1 < end <= |s|
    ensures GreaterChild(s, comp, end, open,
              if 2 * open + 2 < end && comp(s[2 * open + 1], s[2 * open + 2]) < 0 then 2 * open + 2 else 2 * open + 1)
  {
    assert comp(s[2 * open + 1], s[2 * open + 1]) >= 0;
  }

  /** Moving the greater child up moves the opening down. */
  lemma SiftDown<T(!new)>(s: seq<T>, comp: (T, T) -> int, start: int, end: int, open: int, child: int)
    requires 0 <= start <= open < child < end <= |s| && GreaterChild(s, comp, end, open, child)
    requires HeapExcept(s, comp, start, end, open) && Bridged(s, comp, start, end, open)
    requires comp(s[child], s[open]) >= 0
    ensures HeapExcept(Swapped(s, open, child), comp, start, end, child)
    ensures Bridged(Swapped(s, open, child), comp, start, end, child)
  {
  }

  /** Taking the first element off a heap leaves a heap open at the front, before a longer tail. */
  lemma Pop<T(!new)>(s: seq<T>, comp: (T, T) -> int, end: int)
    requires TotalPreorder(comp) && 1 < end <= |s| && Heap(s, comp, 0, end) && Tail(s, comp, end)
    ensures HeapExcept(Swapped(s, end - 1, 0), comp, 0, end - 1, 0) && Tail(Swapped(s, end - 1, 0), comp, end - 1)
  {
    var t := Swapped(s, end - 1, 0);
    forall i, j | 0 <= i < j < |t| && end - 1 <= j
      ensures comp(t[j], t[i]) >= 0
    {
      if j == end - 1 {
        FirstIsGreatest(s, comp, end, if i == 0 then end - 1 else i);
      }
    }
  }

  /** swap */
  method Swap<T>(a: array<T>, i: int, j: int)
    requires 0 <= i < a.Length && 0 <= j < a.Length
    modifies a
    ensures a[..] == Swapped(old(a[..]), i, j)
  {
    a[i], a[j] := a[j], a[i];
  }

  lemma StartBridged<T(!new)>(s: seq<T>, comp: (T, T) -> int, start: int, end: int)
    requires 0 <= start && end <= |s|
    ensures Bridged(s, comp, start, end, start)
  {
  }

  lemma Childless<T(!new)>(s: seq<T>, comp: (T, T) -> int, start: int, end: int, open: int)
    requires 0 <= start && end <= |s| && 2 * open + 1 >= end && HeapExcept(s, comp, start, end, open)
    ensures Heap(s, comp, start, end)
  {
  }

  lemma Total<T(!new)>(comp: (T, T) -> int, x: T, y: T)
    requires TotalPreorder(comp) && comp(x, y) < 0
    ensures comp(y, x) >= 0
  {
  }

  lemma Mended<T(!new)>(s: seq<T>, comp: (T, T) -> int, start: int, end: int, open: int, child: int)
    requires TotalPreorder(comp) && 0 <= start <= open < child < end <= |s|
    requires HeapExcept(s, comp, start, end, open) && comp(s[open], s[child]) >= 0
    requires GreaterChild(s, comp, end, open, child)
    ensures Heap(s, comp, start, end)
  {
  }

  /** The inner loop of sort: mend the heap from start on. */
  method RepairHeap<T(!new)>(a: array<T>, comp: (T, T) -> int, start: int, end: int)
    requires TotalPreorder(comp) && 0 <= start && end <= a.Length
    requires HeapExcept(a[..], comp, start, end, start) && Tail(a[..], comp, end)
    modifies a
    ensures Heap(a[..], comp, start, end) && Tail(a[..], comp, end)
    ensures multiset(a[..]) == multiset(old(a[..]))
  {
    hide HeapExcept, Heap, Bridged, Tail, GreaterChild, TotalPreorder;
    var root := start;
    StartBridged(a[..], comp, start, end);
    while true
      invariant start <= root
      invariant HeapExcept(a[..], comp, start, end, root) && Bridged(a[..], comp, start, end, root)
      invariant Tail(a[..], comp, end) && multiset(a[..]) == multiset(old(a[..]))
      decreases end - root
    {
      var child := root * 2 + 1;
      if child >= end {
        Childless(a[..], comp, start, end, root);
        break;
      }
      ChooseChild(a[..], comp, end, root);
      if child + 1 < end && comp(a[child], a[child + 1]) < 0 {
        child := child + 1;
      }
      if comp(a[root], a[child]) >= 0 {
        Mended(a[..], comp, start, end, root, child);
        break;
      }
      Total(comp, a[root], a[child]);
      SiftDown(a[..], comp, start, end, root, child);
      SwapKeepsTail(a[..], comp, end, root, child);
      SwapIsPermutation(a[..], root, child);
      Swap(a, root, child);
      root := child;
    }
  }

  /** The second half of the elements are leaves. */
  lemma Begin<T(!new)>(s: seq<T>, comp: (T, T) -> int)
    ensures Heap(s, comp, |s| / 2, |s|) && Tail(s, comp, |s|)
  {
  }

  lemma Widen<T(!new)>(s: seq<T>, comp: (T, T) -> int, start: int, end: int)
    requires 0 <= start && end <= |s| && Heap(s, comp, start + 1, end)
    ensures HeapExcept(s, comp, start, end, start)
  {
  }

  lemma Done<T(!new)>(s: seq<T>, comp: (T, T) -> int, end: int)
    requires end <= 1 && Tail(s, comp, end)
    ensures Sorted(s, comp)
  {
  }

  /** sort: for a comparator that orders all values, an ordered permutation. */
  method Sort<T(!new)>(a: array<T>, comp: (T, T) -> int)
    requires TotalPreorder(comp)
    modifies a
    ensures Sorted(a[..], comp) && multiset(a[..]) == multiset(old(a[..]))
  {
    hide HeapExcept, Heap, Tail, TotalPreorder, Sorted;
    var start, end := a.Length / 2, a.Length;
    Begin(a[..], comp);
    while end > 1
      invariant 0 <= start && end <= a.Length && (start > 0 ==> end == a.Length)
      invariant Heap(a[..], comp, start, end) && Tail(a[..], comp, end)
      invariant multiset(a[..]) == multiset(old(a[..]))
      decreases end, start
    {
      if start > 0 {
        start := start - 1;
        Widen(a[..], comp, start, end);
      } else {
        end := end - 1;
        Pop(a[..], comp, end + 1);
        SwapIsPermutation(a[..], end, 0);
        Swap(a, end, 0);
      }
      RepairHeap(a, comp, start, end);
    }
    Done(a[..], comp, end);
  }
}
