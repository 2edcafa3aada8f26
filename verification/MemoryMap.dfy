/** construct_mmap_dyn of kernel/src/memory.c: from the firmware's memory map, in any order and overlapping, to
    the pages the kernel hands out. */
module MemoryMap {
  import opened Dynmem
  import opened HeapSort
  import opened Rounding

  /** struct mmap_entry, in bytes; `available` stands for the type MMAP_ENTRY_AVAILABLE. */
  datatype MmapEntry = MmapEntry(base: nat, length: nat, available: bool)

  /** comp_mmap_entry */
  function CompMmapEntry(a: MmapEntry, b: MmapEntry): int
  {
    if a.base > b.base then 1 else if a.base < b.base then -1 else 0
  }

  /** Page p lies fully inside an available entry. */
  predicate Covers(e: MmapEntry, p: nat)
  {
    e.available && e.base <= 4096 * p && 4096 * p + 4096 <= e.base + e.length
  }

  ghost predicate CoveredBy(s: seq<MmapEntry>, p: nat)
  {
    exists k | 0 <= k < |s| :: Covers(s[k], p)
  }

  /** DYNMEM_START_PHYS_MINIMUM, 8 MiB, is page 2048. */
  ghost predicate SamePages(s: seq<MmapEntry>, t: seq<MmapEntry>)
  {
    forall p: nat :: CoveredBy(t, p) <==> 2048 <= p && CoveredBy(s, p)
  }

  /** A page-aligned piece of memory from 8 MiB on. */
  predicate Trimmed(e: MmapEntry)
  {
    e.base % 4096 == 0 && e.length % 4096 == 0 && e.length > 0 && e.base >= 0x80_0000
  }

  /** The available entries are trimmed, sorted, disjoint, and end by `end`. */
  ghost predicate Tidy(s: seq<MmapEntry>, end: nat)
  {
    && (forall k | 0 <= k < |s| && s[k].available :: Trimmed(s[k]) && s[k].base + s[k].length <= end)
    && (forall k, l | 0 <= k < l < |s| && s[k].available && s[l].available :: s[k].base + s[k].length <= s[l].base)
  }

  /** What the first loop makes of an entry, and the new end. */
  function Trim(e: MmapEntry, prevEnd: nat): (MmapEntry, nat)
  {
    var start, end := PageCeil(e.base), PageFloor(e.base + e.length);
    var start := if start < prevEnd then prevEnd else start;
    if !e.available then (e, prevEnd)
    else if start >= end then (e.(available := false), prevEnd)
    else (MmapEntry(start, end - start, true), end)
  }

  lemma CeilFloor(x: nat, p: nat)
    ensures PageCeil(x) <= 4096 * p <==> x <= 4096 * p
    ensures 4096 * p + 4096 <= PageFloor(x) <==> 4096 * p + 4096 <= x
    ensures PageCeil(x) % 4096 == 0 && PageFloor(x) % 4096 == 0 && PageFloor(x) <= x
  {
    var q, d := x / 4096, x % 4096;
    assert x == 4096 * q + d;
  }

  lemma TrimTidy(e: MmapEntry, prevEnd: nat)
    requires prevEnd % 4096 == 0 && prevEnd >= 0x80_0000
    ensures var (e', end) := Trim(e, prevEnd);
            && end % 4096 == 0 && end >= prevEnd
            && (e'.available ==> Trimmed(e') && prevEnd <= e'.base && e'.base + e'.length == end)
            && (end > prevEnd ==> e.available && end <= e.base + e.length)
  {
    CeilFloor(e.base, 0);
    CeilFloor(e.base + e.length, 0);
  }

  /** Pages before prevEnd are covered already: prevEnd is where some earlier entry ends. */
  ghost predicate EndsEarlier(s: seq<MmapEntry>, i: nat, prevEnd: nat)
    requires i <= |s|
  {
    prevEnd == 0x80_0000 || exists j | 0 <= j < i :: s[j].available && prevEnd <= s[j].base + s[j].length
  }

  ghost predicate ByBase(s: seq<MmapEntry>)
  {
    forall i, j | 0 <= i < j < |s| :: s[i].base <= s[j].base
  }

  /** Trimming keeps exactly the pages from prevEnd on. */
  lemma TrimCovers(e: MmapEntry, prevEnd: nat, p: nat)
    requires prevEnd % 4096 == 0
    ensures Covers(Trim(e, prevEnd).0, p) <==> Covers(e, p) && prevEnd <= 4096 * p
  {
    CeilFloor(e.base, p);
    CeilFloor(e.base + e.length, p);
  }

  /** What an entry has before prevEnd, earlier entries have too. */
  lemma CoveredEarlier(s: seq<MmapEntry>, i: nat, prevEnd: nat, p: nat)
    requires i < |s| && ByBase(s) && prevEnd % 4096 == 0 && EndsEarlier(s, i, prevEnd)
    requires 2048 <= p && Covers(s[i], p) && 4096 * p < prevEnd
    ensures CoveredBy(s[..i], p)
  {
    var j :| 0 <= j < i && s[j].available && prevEnd <= s[j].base + s[j].length;
    assert 4096 * p + 4096 <= prevEnd;
    assert Covers(s[..i][j], p);
  }

  lemma CoveredMore(s: seq<MmapEntry>, i: nat, p: nat)
    requires i < |s|
    ensures CoveredBy(s[..i + 1], p) <==> CoveredBy(s[..i], p) || Covers(s[i], p)
  {
    var t := s[..i + 1];
    if k :| 0 <= k < |t| && Covers(t[k], p) {
      assert k < i ==> Covers(s[..i][k], p);
    }
    if k :| 0 <= k < i && Covers(s[..i][k], p) {
      assert Covers(t[k], p);
    }
    if Covers(s[i], p) {
      assert Covers(t[i], p);
    }
  }

  /** One step of the first loop, for any page. */
  lemma StepCovers(s: seq<MmapEntry>, i: nat, t: seq<MmapEntry>, prevEnd: nat, p: nat)
    requires i < |s| == |t| && ByBase(s) && prevEnd % 4096 == 0 && prevEnd >= 0x80_0000
    requires EndsEarlier(s, i, prevEnd)
    requires CoveredBy(t[..i], p) <==> 2048 <= p && CoveredBy(s[..i], p)
    requires t[i] == Trim(s[i], prevEnd).0
    ensures CoveredBy(t[..i + 1], p) <==> 2048 <= p && CoveredBy(s[..i + 1], p)
  {
    hide CoveredBy, EndsEarlier, Trim, Covers;
    TrimCovers(s[i], prevEnd, p);
    CoveredMore(t, i, p);
    CoveredMore(s, i, p);
    if 2048 <= p && Covers(s[i], p) && 4096 * p < prevEnd {
      CoveredEarlier(s, i, prevEnd, p);
    }
  }

  lemma TrimStep(s: seq<MmapEntry>, t: seq<MmapEntry>, i: nat, prevEnd: nat)
    requires i < |s| == |t| && ByBase(s) && t[i] == s[i]
    requires prevEnd % 4096 == 0 && prevEnd >= 0x80_0000 && EndsEarlier(s, i, prevEnd)
    requires Tidy(t[..i], prevEnd) && SamePages(s[..i], t[..i])
    ensures var (e, end) := Trim(s[i], prevEnd);
            var t' := t[i := e];
            && end % 4096 == 0 && end >= 0x80_0000 && EndsEarlier(s, i + 1, end)
            && Tidy(t'[..i + 1], end) && SamePages(s[..i + 1], t'[..i + 1])
  {
    var (e, end) := Trim(s[i], prevEnd);
    var t' := t[i := e];
    TrimTidy(s[i], prevEnd);
    assert t'[..i] == t[..i];
    var front := t'[..i + 1];
    forall p: nat
      ensures CoveredBy(front, p) <==> 2048 <= p && CoveredBy(s[..i + 1], p)
    {
      StepCovers(s, i, t', prevEnd, p);
    }
  }

  /** The available entries in order. */
  function Available(s: seq<MmapEntry>): seq<MmapEntry>
  {
    if s == [] then []
    else Available(s[..|s| - 1]) + if s[|s| - 1].available then [s[|s| - 1]] else []
  }

  lemma AvailableMore(s: seq<MmapEntry>, i: nat)
    requires i < |s|
    ensures Available(s[..i + 1]) == if s[i].available then Available(s[..i]) + [s[i]] else Available(s[..i])
  {
    assert s[..i + 1][..i] == s[..i];
  }

  lemma TidyMore(s: seq<MmapEntry>, e: MmapEntry, end: nat)
    requires Tidy(s, end) && Tidy([e], end) && forall e' | e' in s :: e'.base + e'.length <= e.base
    ensures Tidy(s + [e], end)
  {
  }

  lemma {:induction false} AvailableTidy(s: seq<MmapEntry>, end: nat)
    requires Tidy(s, end)
    ensures Tidy(Available(s), end)
    ensures forall e | e in Available(s) :: e in s && e.available
  {
    if s == [] {
    } else {
      var init, last := s[..|s| - 1], s[|s| - 1];
      AvailableTidy(init, end);
      if last.available {
        TidyMore(Available(init), last, end);
      }
    }
  }

  lemma AvailableLast(s: seq<MmapEntry>)
    requires s != []
    ensures var init, last := s[..|s| - 1], s[|s| - 1];
            Available(s) == if last.available then Available(init) + [last] else Available(init)
  {
  }

  lemma NotCovering(e: MmapEntry, p: nat)
    requires !e.available
    ensures !Covers(e, p)
  {
  }

  lemma LastOf(s: seq<MmapEntry>, e: MmapEntry)
    ensures var t := s + [e]; t != [] && t[..|t| - 1] == s && t[|t| - 1] == e
  {
  }

  lemma CoveredLast(s: seq<MmapEntry>, p: nat)
    requires s != []
    ensures CoveredBy(s, p) <==> CoveredBy(s[..|s| - 1], p) || Covers(s[|s| - 1], p)
  {
    hide CoveredBy;
    CoveredMore(s, |s| - 1, p);
    assert s[..|s|] == s;
  }

  /** The last entry counts if it is available; one that is not covers nothing. */
  lemma AvailableCoversOne(s: seq<MmapEntry>, p: nat)
    requires s != [] && (CoveredBy(Available(s[..|s| - 1]), p) <==> CoveredBy(s[..|s| - 1], p))
    ensures CoveredBy(Available(s), p) <==> CoveredBy(s, p)
  {
    hide CoveredBy;
    hide CoveredBy, Available, Covers;
    var init, last := s[..|s| - 1], s[|s| - 1];
    AvailableLast(s);
    CoveredLast(s, p);
    if last.available {
      LastOf(Available(init), last);
      CoveredLast(Available(init) + [last], p);
    } else {
      NotCovering(last, p);
    }
  }

  lemma {:induction false} AvailableCovers(s: seq<MmapEntry>)
    ensures forall p: nat :: CoveredBy(Available(s), p) <==> CoveredBy(s, p)
  {
    if s == [] {
    } else {
      hide CoveredBy, Covers;
      AvailableCovers(s[..|s| - 1]);
      forall p: nat
        ensures CoveredBy(Available(s), p) <==> CoveredBy(s, p)
      {
        AvailableCoversOne(s, p);
      }
    }
  }

  /** Dropping the other entries loses no page and keeps the order. */
  lemma {:induction false} AvailableKeeps(s: seq<MmapEntry>, end: nat)
    requires Tidy(s, end)
    ensures Tidy(Available(s), end) && forall k | 0 <= k < |Available(s)| :: Available(s)[k].available
    ensures forall p: nat :: CoveredBy(Available(s), p) <==> CoveredBy(s, p)
  {
    AvailableTidy(s, end);
    AvailableCovers(s);
  }

  lemma NoneCovered(s: seq<MmapEntry>, t: seq<MmapEntry>)
    ensures SamePages(s[..0], t[..0]) && Tidy(t[..0], 0x80_0000) && EndsEarlier(s, 0, 0x80_0000)
  {
  }

  lemma SlicesOf(entries: array<MmapEntry>, t: seq<MmapEntry>, i: nat)
    requires entries[..] == t && i < |t|
    ensures entries[..i + 1] == t[..i + 1] && entries[i + 1..] == t[i + 1..]
  {
  }

  /** The first loop: page-align, cut off what earlier entries and the first 8 MiB take. */
  method TrimAll(entries: array<MmapEntry>)
    requires ByBase(entries[..])
    modifies entries
    ensures SamePages(old(entries[..]), entries[..])
    ensures exists end :: Tidy(entries[..], end)
  {
    hide Tidy, SamePages, EndsEarlier, CoveredBy, ByBase;
    ghost var s := entries[..];
    var prevEnd := 0x80_0000;
    NoneCovered(s, entries[..]);
    for i := 0 to entries.Length
      invariant entries[i..] == s[i..]
      invariant prevEnd % 4096 == 0 && prevEnd >= 0x80_0000 && EndsEarlier(s, i, prevEnd)
      invariant Tidy(entries[..i], prevEnd) && SamePages(s[..i], entries[..i])
    {
      ghost var before := entries[..];
      assert entries[i] == s[i];
      TrimStep(s, before, i, prevEnd);
      ghost var after := before[i := Trim(s[i], prevEnd).0];
      assert after[i + 1..] == before[i..][1..] == s[i + 1..];
      assert entries[..i] == before[..i];
      var e := entries[i];
      if !e.available {
        assert entries[..] == after;
        SlicesOf(entries, after, i);
        continue;
      }
      var start := PageCeil(e.base);
      var end := PageFloor(e.base + e.length);
      if start < prevEnd {
        start := prevEnd;
      }
      if start >= end {
        entries[i] := e.(available := false);
        assert entries[..] == after;
        SlicesOf(entries, after, i);
        continue;
      }
      entries[i] := MmapEntry(start, end - start, true);
      assert entries[..] == after;
      SlicesOf(entries, after, i);
      prevEnd := end;
    }
    assert s[..|s|] == s && entries[..entries.Length] == entries[..];
  }

  /** The second loop: the available entries move to the front. */
  /** From entry i on nothing has moved, and the available entries before it are the first len. */
  ghost predicate Compacted(a: seq<MmapEntry>, s: seq<MmapEntry>, len: nat, i: nat)
  {
    |a| == |s| && len <= i <= |s| && a[i..] == s[i..] && a[..len] == Available(s[..i])
  }

  lemma NextSame(a: seq<MmapEntry>, s: seq<MmapEntry>, i: nat)
    requires |a| == |s| && i < |s| && a[i..] == s[i..]
    ensures a[i] == s[i] && a[i + 1..] == s[i + 1..]
  {
    assert a[i..][0] == s[i..][0] && a[i..][1..] == s[i..][1..];
  }

  lemma FrontMore(a: seq<MmapEntry>, len: nat, i: nat)
    requires len <= i < |a|
    ensures a[len := a[i]][..len + 1] == a[..len] + [a[i]] && a[len := a[i]][i + 1..] == a[i + 1..]
  {
  }

  lemma MovedFront(a: seq<MmapEntry>, s: seq<MmapEntry>, len: nat, i: nat)
    requires Compacted(a, s, len, i) && i < |s|
    ensures a[i] == s[i]
    ensures if s[i].available then Compacted(a[len := a[i]], s, len + 1, i + 1) else Compacted(a, s, len, i + 1)
  {
    AvailableMore(s, i);
    hide Available;
    NextSame(a, s, i);
    FrontMore(a, len, i);
  }

  method Compact(entries: array<MmapEntry>) returns (len: nat)
    modifies entries
    ensures len <= entries.Length && entries[..len] == Available(old(entries[..]))
  {
    ghost var s := entries[..];
    len := 0;
    for i := 0 to entries.Length
      invariant len <= i && Compacted(entries[..], s, len, i)
    {
      ghost var before := entries[..];
      MovedFront(before, s, len, i);
      if entries[i].available {
        entries[len] := entries[i];
        assert entries[..] == before[len := before[i]];
        len := len + 1;
      }
    }
    assert s[..|s|] == s && entries[..][..len] == entries[..len];
  }

  lemma CompIsPreorder()
    ensures TotalPreorder(CompMmapEntry)
  {
  }

  lemma PermutedPages(s: seq<MmapEntry>, t: seq<MmapEntry>)
    requires multiset(s) == multiset(t)
    ensures forall p: nat :: CoveredBy(s, p) <==> CoveredBy(t, p)
  {
    forall p: nat
      ensures CoveredBy(s, p) <==> CoveredBy(t, p)
    {
      if k :| 0 <= k < |s| && Covers(s[k], p) {
        assert s[k] in multiset(s);
        assert s[k] in t;
      }
      if k :| 0 <= k < |t| && Covers(t[k], p) {
        assert t[k] in multiset(t);
        assert t[k] in s;
      }
    }
  }

  /** construct_mmap_dyn: available entries only, page-aligned, sorted and disjoint, which together cover exactly
      the pages from 8 MiB on that lie inside some available entry of the firmware's map. */
  method ConstructMmapDyn(boot: seq<MmapEntry>) returns (entries: array<MmapEntry>, len: nat)
    ensures len <= entries.Length == |boot|
    ensures forall k | 0 <= k < len :: entries[k].available && Trimmed(entries[k])
    ensures forall k, l | 0 <= k < l < len :: entries[k].base + entries[k].length <= entries[l].base
    ensures SamePages(boot, entries[..len])
  {
    entries := new MmapEntry[|boot|](i requires 0 <= i < |boot| => boot[i]);
    assert entries[..] == boot;
    CompIsPreorder();
    Sort(entries, CompMmapEntry);
    ghost var s := entries[..];
    PermutedPages(boot, s);
    TrimAll(entries);
    ghost var t := entries[..];
    ghost var end :| Tidy(t, end);
    len := Compact(entries);
    AvailableKeeps(t, end);
    ghost var r := entries[..len];
    assert forall k | 0 <= k < len :: entries[k] == r[k];
  }

  /** The entries that are left, in pages, as the page tables and dynamic memory see them. */
  function Spans(s: seq<MmapEntry>): (m: seq<Span>)
    ensures |m| == |s|
  {
    seq(|s|, i requires 0 <= i < |s| => Span(s[i].base / 4096, s[i].length / 4096))
  }

  lemma SpanCovers(e: MmapEntry, p: nat)
    requires e.available && Trimmed(e)
    ensures InSpan(Span(e.base / 4096, e.length / 4096), p) <==> Covers(e, p)
  {
    var b, l := e.base / 4096, e.length / 4096;
    assert e.base == 4096 * b && e.length == 4096 * l;
  }

  /** Their pages, one after another, are the covered pages, each once. */
  lemma SpansUnits(s: seq<MmapEntry>, p: nat)
    requires forall k | 0 <= k < |s| :: s[k].available && Trimmed(s[k])
    requires forall k, l | 0 <= k < l < |s| :: s[k].base + s[k].length <= s[l].base
    ensures Normalised(Spans(s))
    ensures p in Units(Spans(s)) <==> CoveredBy(s, p)
  {
    UnitsCover(Spans(s), p);
    if i :| 0 <= i < |s| && InSpan(Spans(s)[i], p) {
      SpanCovers(s[i], p);
    }
    if i :| 0 <= i < |s| && Covers(s[i], p) {
      SpanCovers(s[i], p);
      assert InSpan(Spans(s)[i], p);
    }
  }
}
