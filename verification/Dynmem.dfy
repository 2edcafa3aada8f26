/** virt_to_phys_dynmem and phys_to_virt_dynmem of kernel/src/arch/x86_64/memory.c: the contiguous virtual
    range that starts at DYNMEM_START_VIRT and the entries of the normalised memory map.  Both are stated on
    offsets from the start, counted in any unit that divides the entries' bounds (bytes, or whole pages). */
module Dynmem {
  import opened Options

  /** struct mmap_entry, once only available entries are left. */
  datatype Span = Span(base: nat, len: nat)

  /** What construct_mmap_dyn leaves: entries not empty, sorted, disjoint. */
  predicate Normalised(m: seq<Span>)
  {
    && (forall i | 0 <= i < |m| :: m[i].len > 0)
    && (forall i, j | 0 <= i < j < |m| :: m[i].base + m[i].len <= m[j].base)
  }

  function SpanUnits(s: Span): (u: seq<nat>)
    ensures |u| == s.len && forall k | 0 <= k < s.len :: u[k] == s.base + k
  {
    seq(s.len, k requires k >= 0 => s.base + k)
  }

  /** The units of all entries, one after another. */
  function Units(m: seq<Span>): seq<nat>
  {
    if m == [] then [] else Units(m[..|m| - 1]) + SpanUnits(m[|m| - 1])
  }

  predicate InSpan(s: Span, p: nat)
  {
    s.base <= p < s.base + s.len
  }

  lemma {:induction false} UnitsPrefix(m: seq<Span>, i: nat)
    requires i <= |m|
    ensures Units(m[..i]) <= Units(m)
  {
    if i == |m| {
      assert m[..i] == m;
    } else {
      UnitsPrefix(m[..|m| - 1], i);
      assert m[..|m| - 1][..i] == m[..i];
    }
  }

  /** Entry i follows the entries before it. */
  lemma PrefixUnits(m: seq<Span>, i: nat)
    requires i < |m|
    ensures Units(m[..i + 1]) == Units(m[..i]) + SpanUnits(m[i])
    ensures Units(m[..i + 1]) <= Units(m)
  {
    assert m[..i + 1][..i] == m[..i];
    UnitsPrefix(m, i + 1);
  }

  /** virt_to_phys_dynmem: the unit at offset n, or a panic. */
  method VirtToPhys(m: seq<Span>, n: nat) returns (p: Option<nat>)
    ensures p == if n < |Units(m)| then Some(Units(m)[n]) else None
  {
    var sum := 0;
    for i := 0 to |m|
      invariant sum == |Units(m[..i])| && sum <= n
    {
      var end := sum + m[i].len;
      PrefixUnits(m, i);
      if n < end {
        return Some(m[i].base + (n - sum));
      }
      sum := end;
    }
    assert m[..|m|] == m;
    return None;
  }

  /** phys_to_virt_dynmem: the first offset of p, or a panic. */
  method PhysToVirt(m: seq<Span>, p: nat) returns (n: Option<nat>)
    ensures n.Some? <==> exists i | 0 <= i < |m| :: InSpan(m[i], p)
    ensures n.Some? ==> n.value < |Units(m)| && Units(m)[n.value] == p
  {
    var sum := 0;
    for i := 0 to |m|
      invariant sum == |Units(m[..i])|
      invariant forall k | 0 <= k < i :: !InSpan(m[k], p)
    {
      PrefixUnits(m, i);
      if m[i].base <= p && p < m[i].base + m[i].len {
        assert InSpan(m[i], p);
        return Some(sum + (p - m[i].base));
      }
      sum := sum + m[i].len;
    }
    return None;
  }

  lemma SpanAfter(u: seq<nat>, s: Span)
    requires (forall i, j | 0 <= i < j < |u| :: u[i] < u[j]) && forall p | p in u :: p < s.base
    ensures var all := u + SpanUnits(s); forall i, j | 0 <= i < j < |all| :: all[i] < all[j]
    ensures forall p | p in u + SpanUnits(s) :: p < s.base + s.len || p in u
  {
    assert forall i | 0 <= i < |u| :: u[i] in u;
  }

  /** Offsets stand for units in increasing order, so that no unit has two offsets. */
  lemma {:induction false} UnitsIncrease(m: seq<Span>)
    requires Normalised(m)
    ensures forall i, j | 0 <= i < j < |Units(m)| :: Units(m)[i] < Units(m)[j]
    ensures m != [] ==> forall p | p in Units(m) :: p < m[|m| - 1].base + m[|m| - 1].len
  {
    if m == [] {
    } else {
      var init, last := m[..|m| - 1], m[|m| - 1];
      UnitsIncrease(init);
      if init != [] {
        assert m[|m| - 2].base + m[|m| - 2].len <= m[|m| - 1].base;
      }
      hide Normalised;
      SpanAfter(Units(init), last);
    }
  }

  lemma {:induction false} SpanOfUnit(m: seq<Span>, p: nat) returns (i: nat)
    requires p in Units(m)
    ensures i < |m| && InSpan(m[i], p)
  {
    i := |m| - 1;
    if p in Units(m[..i]) {
      i := SpanOfUnit(m[..i], p);
    }
  }

  /** The units are those of the entries. */
  lemma UnitsCover(m: seq<Span>, p: nat)
    ensures p in Units(m) <==> exists i | 0 <= i < |m| :: InSpan(m[i], p)
  {
    if p in Units(m) {
      var i := SpanOfUnit(m, p);
      assert InSpan(m[i], p);
    }
    if i :| 0 <= i < |m| && InSpan(m[i], p) {
      PrefixUnits(m, i);
      assert Units(m)[|Units(m[..i])| + (p - m[i].base)] == p;
    }
  }

  /** Translating to a physical address and back, and the other way round, returns what went in. */
  method RoundTrips(m: seq<Span>, n: nat, p: nat) returns (back: Option<nat>, forth: Option<nat>)
    requires Normalised(m)
    ensures back == if n < |Units(m)| then Some(n) else None
    ensures forth == if p in Units(m) then Some(p) else None
  {
    UnitsIncrease(m);
    UnitsCover(m, p);
    back := VirtToPhys(m, n);
    if back.Some? {
      UnitsCover(m, back.value);
      back := PhysToVirt(m, back.value);
    }
    forth := PhysToVirt(m, p);
    if forth.Some? {
      forth := VirtToPhys(m, forth.value);
    }
  }
}
