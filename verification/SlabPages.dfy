/** One page of the slab allocator (libslab/src/slab.c): the slots it is cut into, and its chain of free slots.
    A slot is named by its offset in the page. */
module SlabPages {
  import opened Options
  import opened Pigeonhole

  const EMPTY_MAGIC: nat := 0x3a49
  const OBJECT_MAGIC: nat := 0x6b5c
  const REDZONE_FILL: nat := 0xe3
  const UNUSED_FILL: nat := 0xf2

  // ---------- layout ----------

  /** align_ceil, whose mask is the rounding to a multiple for an alignment, which is a power of two. */
  function AlignCeil(x: nat, align: nat): nat
    requires align > 0
  {
    (x + (align - 1)) / align * align
  }

  lemma {:induction false} Steps(p: nat, q: nat, d: nat)
    requires p < q
    ensures p * d + d <= q * d
  {
    assert q * d == (q - 1) * d + d;
    if p + 1 == q {
    } else {
      Steps(p, q - 1, d);
    }
  }

  /** Quotient and remainder are unique. */
  lemma QuotientUnique(x: nat, q: nat, r: nat, d: nat)
    requires d > 0 && x == q * d + r && r < d
    ensures x / d == q && x % d == r
  {
    var p, s := x / d, x % d;
    assert x == p * d + s;
    if p < q {
      Steps(p, q, d);
      assert false;
    } else if p > q {
      Steps(q, p, d);
      assert false;
    }
  }

  lemma MultipleMod(q: nat, d: nat)
    requires d > 0
    ensures q * d % d == 0
  {
    QuotientUnique(q * d, q, 0, d);
  }

  /** Rounding goes up to the next multiple. */
  lemma AlignCeilRounds(x: nat, align: nat)
    requires align > 0
    ensures x <= AlignCeil(x, align) < x + align && AlignCeil(x, align) % align == 0
  {
    var y := x + (align - 1);
    MultipleMod(y / align, align);
    assert y == y / align * align + y % align;
  }

  /** The fields of struct slab_allocator, and the offset of a page's first slot. */
  datatype Layout = Layout(size: nat, align: nat, payloadOffset: nat, slotSize: nat, first: nat)

  /** What slab_init's assertions and computations leave: header of 4 bytes, red zones of at least 16 bytes. */
  ghost predicate LayoutOk(l: Layout)
  {
    && l.align > 0 && l.first >= 24 && l.first + l.slotSize <= 4096
    && 20 <= l.payloadOffset && l.payloadOffset + l.size + 16 <= l.slotSize
    && l.payloadOffset % l.align == 0 && l.slotSize % l.align == 0 && l.first % l.align == 0
  }

  function LayoutFor(size: nat, align: nat): Layout
    requires align > 0
  {
    var payloadOffset := AlignCeil(4 + 16, align);
    Layout(size, align, payloadOffset, AlignCeil(payloadOffset + size + 16, align),
      AlignCeil(24, if align > 2 then align else 2))
  }

  lemma LayoutFits(size: nat, align: nat)
    requires align > 0
    ensures var l := LayoutFor(size, align);
            && 20 <= l.payloadOffset < 20 + align
            && l.payloadOffset + size + 16 <= l.slotSize < l.payloadOffset + size + 16 + align
            && 24 <= l.first < 24 + align
            && (l.first + l.slotSize <= 4096 ==> LayoutOk(l) && l.payloadOffset <= 0xffff && l.slotSize <= 0xffff)
  {
    AlignCeilRounds(20, align);
    AlignCeilRounds(AlignCeil(20, align) + size + 16, align);
    AlignCeilRounds(24, if align > 2 then align else 2);
  }

  lemma WholeQuotient(y: nat, d: nat)
    requires d > 0 && y % d == 0
    ensures y == y / d * d
  {
  }

  lemma LeastProduct(p: nat, q: nat, d: nat, x: nat, y: nat)
    requires p * d < x + d && y == q * d && x <= y
    ensures p * d <= y
  {
    if q < p {
      Steps(q, p, d);
    } else if p < q {
      Steps(p, q, d);
    }
  }

  /** A multiple of align that is at least x is at least x rounded up. */
  lemma LeastMultiple(x: nat, align: nat, y: nat)
    requires align > 0 && x <= y && y % align == 0
    ensures AlignCeil(x, align) <= y
  {
    AlignCeilRounds(x, align);
    WholeQuotient(y, align);
    LeastProduct((x + (align - 1)) / align, y / align, align, x, y);
  }

  lemma MonotoneCeil(x: nat, y: nat, align: nat)
    requires align > 0 && x <= y
    ensures AlignCeil(x, align) <= AlignCeil(y, align)
  {
    AlignCeilRounds(y, align);
    LeastMultiple(x, align, AlignCeil(y, align));
  }

  /** Nothing of layout l is greater than of l'. */
  predicate Within(l: Layout, l': Layout)
  {
    l.payloadOffset <= l'.payloadOffset && l.slotSize <= l'.slotSize && l.first <= l'.first
  }

  lemma AlignNotAbove(x: nat, align: nat)
    requires 0 < x && 0 < align && x % align == 0
    ensures align <= x
  {
  }

  lemma LayoutWithin(l': Layout)
    requires LayoutOk(l')
    ensures Within(LayoutFor(l'.size, l'.align), l')
    ensures var l := LayoutFor(l'.size, l'.align);
            && l.payloadOffset <= 0xffff && l.slotSize <= 0xffff && l'.size <= 0xffff && l'.align <= 0xffff
            && l.first + l.slotSize <= 4096
  {
    var size, align := l'.size, l'.align;
    LeastMultiple(20, align, l'.payloadOffset);
    MonotoneCeil(AlignCeil(20, align) + size + 16, l'.payloadOffset + size + 16, align);
    LeastMultiple(l'.payloadOffset + size + 16, align, l'.slotSize);
    if align > 1 {
      LeastMultiple(24, align, l'.first);
    }
    AlignNotAbove(l'.payloadOffset, align);
  }

  lemma LayoutLeast(size: nat, align: nat)
    requires align > 0
    ensures forall l' | LayoutOk(l') && l'.size == size && l'.align == align ::
              var l := LayoutFor(size, align);
              && Within(l, l') && l.payloadOffset <= 0xffff && l.slotSize <= 0xffff && size <= 0xffff && align <= 0xffff
              && l.first + l.slotSize <= 4096
  {
    forall l' | LayoutOk(l') && l'.size == size && l'.align == align
      ensures var l := LayoutFor(size, align);
              && Within(l, l') && l.payloadOffset <= 0xffff && l.slotSize <= 0xffff && size <= 0xffff && align <= 0xffff
              && l.first + l.slotSize <= 4096
    {
      LayoutWithin(l');
    }
  }

  /** slab_init, up to the list: the least layout there is for objects of this size and alignment; a panic exactly when
      there is none. */
  method SlabInit(size: nat, align: nat) returns (l: Option<Layout>)
    requires align > 0
    ensures l.Some? ==> LayoutOk(l.value) && l.value.size == size && l.value.align == align
    ensures l.Some? ==>
              && 20 <= l.value.payloadOffset < 20 + align
              && l.value.payloadOffset + size + 16 <= l.value.slotSize < l.value.payloadOffset + size + 16 + align
              && 24 <= l.value.first < 24 + align && l.value.first + l.value.slotSize <= 4096
    ensures l.Some? ==> forall l' | LayoutOk(l') && l'.size == size && l'.align == align :: Within(l.value, l')
    ensures l.None? <==> forall l' | LayoutOk(l') :: l'.size != size || l'.align != align
  {
    hide LayoutOk, Within;
    LayoutFits(size, align);
    LayoutLeast(size, align);
    if size > 0xffff || align > 0xffff {
      return None;
    }
    var payloadOffset := AlignCeil(4 + 16, align);
    if payloadOffset > 0xffff {
      return None;
    }
    var slotSize := AlignCeil(payloadOffset + size + 16, align);
    if slotSize > 0xffff {
      return None;
    }
    var first := AlignCeil(24, if align > 2 then align else 2);
    if first + slotSize > 4096 {
      return None;
    }
    return Some(Layout(size, align, payloadOffset, slotSize, first));
  }

  // ---------- slots ----------

  /** The offsets at which page_init makes slots: a next slot only where it ends before the last byte. */
  function SlotsFrom(o: nat, slotSize: nat): (s: seq<nat>)
    requires slotSize > 0
    ensures |s| > 0 && s[0] == o
    decreases 4096 - o
  {
    if o + slotSize + slotSize < 4096 then [o] + SlotsFrom(o + slotSize, slotSize) else [o]
  }

  function Slots(l: Layout): seq<nat>
    requires l.slotSize > 0
  {
    SlotsFrom(l.first, l.slotSize)
  }

  lemma QuotientStep(x: nat, d: nat)
    requires d > 0 && x >= d
    ensures x / d == (x - d) / d + 1
  {
    var q := (x - d) / d;
    assert x == (q + 1) * d + (x - d) % d;
    QuotientUnique(x, q + 1, (x - d) % d, d);
  }

  lemma QuotientOne(x: nat, d: nat)
    requires 0 < d <= x < d + d
    ensures x / d == 1
  {
    QuotientUnique(x, 1, x - d, d);
  }

  /** How many slots a page has: at least one, else as many as end before the last byte. */
  lemma {:induction false} Capacity(o: nat, slotSize: nat)
    requires slotSize > 0 && o + slotSize <= 4096
    ensures |SlotsFrom(o, slotSize)| == if 4095 - o < slotSize then 1 else (4095 - o) / slotSize
    decreases 4096 - o
  {
    if o + slotSize + slotSize < 4096 {
      Capacity(o + slotSize, slotSize);
      QuotientStep(4095 - o, slotSize);
    } else if 4095 - o >= slotSize {
      QuotientOne(4095 - o, slotSize);
    }
  }

  /** Offsets that do not overlap, stay inside the page, and keep the alignment. */
  ghost predicate Apart(s: seq<nat>, o: nat, slotSize: nat, align: nat)
    requires align > 0
  {
    && (forall i | 0 <= i < |s| :: o <= s[i] && s[i] + slotSize <= 4096 && s[i] % align == 0)
    && (forall i, j | 0 <= i < j < |s| :: s[i] + slotSize <= s[j])
  }

  lemma ApartMore(s: seq<nat>, o: nat, slotSize: nat, align: nat)
    requires align > 0 && o % align == 0 && o + slotSize <= 4096 && Apart(s, o + slotSize, slotSize, align)
    ensures Apart([o] + s, o, slotSize, align)
  {
    var t := [o] + s;
    assert forall i | 0 < i < |t| :: t[i] == s[i - 1] && o + slotSize <= s[i - 1];
  }

  lemma SumMod(x: nat, y: nat, d: nat)
    requires d > 0 && x % d == 0 && y % d == 0
    ensures (x + y) % d == 0
  {
    assert x == x / d * d && y == y / d * d;
    assert x + y == (x / d + y / d) * d;
    MultipleMod(x / d + y / d, d);
  }

  lemma {:induction false} SlotsApart(o: nat, slotSize: nat, align: nat)
    requires slotSize > 0 && o + slotSize <= 4096 && align > 0 && o % align == 0 && slotSize % align == 0
    ensures Apart(SlotsFrom(o, slotSize), o, slotSize, align)
    decreases 4096 - o
  {
    if o + slotSize + slotSize >= 4096 {
    } else {
      SumMod(o, slotSize, align);
      SlotsApart(o + slotSize, slotSize, align);
      ApartMore(SlotsFrom(o + slotSize, slotSize), o, slotSize, align);
    }
  }

  // ---------- contents ----------

  /** struct slot */
  datatype Head = Head(magic: nat, next: nat)

  /** struct page with the slot headers, by offset, and the page's bytes, of which headers take no part. */
  datatype Page = Page(freeIndex: nat, allocCount: nat, heads: map<nat, Head>, bytes: seq<nat>)

  /** memset */
  function Fill(bytes: seq<nat>, from: nat, len: nat, v: nat): (r: seq<nat>)
    ensures |r| == |bytes|
    ensures forall i | 0 <= i < |r| :: r[i] == if from <= i < from + len then v else bytes[i]
  {
    seq(|bytes|, i requires 0 <= i < |bytes| => if from <= i < from + len then v else bytes[i])
  }

  /** memchr_not finds nothing */
  predicate AllAre(bytes: seq<nat>, from: nat, len: nat, v: nat)
  {
    from + len <= |bytes| && forall i | from <= i < from + len :: bytes[i] == v
  }

  /** slot_check_redzone */
  predicate Redzones(l: Layout, bytes: seq<nat>, o: nat)
    requires 20 <= l.payloadOffset && l.payloadOffset + l.size + 16 <= l.slotSize
  {
    && AllAre(bytes, o + 4, l.payloadOffset - 4, REDZONE_FILL)
    && AllAre(bytes, o + l.payloadOffset + l.size, l.slotSize - (l.payloadOffset + l.size), REDZONE_FILL)
  }

  /** slot_check_unused */
  predicate Unused(l: Layout, bytes: seq<nat>, o: nat)
  {
    AllAre(bytes, o + l.payloadOffset, l.size, UNUSED_FILL)
  }

  /** The chain's k-th offset, or the 0 that ends it. */
  function ChainAt(chain: seq<nat>, k: nat): nat
  {
    if k < |chain| then chain[k] else 0
  }

  /** The free chain runs through the slots of `chain`, each once. */
  ghost predicate ChainOk(l: Layout, page: Page, chain: seq<nat>)
    requires l.slotSize > 0
  {
    && page.freeIndex == ChainAt(chain, 0)
    && (forall i, j | 0 <= i < j < |chain| :: chain[i] != chain[j])
    && (forall i: nat | i < |chain| :: chain[i] in Slots(l) && chain[i] in page.heads &&
          page.heads[chain[i]] == Head(EMPTY_MAGIC, ChainAt(chain, i + 1)))
  }

  /** A slot's red zones are whole; it is in the chain and poisoned, or it is an object's. */
  ghost predicate SlotOk(l: Layout, page: Page, chain: seq<nat>, o: nat)
    requires LayoutOk(l)
  {
    && o in page.heads && Redzones(l, page.bytes, o)
    && (if o in chain then Unused(l, page.bytes, o) else page.heads[o] == Head(OBJECT_MAGIC, 0))
  }

  ghost predicate PageOk(l: Layout, page: Page, chain: seq<nat>)
    requires LayoutOk(l)
  {
    && |page.bytes| == 4096 && ChainOk(l, page, chain)
    && (forall o {:trigger SlotOk(l, page, chain, o)} | o in Slots(l) :: SlotOk(l, page, chain, o))
    && |chain| + page.allocCount == |Slots(l)|
  }

  /** slot_init */
  function SlotInit(l: Layout, page: Page, o: nat): Page
    requires LayoutOk(l)
  {
    var b1 := Fill(page.bytes, o + 4, l.payloadOffset - 4, REDZONE_FILL);
    var b2 := Fill(b1, o + l.payloadOffset, l.size, UNUSED_FILL);
    var b3 := Fill(b2, o + l.payloadOffset + l.size, l.slotSize - (l.payloadOffset + l.size), REDZONE_FILL);
    page.(heads := page.heads[o := Head(EMPTY_MAGIC, 0)], bytes := b3)
  }

  /** Slot o is initialised and chained to `next`. */
  ghost predicate SlotMade(l: Layout, page: Page, o: nat, next: nat)
    requires LayoutOk(l)
  {
    && o in page.heads && page.heads[o] == Head(EMPTY_MAGIC, next)
    && Redzones(l, page.bytes, o) && Unused(l, page.bytes, o)
  }

  lemma InitMakes(l: Layout, page: Page, o: nat, next: nat)
    requires LayoutOk(l) && |page.bytes| == 4096 && o + l.slotSize <= 4096
    ensures var p := SlotInit(l, page, o);
            SlotMade(l, p.(heads := p.heads[o := p.heads[o].(next := next)]), o, next)
  {
  }

  /** Initialising a slot leaves other slots alone. */
  lemma InitKeeps(l: Layout, page: Page, o: nat, next: nat, p: nat, n: nat)
    requires LayoutOk(l) && |page.bytes| == 4096 && p + l.slotSize <= o && SlotMade(l, page, p, n)
    ensures var q := SlotInit(l, page, o);
            SlotMade(l, q.(heads := q.heads[o := q.heads[o].(next := next)]), p, n)
  {
  }

  /** The slots made so far, and what each is chained to. */
  ghost predicate Made(l: Layout, page: Page, made: seq<nat>, offset: nat)
    requires LayoutOk(l)
  {
    && (forall i: nat | i < |made| :: made[i] + l.slotSize <= offset)
    && (forall i: nat {:trigger made[i]} | i < |made| ::
          SlotMade(l, page, made[i], if i + 1 < |made| then made[i + 1] else offset))
  }

  lemma MadeMore(l: Layout, page: Page, made: seq<nat>, o: nat)
    requires LayoutOk(l) && |page.bytes| == 4096 && Made(l, page, made, o)
    requires o + l.slotSize + l.slotSize <= 4096
    ensures var p, n := SlotInit(l, page, o), o + l.slotSize;
            Made(l, p.(heads := p.heads[o := p.heads[o].(next := n)]), made + [o], n)
  {
    var q, n := SlotInit(l, page, o), o + l.slotSize;
    var p := q.(heads := q.heads[o := q.heads[o].(next := n)]);
    var made' := made + [o];
    InitMakes(l, page, o, n);
    hide SlotInit, SlotMade;
    forall i: nat | i < |made'|
      ensures SlotMade(l, p, made'[i], if i + 1 < |made'| then made'[i + 1] else n)
    {
      if i < |made| {
        InitKeeps(l, page, o, n, made[i], if i + 1 < |made| then made[i + 1] else o);
      }
    }
  }

  lemma SlotsFirst(l: Layout)
    requires l.slotSize > 0
    ensures Slots(l) != [] && Slots(l)[0] == l.first
  {
  }

  /** When all slots are made and chained in order, the page is. */
  lemma AllMade(l: Layout, page: Page)
    requires LayoutOk(l) && |page.bytes| == 4096 && page.freeIndex == l.first && page.allocCount == 0
    requires Slots(l) != [] && Slots(l)[0] == l.first
    requires Apart(Slots(l), l.first, l.slotSize, l.align)
    requires forall i: nat | i < |Slots(l)| :: SlotMade(l, page, Slots(l)[i], ChainAt(Slots(l), i + 1))
    ensures PageOk(l, page, Slots(l))
  {
    hide Redzones, Unused, Slots;
    forall x | x in Slots(l)
      ensures SlotOk(l, page, Slots(l), x)
    {
      var i: nat :| i < |Slots(l)| && Slots(l)[i] == x;
    }
  }

  lemma InitFields(l: Layout, page: Page, o: nat)
    requires LayoutOk(l)
    ensures var p := SlotInit(l, page, o);
            && o in p.heads && p.freeIndex == page.freeIndex && p.allocCount == page.allocCount
            && |p.bytes| == |page.bytes|
  {
  }

  lemma MadeLast(l: Layout, page: Page, made: seq<nat>, o: nat)
    requires LayoutOk(l) && |page.bytes| == 4096 && Made(l, page, made, o) && o + l.slotSize <= 4096
    requires page.freeIndex == l.first && page.allocCount == 0 && Slots(l) == made + [o]
    ensures var p := SlotInit(l, page, o);
            PageOk(l, p.(heads := p.heads[o := p.heads[o].(next := 0)]), Slots(l))
  {
    var q, s := SlotInit(l, page, o), Slots(l);
    var p := q.(heads := q.heads[o := q.heads[o].(next := 0)]);
    InitFields(l, page, o);
    InitMakes(l, page, o, 0);
    SlotsApart(l.first, l.slotSize, l.align);
    SlotsFirst(l);
    hide SlotInit, Redzones, Unused, Slots;
    forall i: nat | i < |s|
      ensures SlotMade(l, p, s[i], ChainAt(s, i + 1))
    {
      if i < |made| {
        InitKeeps(l, page, o, 0, made[i], if i + 1 < |made| then made[i + 1] else o);
      }
    }
    AllMade(l, p);
  }

  lemma NoneMade(l: Layout, page: Page, offset: nat)
    requires LayoutOk(l)
    ensures Made(l, page, [], offset)
  {
  }

  lemma SlotsBegin(l: Layout)
    requires l.slotSize > 0
    ensures Slots(l) == [] + SlotsFrom(l.first, l.slotSize)
  {
  }

  lemma SlotsNext(l: Layout, made: seq<nat>, offset: nat)
    requires l.slotSize > 0 && Slots(l) == made + SlotsFrom(offset, l.slotSize)
    ensures if offset + l.slotSize + l.slotSize < 4096
            then Slots(l) == made + [offset] + SlotsFrom(offset + l.slotSize, l.slotSize)
            else Slots(l) == made + [offset]
  {
  }

  /** page_init: the slots are all made and chained in order. */
  method PageInit(l: Layout, page0: Page) returns (page: Page)
    requires LayoutOk(l) && |page0.bytes| == 4096
    ensures PageOk(l, page, Slots(l)) && page.allocCount == 0
  {
    hide SlotInit, Made, PageOk, Slots, SlotsFrom;
    var offset := l.first;
    page := page0.(freeIndex := offset, allocCount := 0);
    ghost var made: seq<nat> := [];
    NoneMade(l, page, offset);
    SlotsBegin(l);
    while true
      invariant |page.bytes| == 4096 && page.freeIndex == l.first && page.allocCount == 0
      invariant offset + l.slotSize <= 4096 && Slots(l) == made + SlotsFrom(offset, l.slotSize)
      invariant Made(l, page, made, offset)
      decreases 4096 - offset
    {
      InitFields(l, page, offset);
      SlotsNext(l, made, offset);
      var nextOffset := offset + l.slotSize;
      if nextOffset + l.slotSize < 4096 {
        MadeMore(l, page, made, offset);
        page := SlotInit(l, page, offset);
        page := page.(heads := page.heads[offset := page.heads[offset].(next := nextOffset)]);
        made := made + [offset];
        offset := nextOffset;
      } else {
        MadeLast(l, page, made, offset);
        page := SlotInit(l, page, offset);
        page := page.(heads := page.heads[offset := page.heads[offset].(next := 0)]);
        return;
      }
    }
  }

  /** page_pop_front, and then slot_on_alloc of the slot. */
  function PopFront(page: Page): Page
    requires page.freeIndex in page.heads
  {
    var o := page.freeIndex;
    page.(freeIndex := page.heads[o].next, allocCount := page.allocCount + 1,
          heads := page.heads[o := page.heads[o].(next := 0)])
  }

  /** The assertions of slot_on_alloc. */
  predicate MayAlloc(l: Layout, page: Page, o: nat)
    requires 20 <= l.payloadOffset && l.payloadOffset + l.size + 16 <= l.slotSize
  {
    o in page.heads && page.heads[o] == Head(EMPTY_MAGIC, 0) && Redzones(l, page.bytes, o) && Unused(l, page.bytes, o)
  }

  function OnAlloc(l: Layout, page: Page, o: nat): Page
    requires o in page.heads
  {
    page.(heads := page.heads[o := page.heads[o].(magic := OBJECT_MAGIC)],
          bytes := Fill(page.bytes, o + l.payloadOffset, l.size, 0))
  }

  /** The assertions of slot_on_dealloc. */
  predicate MayDealloc(l: Layout, page: Page, o: nat)
    requires 20 <= l.payloadOffset && l.payloadOffset + l.size + 16 <= l.slotSize
  {
    o in page.heads && page.heads[o] == Head(OBJECT_MAGIC, 0) && Redzones(l, page.bytes, o)
  }

  function OnDealloc(l: Layout, page: Page, o: nat): Page
    requires o in page.heads
  {
    page.(heads := page.heads[o := page.heads[o].(magic := EMPTY_MAGIC)],
          bytes := Fill(page.bytes, o + l.payloadOffset, l.size, UNUSED_FILL))
  }

  /** page_push_front */
  function PushFront(page: Page, o: nat): Page
    requires o in page.heads && page.allocCount > 0
  {
    page.(heads := page.heads[o := page.heads[o].(next := page.freeIndex)], freeIndex := o,
          allocCount := page.allocCount - 1)
  }

  /** A slot of the page whose payload alone may differ. */
  lemma SlotKept(l: Layout, page: Page, chain: seq<nat>, page': Page, chain': seq<nat>, o: nat, p: nat)
    requires LayoutOk(l) && |page.bytes| == |page'.bytes| == 4096 && o in Slots(l) && p in Slots(l) && o != p
    requires forall i | 0 <= i < 4096 && !(o + l.payloadOffset <= i < o + l.payloadOffset + l.size) ::
               page'.bytes[i] == page.bytes[i]
    requires p in page'.heads && p in page.heads && page'.heads[p] == page.heads[p] && (p in chain' <==> p in chain)
    requires SlotOk(l, page, chain, p)
    ensures SlotOk(l, page', chain', p)
  {
    SlotsApart(l.first, l.slotSize, l.align);
  }

  lemma RedzonesKept(l: Layout, bytes: seq<nat>, bytes': seq<nat>, o: nat)
    requires LayoutOk(l) && |bytes'| == |bytes| && Redzones(l, bytes, o)
    requires forall i | 0 <= i < |bytes| && !(o + l.payloadOffset <= i < o + l.payloadOffset + l.size) ::
               bytes'[i] == bytes[i]
    ensures Redzones(l, bytes', o)
  {
  }

  lemma TailChain(l: Layout, page: Page, page': Page, chain: seq<nat>)
    requires l.slotSize > 0 && ChainOk(l, page, chain) && chain != [] && page'.freeIndex == ChainAt(chain, 1)
    requires forall o | o in page.heads && o != chain[0] :: o in page'.heads && page'.heads[o] == page.heads[o]
    ensures ChainOk(l, page', chain[1..])
  {
    var chain' := chain[1..];
    forall i: nat | i < |chain'|
      ensures chain'[i] in Slots(l) && chain'[i] in page'.heads &&
              page'.heads[chain'[i]] == Head(EMPTY_MAGIC, ChainAt(chain', i + 1))
    {
      assert chain'[i] == chain[i + 1];
    }
  }

  /** The front slot may be allocated, and taking it leaves the page in order. */
  lemma TakeOk(l: Layout, page: Page, chain: seq<nat>)
    requires LayoutOk(l) && PageOk(l, page, chain) && chain != []
    ensures page.freeIndex == chain[0] && page.freeIndex in page.heads
    ensures MayAlloc(l, PopFront(page), chain[0])
    ensures PageOk(l, OnAlloc(l, PopFront(page), chain[0]), chain[1..])
    ensures OnAlloc(l, PopFront(page), chain[0]).freeIndex == ChainAt(chain, 1)
  {
    var o, page', chain' := chain[0], OnAlloc(l, PopFront(page), chain[0]), chain[1..];
    assert SlotOk(l, page, chain, o);
    SlotsApart(l.first, l.slotSize, l.align);
    forall p | p in Slots(l)
      ensures SlotOk(l, page', chain', p)
    {
      assert SlotOk(l, page, chain, p);
      if p != o {
        SlotKept(l, page, chain, page', chain', o, p);
      } else {
        RedzonesKept(l, page.bytes, page'.bytes, o);
      }
    }
    TailChain(l, page, page', chain);
  }

  lemma LongerChain(l: Layout, page: Page, page': Page, chain: seq<nat>, o: nat)
    requires l.slotSize > 0 && ChainOk(l, page, chain) && o in Slots(l) && o !in chain
    requires page'.freeIndex == o && o in page'.heads && page'.heads[o] == Head(EMPTY_MAGIC, ChainAt(chain, 0))
    requires forall p | p in page.heads && p != o :: p in page'.heads && page'.heads[p] == page.heads[p]
    ensures ChainOk(l, page', [o] + chain)
  {
    var chain' := [o] + chain;
    forall i: nat | i < |chain'|
      ensures chain'[i] in Slots(l) && chain'[i] in page'.heads &&
              page'.heads[chain'[i]] == Head(EMPTY_MAGIC, ChainAt(chain', i + 1))
    {
      if i > 0 {
        assert chain'[i] == chain[i - 1];
      }
    }
  }

  /** A chain that misses a slot is shorter than the slots. */
  lemma ChainShort(chain: seq<nat>, slots: seq<nat>, o: nat)
    requires forall i, j | 0 <= i < j < |chain| :: chain[i] != chain[j]
    requires forall c | c in chain :: c in slots
    requires o in slots && o !in chain
    ensures |chain| < |slots|
  {
    LongerByOne(chain, slots, o);
  }

  /** An object's slot may be deallocated, a free one may not, and giving it back leaves the page in order. */
  lemma ReturnOk(l: Layout, page: Page, chain: seq<nat>, o: nat)
    requires LayoutOk(l) && PageOk(l, page, chain) && o in Slots(l)
    ensures o in page.heads && (MayDealloc(l, page, o) <==> o !in chain)
    ensures o !in chain ==> page.allocCount > 0 && PageOk(l, PushFront(OnDealloc(l, page, o), o), [o] + chain)
  {
    SlotsApart(l.first, l.slotSize, l.align);
    assert SlotOk(l, page, chain, o);
    if o in chain {
      var i: nat :| i < |chain| && chain[i] == o;
      assert page.heads[chain[i]] == Head(EMPTY_MAGIC, ChainAt(chain, i + 1));
    } else {
      ChainShort(chain, Slots(l), o);
      var page', chain' := PushFront(OnDealloc(l, page, o), o), [o] + chain;
      forall p | p in Slots(l)
        ensures SlotOk(l, page', chain', p)
      {
        assert SlotOk(l, page, chain, p);
        if p != o {
          SlotKept(l, page, chain, page', chain', o, p);
        } else {
          RedzonesKept(l, page.bytes, page'.bytes, o);
        }
      }
      LongerChain(l, page, page', chain, o);
    }
  }

  /** A slot taken and given back at once leaves the page as it was, byte for byte. */
  lemma TakeThenReturn(l: Layout, page: Page, chain: seq<nat>)
    requires LayoutOk(l) && PageOk(l, page, chain) && chain != []
    ensures chain[0] == page.freeIndex && chain[0] in page.heads
    ensures PushFront(OnDealloc(l, OnAlloc(l, PopFront(page), chain[0]), chain[0]), chain[0]) == page
  {
    var o := chain[0];
    assert SlotOk(l, page, chain, o);
    var b := Fill(Fill(page.bytes, o + l.payloadOffset, l.size, 0), o + l.payloadOffset, l.size, UNUSED_FILL);
    assert b == page.bytes;
    var p := PushFront(OnDealloc(l, OnAlloc(l, PopFront(page), o), o), o);
    assert p.heads[o] == page.heads[o];
    assert p.heads == page.heads;
  }

  lemma FreeIfChain(l: Layout, page: Page, chain: seq<nat>)
    requires LayoutOk(l) && ChainOk(l, page, chain)
    ensures page.freeIndex != 0 <==> chain != []
  {
    SlotsApart(l.first, l.slotSize, l.align);
  }

  /** The chain and the objects make up the page's capacity. */
  lemma ChainAndObjects(l: Layout, page: Page, chain: seq<nat>)
    requires LayoutOk(l) && PageOk(l, page, chain)
    ensures |chain| + page.allocCount == if 4095 - l.first < l.slotSize then 1 else (4095 - l.first) / l.slotSize
    ensures page.freeIndex != 0 <==> page.allocCount < |Slots(l)|
  {
    hide SlotOk, ChainOk, SlotsFrom;
    FreeIfChain(l, page, chain);
    Capacity(l.first, l.slotSize);
  }
}
