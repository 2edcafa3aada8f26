/** A page of the slab allocator (libslab/src/slab.c) as its 4096 bytes, page and slot headers included: the model
    that keeps headers and bytes apart is what these bytes stand for, and stays so under every write. */
module SlabBytes {
  import opened Slab
  import opened SlabPages

  /** A uint16_t, low byte first. */
  function Word(raw: seq<nat>, at: nat): nat
    requires at + 2 <= |raw|
  {
    raw[at] + 256 * raw[at + 1]
  }

  function SetWord(raw: seq<nat>, at: nat, v: nat): (r: seq<nat>)
    requires at + 2 <= |raw|
    ensures |r| == |raw|
  {
    raw[at := v % 256][at + 1 := v / 256]
  }

  lemma WordSet(raw: seq<nat>, at: nat, v: nat)
    requires at + 2 <= |raw|
    ensures Word(SetWord(raw, at, v), at) == v
    ensures forall i | 0 <= i < |raw| && i != at && i != at + 1 :: SetWord(raw, at, v)[i] == raw[i]
  {
  }

  /** free_index and alloc_count follow the link of two pointers. */
  const FREE_INDEX: nat := 16
  const ALLOC_COUNT: nat := 18

  /** The bytes of slot o, magic and next first, are those of the page. */
  ghost predicate SlotEncoded(l: Layout, raw: seq<nat>, page: Page, o: nat)
  {
    && o in page.heads && 4 <= l.slotSize && o + l.slotSize <= |raw| == |page.bytes|
    && Word(raw, o) == page.heads[o].magic && Word(raw, o + 2) == page.heads[o].next
    && forall i | o + 4 <= i < o + l.slotSize :: raw[i] == page.bytes[i]
  }

  ghost predicate Encoded(l: Layout, raw: seq<nat>, page: Page)
    requires LayoutOk(l)
  {
    && |raw| == |page.bytes| == 4096
    && Word(raw, FREE_INDEX) == page.freeIndex && Word(raw, ALLOC_COUNT) == page.allocCount
    && forall o {:trigger SlotEncoded(l, raw, page, o)} | o in Slots(l) :: SlotEncoded(l, raw, page, o)
  }

  lemma FirstSlot(l: Layout, o: nat)
    requires LayoutOk(l) && o in Slots(l)
    ensures l.first <= o && o + l.slotSize <= 4096
  {
    SlotsApart(l.first, l.slotSize, l.align);
  }

  /** Headers do not overlap payloads: the page's header lies before all slots, and a slot's header before its own
      payload and outside every other slot. */
  lemma HeadersApart(l: Layout, o: nat, o': nat)
    requires LayoutOk(l) && o in Slots(l) && o' in Slots(l)
    ensures o + l.payloadOffset >= 24 && o + l.payloadOffset + l.size <= 4096
    ensures o' + 4 <= o + l.payloadOffset || o + l.payloadOffset + l.size <= o'
  {
    SlotsDiffer(l, o, o');
    FirstSlot(l, o);
  }

  // ---------- single writes ----------

  /** A slot whose bytes and header stay as they are. */
  lemma SlotSame(l: Layout, raw: seq<nat>, page: Page, raw': seq<nat>, page': Page, p: nat)
    requires SlotEncoded(l, raw, page, p) && |raw'| == |raw| && |page'.bytes| == |page.bytes|
    requires forall i | p <= i < p + l.slotSize :: raw'[i] == raw[i] && page'.bytes[i] == page.bytes[i]
    requires p in page'.heads && page'.heads[p] == page.heads[p]
    ensures SlotEncoded(l, raw', page', p)
  {
  }

  lemma WriteFreeIndex(l: Layout, raw: seq<nat>, page: Page, v: nat)
    requires LayoutOk(l) && Encoded(l, raw, page)
    ensures Encoded(l, SetWord(raw, FREE_INDEX, v), page.(freeIndex := v))
  {
    WordSet(raw, FREE_INDEX, v);
    forall p | p in Slots(l)
      ensures SlotEncoded(l, SetWord(raw, FREE_INDEX, v), page.(freeIndex := v), p)
    {
      FirstSlot(l, p);
      assert SlotEncoded(l, raw, page, p);
      SlotSame(l, raw, page, SetWord(raw, FREE_INDEX, v), page.(freeIndex := v), p);
    }
  }

  lemma WriteAllocCount(l: Layout, raw: seq<nat>, page: Page, v: nat)
    requires LayoutOk(l) && Encoded(l, raw, page)
    ensures Encoded(l, SetWord(raw, ALLOC_COUNT, v), page.(allocCount := v))
  {
    WordSet(raw, ALLOC_COUNT, v);
    forall p | p in Slots(l)
      ensures SlotEncoded(l, SetWord(raw, ALLOC_COUNT, v), page.(allocCount := v), p)
    {
      FirstSlot(l, p);
      assert SlotEncoded(l, raw, page, p);
      SlotSame(l, raw, page, SetWord(raw, ALLOC_COUNT, v), page.(allocCount := v), p);
    }
  }

  /** The page with another header of slot o. */
  function WithHead(page: Page, o: nat, head: Head): Page
  {
    page.(heads := page.heads[o := head])
  }

  lemma WriteMagic(l: Layout, raw: seq<nat>, page: Page, o: nat, v: nat)
    requires LayoutOk(l) && Encoded(l, raw, page) && o in Slots(l)
    ensures o in page.heads && o + 4 <= 4096
    ensures Encoded(l, SetWord(raw, o, v), WithHead(page, o, page.heads[o].(magic := v)))
  {
    assert SlotEncoded(l, raw, page, o);
    FirstSlot(l, o);
    WordSet(raw, o, v);
    var raw', page' := SetWord(raw, o, v), WithHead(page, o, page.heads[o].(magic := v));
    forall p | p in Slots(l)
      ensures SlotEncoded(l, raw', page', p)
    {
      assert SlotEncoded(l, raw, page, p);
      if p != o {
        SlotsDiffer(l, o, p);
        SlotSame(l, raw, page, raw', page', p);
      }
    }
  }

  lemma WriteNext(l: Layout, raw: seq<nat>, page: Page, o: nat, v: nat)
    requires LayoutOk(l) && Encoded(l, raw, page) && o in Slots(l)
    ensures o in page.heads && o + 4 <= 4096
    ensures Encoded(l, SetWord(raw, o + 2, v), WithHead(page, o, page.heads[o].(next := v)))
  {
    assert SlotEncoded(l, raw, page, o);
    FirstSlot(l, o);
    WordSet(raw, o + 2, v);
    var raw', page' := SetWord(raw, o + 2, v), WithHead(page, o, page.heads[o].(next := v));
    forall p | p in Slots(l)
      ensures SlotEncoded(l, raw', page', p)
    {
      assert SlotEncoded(l, raw, page, p);
      if p != o {
        SlotsDiffer(l, o, p);
        SlotSame(l, raw, page, raw', page', p);
      }
    }
  }

  /** A fill that stays behind the header of a slot and inside the slot. */
  lemma WriteBody(l: Layout, raw: seq<nat>, page: Page, o: nat, from: nat, len: nat, v: nat)
    requires LayoutOk(l) && Encoded(l, raw, page) && o in Slots(l)
    requires o + 4 <= from && from + len <= o + l.slotSize
    ensures Encoded(l, Fill(raw, from, len, v), page.(bytes := Fill(page.bytes, from, len, v)))
  {
    FirstSlot(l, o);
    var raw', page' := Fill(raw, from, len, v), page.(bytes := Fill(page.bytes, from, len, v));
    forall p | p in Slots(l)
      ensures SlotEncoded(l, raw', page', p)
    {
      assert SlotEncoded(l, raw, page, p);
      if p != o {
        SlotsDiffer(l, o, p);
        SlotSame(l, raw, page, raw', page', p);
      }
    }
  }

  // ---------- the operations, on bytes ----------

  /** What the checks of slot o read from the bytes is what the model says. */
  lemma ChecksAlike(l: Layout, raw: seq<nat>, page: Page, o: nat)
    requires LayoutOk(l) && Encoded(l, raw, page) && o in Slots(l)
    ensures o + l.slotSize <= 4096 && o in page.heads && page.heads[o] == Head(Word(raw, o), Word(raw, o + 2))
    ensures Redzones(l, raw, o) <==> Redzones(l, page.bytes, o)
    ensures Unused(l, raw, o) <==> Unused(l, page.bytes, o)
  {
    FirstSlot(l, o);
    assert SlotEncoded(l, raw, page, o);
  }

  /** page_pop_front and slot_on_alloc: five writes. */
  function TakeBytes(l: Layout, raw: seq<nat>, o: nat): seq<nat>
    requires LayoutOk(l) && |raw| == 4096 && o + 4 <= 4096
  {
    var r1 := SetWord(raw, FREE_INDEX, Word(raw, o + 2));
    var r2 := SetWord(r1, o + 2, 0);
    var r3 := SetWord(r2, ALLOC_COUNT, Word(r2, ALLOC_COUNT) + 1);
    var r4 := SetWord(r3, o, OBJECT_MAGIC);
    Fill(r4, o + l.payloadOffset, l.size, 0)
  }

  lemma ReturnedPage(l: Layout, page: Page, o: nat)
    requires o in page.heads && page.allocCount > 0
    ensures o in OnDealloc(l, page, o).heads
    ensures var p1 := WithHead(page, o, page.heads[o].(magic := EMPTY_MAGIC));
            var p2 := p1.(bytes := Fill(p1.bytes, o + l.payloadOffset, l.size, UNUSED_FILL));
            && o in p2.heads && p2.allocCount == page.allocCount && p2.freeIndex == page.freeIndex
            && var p3 := WithHead(p2, o, p2.heads[o].(next := page.freeIndex));
               && p3.allocCount == page.allocCount
               && PushFront(OnDealloc(l, page, o), o) == p3.(freeIndex := o).(allocCount := page.allocCount - 1)
  {
  }

  lemma TakenPage(l: Layout, page: Page, o: nat)
    requires o in page.heads && page.freeIndex == o
    ensures o in PopFront(page).heads
    ensures var p2 := WithHead(page.(freeIndex := page.heads[o].next), o, page.heads[o].(next := 0));
            var p3 := p2.(allocCount := p2.allocCount + 1);
            && o in p3.heads
            && var p4 := WithHead(p3, o, p3.heads[o].(magic := OBJECT_MAGIC));
               OnAlloc(l, PopFront(page), o) == p4.(bytes := Fill(p4.bytes, o + l.payloadOffset, l.size, 0))
  {
  }

  lemma HeaderWords(l: Layout, raw: seq<nat>, page: Page)
    requires LayoutOk(l) && Encoded(l, raw, page)
    ensures |raw| == 4096 && Word(raw, FREE_INDEX) == page.freeIndex && Word(raw, ALLOC_COUNT) == page.allocCount
  {
  }

  lemma TakesBytes(l: Layout, raw: seq<nat>, page: Page, o: nat)
    requires LayoutOk(l) && Encoded(l, raw, page) && page.freeIndex == o && o in Slots(l)
    ensures o in page.heads && o + 4 <= 4096 && Word(raw, FREE_INDEX) == o
    ensures Encoded(l, TakeBytes(l, raw, o), OnAlloc(l, PopFront(page), o))
  {
    hide Encoded, SetWord, Word, Slots, Fill, WithHead, OnAlloc, PopFront;
    HeaderWords(l, raw, page);
    ChecksAlike(l, raw, page, o);
    TakenPage(l, page, o);
    var r1, p1 := SetWord(raw, FREE_INDEX, Word(raw, o + 2)), page.(freeIndex := page.heads[o].next);
    WriteFreeIndex(l, raw, page, Word(raw, o + 2));
    var r2, p2 := SetWord(r1, o + 2, 0), WithHead(p1, o, page.heads[o].(next := 0));
    WriteNext(l, r1, p1, o, 0);
    HeaderWords(l, r2, p2);
    var r3, p3 := SetWord(r2, ALLOC_COUNT, p2.allocCount + 1), p2.(allocCount := p2.allocCount + 1);
    WriteAllocCount(l, r2, p2, p2.allocCount + 1);
    WriteMagic(l, r3, p3, o, OBJECT_MAGIC);
    var r4, p4 := SetWord(r3, o, OBJECT_MAGIC), WithHead(p3, o, p3.heads[o].(magic := OBJECT_MAGIC));
    WriteBody(l, r4, p4, o, o + l.payloadOffset, l.size, 0);
  }

  /** slot_on_dealloc and page_push_front. */
  function ReturnBytes(l: Layout, raw: seq<nat>, o: nat): seq<nat>
    requires LayoutOk(l) && |raw| == 4096 && o + 4 <= 4096 && Word(raw, ALLOC_COUNT) > 0
  {
    var r1 := SetWord(raw, o, EMPTY_MAGIC);
    var r2 := Fill(r1, o + l.payloadOffset, l.size, UNUSED_FILL);
    var r3 := SetWord(r2, o + 2, Word(r2, FREE_INDEX));
    var r4 := SetWord(r3, FREE_INDEX, o);
    SetWord(r4, ALLOC_COUNT, if Word(r4, ALLOC_COUNT) > 0 then Word(r4, ALLOC_COUNT) - 1 else 0)
  }

  lemma ReturnsBytes(l: Layout, raw: seq<nat>, page: Page, o: nat)
    requires LayoutOk(l) && Encoded(l, raw, page) && o in Slots(l) && page.allocCount > 0
    ensures o in page.heads && o + 4 <= 4096 && Word(raw, ALLOC_COUNT) > 0
    ensures Encoded(l, ReturnBytes(l, raw, o), PushFront(OnDealloc(l, page, o), o))
  {
    hide Encoded, SetWord, Word, Slots, Fill, WithHead, OnDealloc, PushFront;
    ChecksAlike(l, raw, page, o);
    HeaderWords(l, raw, page);
    ReturnedPage(l, page, o);
    var r1, p1 := SetWord(raw, o, EMPTY_MAGIC), WithHead(page, o, page.heads[o].(magic := EMPTY_MAGIC));
    WriteMagic(l, raw, page, o, EMPTY_MAGIC);
    var r2 := Fill(r1, o + l.payloadOffset, l.size, UNUSED_FILL);
    var p2 := p1.(bytes := Fill(p1.bytes, o + l.payloadOffset, l.size, UNUSED_FILL));
    WriteBody(l, r1, p1, o, o + l.payloadOffset, l.size, UNUSED_FILL);
    HeaderWords(l, r2, p2);
    WriteNext(l, r2, p2, o, page.freeIndex);
    var r3, p3 := SetWord(r2, o + 2, page.freeIndex), WithHead(p2, o, p2.heads[o].(next := page.freeIndex));
    var r4, p4 := SetWord(r3, FREE_INDEX, o), p3.(freeIndex := o);
    WriteFreeIndex(l, r3, p3, o);
    HeaderWords(l, r4, p4);
    WriteAllocCount(l, r4, p4, page.allocCount - 1);
  }

  /** A client's write inside its object leaves all headers as they are and the page in order. */
  lemma ClientWriteBytes(l: Layout, raw: seq<nat>, page: Page, chain: seq<nat>, o: nat, i: nat, b: nat)
    requires LayoutOk(l) && PageOk(l, page, chain) && Encoded(l, raw, page)
    requires o in Slots(l) && o !in chain && i < l.size
    ensures o + l.payloadOffset + i < 4096
    ensures var raw' := raw[o + l.payloadOffset + i := b];
            && Word(raw', FREE_INDEX) == Word(raw, FREE_INDEX) && Word(raw', ALLOC_COUNT) == Word(raw, ALLOC_COUNT)
            && (forall o' | o' in Slots(l) :: o' + 4 <= 4096 && raw'[o'..o' + 4] == raw[o'..o' + 4])
            && Encoded(l, raw', page.(bytes := page.bytes[o + l.payloadOffset + i := b]))
            && PageOk(l, page.(bytes := page.bytes[o + l.payloadOffset + i := b]), chain)
  {
    var at := o + l.payloadOffset + i;
    HeadersApart(l, o, o);
    WriteOk(l, page, chain, o, i, b);
    WriteBody(l, raw, page, o, at, 1, b);
    assert raw[at := b] == Fill(raw, at, 1, b) && page.bytes[at := b] == Fill(page.bytes, at, 1, b);
    forall o' | o' in Slots(l)
      ensures o' + 4 <= 4096 && raw[at := b][o'..o' + 4] == raw[o'..o' + 4]
    {
      FirstSlot(l, o');
      HeadersApart(l, o, o');
    }
  }

  /** Whatever bytes a new page has, they stand for some page. */
  lemma AnyBytes(l: Layout, raw: seq<nat>)
    requires LayoutOk(l) && |raw| == 4096
    ensures forall o | o in Slots(l) :: o + 4 <= 4096
    ensures Encoded(l, raw, Page(Word(raw, FREE_INDEX), Word(raw, ALLOC_COUNT),
                                 map o: nat | o in Slots(l) :: Head(Word(raw, o), Word(raw, o + 2)), raw))
  {
    SlotsApart(l.first, l.slotSize, l.align);
  }

  /** And they stand for only one, but for bytes that are in no slot's body. */
  lemma OnePage(l: Layout, raw: seq<nat>, page: Page, page': Page, o: nat, i: nat)
    requires LayoutOk(l) && Encoded(l, raw, page) && Encoded(l, raw, page')
    requires o in Slots(l) && o + 4 <= i < o + l.slotSize
    ensures page.freeIndex == page'.freeIndex && page.allocCount == page'.allocCount && i < 4096
    ensures o in page.heads && o in page'.heads && page.heads[o] == page'.heads[o] && page.bytes[i] == page'.bytes[i]
  {
    assert SlotEncoded(l, raw, page, o) && SlotEncoded(l, raw, page', o);
  }

  // ---------- a new page ----------

  /** slot_init and the store of next after it: six writes. */
  function InitBytes(l: Layout, raw: seq<nat>, o: nat, next: nat): seq<nat>
    requires LayoutOk(l) && |raw| == 4096 && o + 4 <= 4096
  {
    var r1 := SetWord(raw, o, EMPTY_MAGIC);
    var r2 := SetWord(r1, o + 2, 0);
    var r3 := Fill(r2, o + 4, l.payloadOffset - 4, REDZONE_FILL);
    var r4 := Fill(r3, o + l.payloadOffset, l.size, UNUSED_FILL);
    var r5 := Fill(r4, o + l.payloadOffset + l.size, l.slotSize - (l.payloadOffset + l.size), REDZONE_FILL);
    SetWord(r5, o + 2, next)
  }

  function Chained(page: Page, o: nat, next: nat): Page
    requires o in page.heads
  {
    WithHead(page, o, page.heads[o].(next := next))
  }

  lemma InitPage(l: Layout, page: Page, o: nat, next: nat)
    requires LayoutOk(l) && o in page.heads
    ensures o in SlotInit(l, page, o).heads
    ensures var p1 := WithHead(page, o, page.heads[o].(magic := EMPTY_MAGIC));
            o in p1.heads
            && var p2 := Chained(p1, o, 0);
               var p3 := p2.(bytes := Fill(p2.bytes, o + 4, l.payloadOffset - 4, REDZONE_FILL));
               var p4 := p3.(bytes := Fill(p3.bytes, o + l.payloadOffset, l.size, UNUSED_FILL));
               var at := o + l.payloadOffset + l.size;
               var p5 := p4.(bytes := Fill(p4.bytes, at, l.slotSize - (l.payloadOffset + l.size), REDZONE_FILL));
               o in p5.heads && Chained(p5, o, next) == Chained(SlotInit(l, page, o), o, next)
  {
  }

  lemma InitsBytes(l: Layout, raw: seq<nat>, page: Page, o: nat, next: nat)
    requires LayoutOk(l) && Encoded(l, raw, page) && o in Slots(l)
    ensures |raw| == 4096 && o + 4 <= 4096 && o in SlotInit(l, page, o).heads
    ensures Encoded(l, InitBytes(l, raw, o, next), Chained(SlotInit(l, page, o), o, next))
  {
    hide Encoded, SetWord, Word, Slots, Fill, WithHead, SlotInit;
    ChecksAlike(l, raw, page, o);
    HeaderWords(l, raw, page);
    InitPage(l, page, o, next);
    var r1, p1 := SetWord(raw, o, EMPTY_MAGIC), WithHead(page, o, page.heads[o].(magic := EMPTY_MAGIC));
    WriteMagic(l, raw, page, o, EMPTY_MAGIC);
    var r2, p2 := SetWord(r1, o + 2, 0), Chained(p1, o, 0);
    WriteNext(l, r1, p1, o, 0);
    var r3 := Fill(r2, o + 4, l.payloadOffset - 4, REDZONE_FILL);
    var p3 := p2.(bytes := Fill(p2.bytes, o + 4, l.payloadOffset - 4, REDZONE_FILL));
    WriteBody(l, r2, p2, o, o + 4, l.payloadOffset - 4, REDZONE_FILL);
    var r4 := Fill(r3, o + l.payloadOffset, l.size, UNUSED_FILL);
    var p4 := p3.(bytes := Fill(p3.bytes, o + l.payloadOffset, l.size, UNUSED_FILL));
    WriteBody(l, r3, p3, o, o + l.payloadOffset, l.size, UNUSED_FILL);
    var at, len := o + l.payloadOffset + l.size, l.slotSize - (l.payloadOffset + l.size);
    WriteBody(l, r4, p4, o, at, len, REDZONE_FILL);
    WriteNext(l, Fill(r4, at, len, REDZONE_FILL), p4.(bytes := Fill(p4.bytes, at, len, REDZONE_FILL)), o, next);
  }

  lemma SlotHere(l: Layout, made: seq<nat>, offset: nat)
    requires LayoutOk(l) && Slots(l) == made + SlotsFrom(offset, l.slotSize)
    ensures offset in Slots(l) && offset + 4 <= offset + l.slotSize <= 4096
  {
    assert Slots(l)[|made|] == offset;
    FirstSlot(l, offset);
  }

  lemma PageBytes(l: Layout, raw: seq<nat>, page: Page)
    requires LayoutOk(l) && Encoded(l, raw, page)
    ensures |page.bytes| == 4096
  {
  }

  /** page_init on the bytes of a page, whatever they were: they become those of a page all of whose slots are made
      and chained in order. */
  method PageInitBytes(l: Layout, raw0: seq<nat>) returns (raw: seq<nat>, ghost page: Page)
    requires LayoutOk(l) && |raw0| == 4096
    ensures Encoded(l, raw, page) && PageOk(l, page, Slots(l)) && page.allocCount == 0
  {
    hide Encoded, SetWord, Word, Slots, Fill, SlotInit, PageOk, Made, SlotsFrom, InitBytes;
    AnyBytes(l, raw0);
    page := Page(Word(raw0, FREE_INDEX), Word(raw0, ALLOC_COUNT),
                 map o: nat | o in Slots(l) :: Head(Word(raw0, o), Word(raw0, o + 2)), raw0);
    var offset := l.first;
    WriteFreeIndex(l, raw0, page, offset);
    WriteAllocCount(l, SetWord(raw0, FREE_INDEX, offset), page.(freeIndex := offset), 0);
    raw := SetWord(SetWord(raw0, FREE_INDEX, offset), ALLOC_COUNT, 0);
    page := page.(freeIndex := offset, allocCount := 0);
    ghost var made: seq<nat> := [];
    NoneMade(l, page, offset);
    SlotsBegin(l);
    while true
      invariant Encoded(l, raw, page) && page.freeIndex == l.first && page.allocCount == 0
      invariant Slots(l) == made + SlotsFrom(offset, l.slotSize)
      invariant Made(l, page, made, offset)
      decreases 4096 - offset
    {
      SlotHere(l, made, offset);
      HeaderWords(l, raw, page);
      PageBytes(l, raw, page);
      SlotsNext(l, made, offset);
      InitFields(l, page, offset);
      var nextOffset := offset + l.slotSize;
      if nextOffset + l.slotSize < 4096 {
        MadeMore(l, page, made, offset);
        InitsBytes(l, raw, page, offset, nextOffset);
        raw := InitBytes(l, raw, offset, nextOffset);
        page := Chained(SlotInit(l, page, offset), offset, nextOffset);
        made := made + [offset];
        offset := nextOffset;
      } else {
        MadeLast(l, page, made, offset);
        InitsBytes(l, raw, page, offset, 0);
        raw := InitBytes(l, raw, offset, 0);
        page := Chained(SlotInit(l, page, offset), offset, 0);
        return;
      }
    }
  }
}
