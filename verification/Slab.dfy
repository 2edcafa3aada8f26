/** The slab allocator of libslab/src/slab.c: pages by address, and the ring of pages with free slots, which are
    linked through the first field of their headers, so that a page and its link have the same address. */
module Slab {
  import opened LinkedRing
  import opened Options
  import opened Pigeonhole
  import opened SlabPages

  ghost predicate PagesOk(l: Layout, pages: map<nat, Page>, chains: map<nat, seq<nat>>)
  {
    && LayoutOk(l) && pages.Keys == chains.Keys
    && forall a {:trigger pages[a]} | a in pages :: a % 4096 == 0 && PageOk(l, pages[a], chains[a])
  }

  /** The slot at offset o of page a is an object's. */
  ghost predicate LiveIn(l: Layout, pages: map<nat, Page>, chains: map<nat, seq<nat>>, a: nat, o: nat)
  {
    a in pages && a in chains && l.slotSize > 0 && o in Slots(l) && o !in chains[a]
  }

  /** The bytes of an object. */
  function PayloadIn(l: Layout, pages: map<nat, Page>, a: nat, o: nat): seq<nat>
  {
    if a in pages && o + l.payloadOffset + l.size <= |pages[a].bytes| then
      pages[a].bytes[o + l.payloadOffset..o + l.payloadOffset + l.size]
    else []
  }

  lemma PayloadElsewhere(l: Layout, pages: map<nat, Page>, a: nat, page: Page, x: nat, y: nat)
    requires x != a
    ensures PayloadIn(l, pages[a := page], x, y) == PayloadIn(l, pages, x, y)
  {
  }

  lemma SlotsDiffer(l: Layout, o: nat, o': nat)
    requires LayoutOk(l) && o in Slots(l) && o' in Slots(l)
    ensures o + l.slotSize <= 4096 && o % l.align == 0
    ensures o != o' ==> o + l.slotSize <= o' || o' + l.slotSize <= o
  {
    SlotsApart(l.first, l.slotSize, l.align);
    var i: nat :| i < |Slots(l)| && Slots(l)[i] == o;
    var j: nat :| j < |Slots(l)| && Slots(l)[j] == o';
  }

  /** Filling one slot's payload leaves another's alone. */
  lemma PayloadKept(l: Layout, pages: map<nat, Page>, a: nat, page: Page, o: nat, y: nat)
    requires LayoutOk(l) && a in pages && o in Slots(l) && y in Slots(l) && y != o && |page.bytes| == |pages[a].bytes|
    requires forall i | 0 <= i < |page.bytes| && !(o + l.payloadOffset <= i < o + l.payloadOffset + l.size) ::
               page.bytes[i] == pages[a].bytes[i]
    ensures PayloadIn(l, pages[a := page], a, y) == PayloadIn(l, pages, a, y)
  {
    hide Slots;
    SlotsDiffer(l, o, y);
    SlotsDiffer(l, y, o);
  }

  /** Giving back a slot takes away one object and leaves the others alone. */
  lemma ReturnedLive(l: Layout, pages: map<nat, Page>, chains: map<nat, seq<nat>>, a: nat, o: nat)
    requires PagesOk(l, pages, chains) && LiveIn(l, pages, chains, a, o)
    requires o in pages[a].heads && pages[a].allocCount > 0
    ensures o in OnDealloc(l, pages[a], o).heads
    ensures var page := PushFront(OnDealloc(l, pages[a], o), o);
            var pages', chains' := pages[a := page], chains[a := [o] + chains[a]];
            && (forall x: nat, y: nat :: LiveIn(l, pages', chains', x, y) <==>
                                         LiveIn(l, pages, chains, x, y) && !(x == a && y == o))
            && (forall x: nat, y: nat | LiveIn(l, pages', chains', x, y) ::
                  PayloadIn(l, pages', x, y) == PayloadIn(l, pages, x, y))
  {
    assert PageOk(l, pages[a], chains[a]);
    hide PageOk, PayloadIn, Slots;
    var page := PushFront(OnDealloc(l, pages[a], o), o);
    var pages', chains' := pages[a := page], chains[a := [o] + chains[a]];
    forall x: nat, y: nat | LiveIn(l, pages', chains', x, y)
      ensures PayloadIn(l, pages', x, y) == PayloadIn(l, pages, x, y)
    {
      if x == a {
        PayloadKept(l, pages, a, page, o, y);
      } else {
        PayloadElsewhere(l, pages, a, page, x, y);
      }
    }
  }

  /** The ring holds exactly the pages with free slots. */
  ghost predicate PartialOk(items: seq<nat>, pages: map<nat, Page>)
  {
    forall a :: a in items <==> a in pages && pages[a].freeIndex != 0
  }

  lemma PageAligned(a: nat, align: nat)
    requires align > 0 && a % 4096 == 0 && 4096 % align == 0
    ensures a % align == 0
  {
    var q, r := a / 4096, 4096 / align;
    assert a == q * 4096 && 4096 == r * align;
    assert a == q * r * align;
    MultipleMod(q * r, align);
  }

  lemma SlotInside(l: Layout, o: nat)
    requires LayoutOk(l) && o in Slots(l)
    ensures o + l.payloadOffset + l.size <= 4096
    ensures l.align > 0 && o % l.align == 0 && l.payloadOffset % l.align == 0
  {
    hide Slots;
    SlotsDiffer(l, o, o);
  }

  lemma SumsAligned(x: nat, y: nat, z: nat, align: nat)
    requires align > 0 && x % align == 0 && y % align == 0 && z % align == 0
    ensures (x + y + z) % align == 0
  {
    SumMod(x, y, align);
    SumMod(x + y, z, align);
  }

  lemma PagesKeys(l: Layout, pages: map<nat, Page>, chains: map<nat, seq<nat>>)
    requires PagesOk(l, pages, chains)
    ensures LayoutOk(l) && pages.Keys == chains.Keys
    ensures forall a | a in pages :: a % 4096 == 0
  {
    hide PageOk;
    assert forall a | a in pages :: pages[a] == pages[a];
  }

  lemma PayloadAligned(a: nat, o: nat, payloadOffset: nat, align: nat)
    requires align > 0 && a % 4096 == 0 && 4096 % align == 0 && o % align == 0 && payloadOffset % align == 0
    ensures (a + o + payloadOffset) % align == 0
  {
    PageAligned(a, align);
    SumsAligned(a, o, payloadOffset, align);
  }

  /** An object lies inside its page, aligned. */
  lemma ObjectAligned(l: Layout, pages: map<nat, Page>, chains: map<nat, seq<nat>>, a: nat, o: nat)
    requires PagesOk(l, pages, chains) && LiveIn(l, pages, chains, a, o) && 4096 % l.align == 0
    ensures o + l.payloadOffset + l.size <= 4096 && (a + o + l.payloadOffset) % l.align == 0
  {
    hide PagesOk, LayoutOk, Slots, PageOk;
    PagesKeys(l, pages, chains);
    SlotInside(l, o);
    PayloadAligned(a, o, l.payloadOffset, l.align);
  }

  lemma PagesApart(a: nat, a': nat)
    requires a % 4096 == 0 && a' % 4096 == 0 && a < a'
    ensures a + 4096 <= a'
  {
  }

  /** No two objects overlap. */
  lemma ObjectsApart(l: Layout, pages: map<nat, Page>, chains: map<nat, seq<nat>>,
                     a: nat, o: nat, a': nat, o': nat)
    requires PagesOk(l, pages, chains) && LiveIn(l, pages, chains, a, o) && LiveIn(l, pages, chains, a', o')
    requires a != a' || o != o'
    ensures a + o + l.payloadOffset + l.size <= a' + o' + l.payloadOffset ||
            a' + o' + l.payloadOffset + l.size <= a + o + l.payloadOffset
  {
    hide Slots, PageOk;
    SlotsDiffer(l, o, o');
    SlotsDiffer(l, o', o);
    assert pages[a] == pages[a] && pages[a'] == pages[a'];
    if a < a' {
      PagesApart(a, a');
    } else if a' < a {
      PagesApart(a', a);
    }
  }

  /** A free slot means a chain, and the other way round. */
  lemma FreeMeansChain(l: Layout, page: Page, chain: seq<nat>)
    requires LayoutOk(l) && PageOk(l, page, chain)
    ensures page.freeIndex != 0 <==> chain != []
  {
    SlotsApart(l.first, l.slotSize, l.align);
  }

  lemma PoppedFree(l: Layout, page: Page, o: nat)
    requires page.freeIndex in page.heads && o == page.freeIndex
    ensures o in PopFront(page).heads && OnAlloc(l, PopFront(page), o).freeIndex == PopFront(page).freeIndex
  {
  }

  lemma TakenCount(l: Layout, page: Page, o: nat)
    requires page.freeIndex in page.heads && o == page.freeIndex
    ensures o in PopFront(page).heads && OnAlloc(l, PopFront(page), o).allocCount == page.allocCount + 1
  {
  }

  /** A page of free slots has no objects. */
  lemma NewPageLive(l: Layout, pages: map<nat, Page>, chains: map<nat, seq<nat>>, pages': map<nat, Page>,
                    chains': map<nat, seq<nat>>, a: nat)
    requires PagesOk(l, pages, chains) && a !in pages && a in pages'
    requires pages' == pages[a := pages'[a]] && chains' == chains[a := Slots(l)]
    ensures forall x: nat, y: nat :: LiveIn(l, pages', chains', x, y) <==> LiveIn(l, pages, chains, x, y)
    ensures forall x: nat, y: nat | LiveIn(l, pages, chains, x, y) ::
              PayloadIn(l, pages', x, y) == PayloadIn(l, pages, x, y)
  {
  }

  lemma TakenZero(l: Layout, pages: map<nat, Page>, a: nat, o: nat)
    requires LayoutOk(l) && a in pages && o in Slots(l) && |pages[a].bytes| == 4096
    requires o == pages[a].freeIndex && o in pages[a].heads
    ensures PayloadIn(l, pages[a := OnAlloc(l, PopFront(pages[a]), o)], a, o) == seq(l.size, _ => 0)
  {
    SlotsDiffer(l, o, o);
  }

  /** The front of a chain is a slot, and occurs once. */
  lemma ChainHead(l: Layout, page: Page, chain: seq<nat>)
    requires LayoutOk(l) && PageOk(l, page, chain) && chain != []
    ensures chain[0] in Slots(l) && |page.bytes| == 4096 && chain[0] !in chain[1..]
    ensures forall y :: y in chain <==> y == chain[0] || y in chain[1..]
  {
  }

  /** Taking a slot adds one object, of zeros, and leaves the others alone. */
  lemma TakenLive(l: Layout, pages: map<nat, Page>, chains: map<nat, seq<nat>>, a: nat, o: nat)
    requires PagesOk(l, pages, chains) && a in pages && chains[a] != [] && o == chains[a][0]
    requires o == pages[a].freeIndex && o in pages[a].heads
    ensures var pages', chains' := pages[a := OnAlloc(l, PopFront(pages[a]), o)], chains[a := chains[a][1..]];
            && !LiveIn(l, pages, chains, a, o)
            && (forall x: nat, y: nat :: LiveIn(l, pages', chains', x, y) <==>
                                         LiveIn(l, pages, chains, x, y) || (x == a && y == o))
            && PayloadIn(l, pages', a, o) == seq(l.size, _ => 0)
            && (forall x: nat, y: nat | LiveIn(l, pages, chains, x, y) ::
                  PayloadIn(l, pages', x, y) == PayloadIn(l, pages, x, y))
  {
    var pages', chains' := pages[a := OnAlloc(l, PopFront(pages[a]), o)], chains[a := chains[a][1..]];
    assert PageOk(l, pages[a], chains[a]);
    hide PageOk, PayloadIn, Slots;
    ChainHead(l, pages[a], chains[a]);
    TakenZero(l, pages, a, o);
    forall x: nat, y: nat | LiveIn(l, pages, chains, x, y)
      ensures PayloadIn(l, pages', x, y) == PayloadIn(l, pages, x, y)
    {
      if x == a {
        PayloadKept(l, pages, a, pages'[a], o, y);
      } else {
        PayloadElsewhere(l, pages, a, pages'[a], x, y);
      }
    }
  }

  lemma Without(items: seq<nat>, k: nat, a: nat)
    requires k < |items| && items[k] == a && forall i, j | 0 <= i < j < |items| :: items[i] != items[j]
    ensures forall x :: x in items[..k] + items[k + 1..] <==> x in items && x != a
  {
    var rest := items[..k] + items[k + 1..];
    forall x | x in items && x != a
      ensures x in rest
    {
      var j: nat :| j < |items| && items[j] == x;
      assert rest[if j < k then j else j - 1] == x;
    }
  }

  lemma ReturnedFields(l: Layout, page: Page, o: nat)
    requires o in page.heads && page.allocCount > 0
    ensures o in OnDealloc(l, page, o).heads && OnDealloc(l, page, o).allocCount > 0
    ensures var p := PushFront(OnDealloc(l, page, o), o);
            p.freeIndex == o && p.allocCount == page.allocCount - 1 && |p.bytes| == |page.bytes|
  {
  }

  /** Without objects all of a page's slots are in its chain. */
  lemma AllFree(l: Layout, page: Page, chain: seq<nat>, o: nat)
    requires LayoutOk(l) && PageOk(l, page, [o] + chain)
    ensures page.allocCount == 0 ==> forall y | y in Slots(l) :: y in [o] + chain
    ensures o != 0
  {
    var all := [o] + chain;
    assert all[0] in Slots(l);
    SlotsApart(l.first, l.slotSize, l.align);
    if page.allocCount == 0 {
      forall y | y in Slots(l)
        ensures y in all
      {
        if y !in all {
          ChainShort(all, Slots(l), y);
          assert false;
        }
      }
    }
  }

  /** A page without objects may go. */
  lemma DroppedLive(l: Layout, pages0: map<nat, Page>, chains0: map<nat, seq<nat>>, pages: map<nat, Page>,
                    chains: map<nat, seq<nat>>, a: nat)
    requires LayoutOk(l) && pages0.Keys == chains0.Keys && pages.Keys == chains.Keys && a in pages
    requires pages == pages0[a := pages[a]] && chains == chains0[a := chains[a]]
    requires forall y | y in Slots(l) :: y in chains[a]
    ensures (pages0 - {a}).Keys == (chains0 - {a}).Keys
    ensures forall x: nat, y: nat ::
              LiveIn(l, pages0 - {a}, chains0 - {a}, x, y) <==> LiveIn(l, pages, chains, x, y)
    ensures forall x: nat, y: nat | LiveIn(l, pages0 - {a}, chains0 - {a}, x, y) ::
              PayloadIn(l, pages0 - {a}, x, y) == PayloadIn(l, pages, x, y)
  {
  }

  /** Writes inside an object break no check. */
  lemma WriteOk(l: Layout, page: Page, chain: seq<nat>, o: nat, i: nat, b: nat)
    requires LayoutOk(l) && PageOk(l, page, chain) && o in Slots(l) && o !in chain && i < l.size
    ensures |page.bytes| == 4096 && o + l.payloadOffset + l.size <= 4096
    ensures PageOk(l, page.(bytes := page.bytes[o + l.payloadOffset + i := b]), chain)
  {
    SlotsDiffer(l, o, o);
    var page' := page.(bytes := page.bytes[o + l.payloadOffset + i := b]);
    forall p | p in Slots(l)
      ensures SlotOk(l, page', chain, p)
    {
      assert SlotOk(l, page, chain, p);
      if p != o {
        SlotKept(l, page, chain, page', chain, o, p);
      } else {
        RedzonesKept(l, page.bytes, page'.bytes, o);
      }
    }
  }

  function Patched(s: seq<nat>, i: nat, b: nat): seq<nat>
  {
    if i < |s| then s[i := b] else s
  }

  lemma WriteLive(l: Layout, pages: map<nat, Page>, chains: map<nat, seq<nat>>, a: nat, o: nat, i: nat, b: nat)
    requires PagesOk(l, pages, chains) && LiveIn(l, pages, chains, a, o) && i < l.size
    requires |pages[a].bytes| == 4096 && o + l.payloadOffset + l.size <= 4096
    ensures var pages' := pages[a := pages[a].(bytes := pages[a].bytes[o + l.payloadOffset + i := b])];
            && PayloadIn(l, pages', a, o) == Patched(PayloadIn(l, pages, a, o), i, b)
            && forall x: nat, y: nat | LiveIn(l, pages, chains, x, y) && (x != a || y != o) ::
                 PayloadIn(l, pages', x, y) == PayloadIn(l, pages, x, y)
  {
    hide PageOk, Slots;
    var page := pages[a].(bytes := pages[a].bytes[o + l.payloadOffset + i := b]);
    forall x: nat, y: nat | LiveIn(l, pages, chains, x, y) && (x != a || y != o)
      ensures PayloadIn(l, pages[a := page], x, y) == PayloadIn(l, pages, x, y)
    {
      if x == a {
        PayloadKept(l, pages, a, page, o, y);
      }
    }
  }

  /** A page may change to another one in order, or go. */
  lemma PutPages(l: Layout, pages: map<nat, Page>, chains: map<nat, seq<nat>>, a: nat, page: Page, chain: seq<nat>)
    requires PagesOk(l, pages, chains) && a in pages && PageOk(l, page, chain)
    ensures PagesOk(l, pages[a := page], chains[a := chain]) && PagesOk(l, pages - {a}, chains - {a})
  {
    hide PageOk;
    assert pages[a] == pages[a];
  }

  /** Where no page has a free slot, a new page is the only one. */
  lemma AddPage(l: Layout, pages: map<nat, Page>, chains: map<nat, seq<nat>>, a: nat, page: Page)
    requires PagesOk(l, pages, chains) && PartialOk([], pages) && a % 4096 == 0 && a !in pages
    requires PageOk(l, page, Slots(l)) && page.freeIndex != 0
    ensures PagesOk(l, pages[a := page], chains[a := Slots(l)]) && PartialOk([a], pages[a := page])
  {
    hide PageOk;
  }

  lemma PutPartial(items: seq<nat>, pages: map<nat, Page>, a: nat, page: Page)
    requires PartialOk(items, pages) && a in pages && page.freeIndex != 0
    ensures a in items <==> pages[a].freeIndex != 0
    ensures PartialOk(if pages[a].freeIndex == 0 then items + [a] else items, pages[a := page])
  {
  }

  lemma DropPartial(items: seq<nat>, rest: seq<nat>, pages: map<nat, Page>, a: nat)
    requires PartialOk(items, pages) && a in pages
    requires if pages[a].freeIndex == 0 then rest == items else forall x :: x in rest <==> x in items && x != a
    ensures PartialOk(rest, pages - {a})
  {
  }

  /** page_from_slot */
  function PageOfSlot(slot: nat): (a: nat)
    ensures a % 4096 == 0 && a + slot % 4096 == slot
  {
    slot / 4096 * 4096
  }

  // ---------- damage that the checks find ----------

  /** The bytes differ from the clean ones in the body of slot o at most. */
  ghost predicate BodyOnly(l: Layout, bytes: seq<nat>, clean: seq<nat>, o: nat)
  {
    && |bytes| == |clean|
    && forall i | 0 <= i < |bytes| && !(o + 4 <= i < o + l.slotSize) :: bytes[i] == clean[i]
  }

  /** All bytes of slot o between header and object and behind the object are 0xe3. */
  ghost predicate ZonesWhole(l: Layout, bytes: seq<nat>, o: nat)
  {
    forall i: nat | (o + 4 <= i < o + l.payloadOffset) || (o + l.payloadOffset + l.size <= i < o + l.slotSize) ::
      i < |bytes| && bytes[i] == 0xe3
  }

  /** All bytes of the object's place in slot o are 0xf2. */
  ghost predicate PoisonWhole(l: Layout, bytes: seq<nat>, o: nat)
  {
    forall i: nat | o + l.payloadOffset <= i < o + l.payloadOffset + l.size :: i < |bytes| && bytes[i] == 0xf2
  }

  lemma Damaged(l: Layout, bytes: seq<nat>, o: nat, i: nat)
    requires o + i < |bytes|
    ensures 4 <= i < l.payloadOffset || l.payloadOffset + l.size <= i < l.slotSize ==>
              bytes[o + i] != 0xe3 ==> !ZonesWhole(l, bytes, o)
    ensures l.payloadOffset <= i < l.payloadOffset + l.size ==> bytes[o + i] != 0xf2 ==> !PoisonWhole(l, bytes, o)
  {
  }

  lemma ZonesChecked(l: Layout, bytes: seq<nat>, o: nat)
    requires LayoutOk(l) && o + l.slotSize <= |bytes|
    ensures Redzones(l, bytes, o) <==> ZonesWhole(l, bytes, o)
    ensures Unused(l, bytes, o) <==> PoisonWhole(l, bytes, o)
  {
    assert forall i | 0 <= i < |bytes| :: bytes[i] == bytes[i];
  }

  lemma SameLength(l: Layout, bytes: seq<nat>, clean: seq<nat>, o: nat)
    requires BodyOnly(l, bytes, clean, o)
    ensures |bytes| == |clean|
  {
  }

  lemma SlotRestored(l: Layout, page: Page, clean: seq<nat>, chain: seq<nat>, o: nat, p: nat)
    requires LayoutOk(l) && |clean| == 4096 && BodyOnly(l, page.bytes, clean, o)
    requires o in Slots(l) && o !in chain && Redzones(l, page.bytes, o)
    requires p in Slots(l) && SlotOk(l, page.(bytes := clean), chain, p)
    ensures SlotOk(l, page, chain, p)
  {
    if p != o {
      SlotsDiffer(l, o, p);
      SlotsDiffer(l, p, o);
      hide Slots;
      assert forall i | p <= i < p + l.slotSize :: page.bytes[i] == clean[i];
    }
  }

  /** An object's page is in order when its red zones are whole, whatever the object holds. */
  lemma RestoredObject(l: Layout, page: Page, clean: seq<nat>, chain: seq<nat>, o: nat)
    requires LayoutOk(l) && PageOk(l, page.(bytes := clean), chain) && BodyOnly(l, page.bytes, clean, o)
    requires o in Slots(l) && o !in chain && Redzones(l, page.bytes, o)
    ensures PageOk(l, page, chain)
  {
    var page0 := page.(bytes := clean);
    hide Slots, Redzones, Unused, SlotOk, BodyOnly;
    SameLength(l, page.bytes, clean, o);
    forall p | p in Slots(l)
      ensures SlotOk(l, page, chain, p)
    {
      SlotRestored(l, page, clean, chain, o, p);
    }
  }

  /** A free slot's body is all determined. */
  lemma RestoredFree(l: Layout, bytes: seq<nat>, clean: seq<nat>, o: nat)
    requires LayoutOk(l) && BodyOnly(l, bytes, clean, o) && o + l.slotSize <= |bytes|
    requires ZonesWhole(l, bytes, o) && ZonesWhole(l, clean, o) && PoisonWhole(l, bytes, o) && PoisonWhole(l, clean, o)
    ensures bytes == clean
  {
    forall i | 0 <= i < |bytes|
      ensures bytes[i] == clean[i]
    {
    }
  }

  lemma BytesCount(l: Layout, page: Page, chain: seq<nat>)
    requires LayoutOk(l) && PageOk(l, page, chain)
    ensures |page.bytes| == 4096
  {
  }

  lemma LayoutIsOk(l: Layout, pages: map<nat, Page>, chains: map<nat, seq<nat>>)
    requires PagesOk(l, pages, chains)
    ensures LayoutOk(l)
  {
  }

  lemma FreeIsFront(l: Layout, page: Page, chain: seq<nat>)
    requires LayoutOk(l) && PageOk(l, page, chain) && chain != []
    ensures page.freeIndex == chain[0]
  {
  }

  lemma SlotZones(l: Layout, page: Page, chain: seq<nat>, o: nat)
    requires LayoutOk(l) && PageOk(l, page, chain) && o in Slots(l)
    ensures o in page.heads && Redzones(l, page.bytes, o) && (o in chain ==> Unused(l, page.bytes, o))
  {
    assert SlotOk(l, page, chain, o);
  }

  lemma PutClean(l: Layout, pages: map<nat, Page>, chains: map<nat, seq<nat>>, a: nat, page: Page)
    requires a in pages && PagesOk(l, pages[a := page], chains) && PageOk(l, pages[a], chains[a])
    ensures PagesOk(l, pages, chains)
  {
    hide PageOk;
    forall x | x in pages
      ensures x % 4096 == 0 && PageOk(l, pages[x], chains[x])
    {
      assert x in pages[a := page];
      assert pages[a := page][x] == if x == a then page else pages[x];
    }
  }

  lemma CleanPage(l: Layout, pages: map<nat, Page>, chains: map<nat, seq<nat>>, a: nat, page: Page)
    requires a in pages && PagesOk(l, pages[a := page], chains)
    ensures LayoutOk(l) && a in chains && PageOk(l, page, chains[a])
  {
    hide PageOk;
    assert pages[a := page][a] == page;
  }

  // ---------- all objects ----------

  /** An object, by its page and the offset of its slot. */
  datatype Object = Object(page: nat, offset: nat)

  /** The objects are listed, each once. */
  ghost predicate Lists(l: Layout, pages: map<nat, Page>, chains: map<nat, seq<nat>>, order: seq<Object>)
  {
    && (forall a: nat, o: nat :: LiveIn(l, pages, chains, a, o) <==> Object(a, o) in order)
    && forall i, j | 0 <= i < j < |order| :: order[i] != order[j]
  }

  lemma ListsFirst(l: Layout, pages: map<nat, Page>, chains: map<nat, seq<nat>>, order: seq<Object>)
    requires Lists(l, pages, chains, order) && order != []
    ensures LiveIn(l, pages, chains, order[0].page, order[0].offset)
  {
    assert Object(order[0].page, order[0].offset) == order[0];
  }

  lemma ListsRest(l: Layout, pages: map<nat, Page>, chains: map<nat, seq<nat>>, pages': map<nat, Page>,
                  chains': map<nat, seq<nat>>, order: seq<Object>)
    requires Lists(l, pages, chains, order) && order != []
    requires forall x: nat, y: nat ::
               LiveIn(l, pages', chains', x, y) <==>
               LiveIn(l, pages, chains, x, y) && !(x == order[0].page && y == order[0].offset)
    ensures Lists(l, pages', chains', order[1..])
  {
    hide LiveIn;
    assert forall v :: v in order <==> v == order[0] || v in order[1..];
  }

  lemma Covered(slots: seq<nat>, chain: seq<nat>)
    requires forall i, j | 0 <= i < j < |slots| :: slots[i] != slots[j]
    requires forall o | o in slots :: o in chain
    ensures |slots| <= |chain|
  {
    DistinctSize(slots);
    SeqSetSize(chain);
    SubsetSize((set x | x in slots), (set x | x in chain));
  }

  lemma SomeTaken(l: Layout, page: Page, chain: seq<nat>)
    requires LayoutOk(l) && PageOk(l, page, chain) && page.allocCount > 0
    ensures exists o :: o in Slots(l) && o !in chain
  {
    hide SlotOk, ChainOk;
    SlotsApart(l.first, l.slotSize, l.align);
    hide SlotsFrom;
    if forall o | o in Slots(l) :: o in chain {
      Covered(Slots(l), chain);
    }
  }

  /** A page with a slot taken has an object. */
  lemma HasObject(l: Layout, pages: map<nat, Page>, chains: map<nat, seq<nat>>, a: nat)
    requires PagesOk(l, pages, chains) && a in pages && pages[a].allocCount > 0
    ensures exists o: nat :: LiveIn(l, pages, chains, a, o)
  {
    hide PageOk, Slots;
    SomeTaken(l, pages[a], chains[a]);
    var o: nat :| o in Slots(l) && o !in chains[a];
    assert LiveIn(l, pages, chains, a, o);
  }

  /** Where nothing is live there is no page. */
  lemma NothingLeft(l: Layout, pages: map<nat, Page>, chains: map<nat, seq<nat>>)
    requires PagesOk(l, pages, chains) && Lists(l, pages, chains, [])
    requires forall a {:trigger pages[a]} | a in pages :: pages[a].allocCount > 0
    ensures pages == map[]
  {
    hide PageOk, Slots, LiveIn, PagesOk;
    forall a | a in pages
      ensures exists o: nat :: LiveIn(l, pages, chains, a, o)
    {
      HasObject(l, pages, chains, a);
    }
    assert forall a: nat, o: nat :: !LiveIn(l, pages, chains, a, o);
  }

  lemma SomeMember(items: seq<nat>)
    requires items != []
    ensures exists a :: a in items
  {
    assert items[0] in items;
  }

  lemma NonePartial(items: seq<nat>, pages: map<nat, Page>)
    requires PartialOk(items, pages) && pages == map[]
    ensures items == []
  {
    if items != [] {
      SomeMember(items);
    }
  }

  lemma PageAddress(a: nat, o: nat)
    requires a % 4096 == 0 && o < 4096
    ensures PageOfSlot(a + o) == a && (a + o) % 4096 == o
  {
    QuotientUnique(a + o, a / 4096, o, 4096);
  }

  lemma SlotAddress(l: Layout, pages: map<nat, Page>, chains: map<nat, seq<nat>>, a: nat, o: nat)
    requires PagesOk(l, pages, chains) && LiveIn(l, pages, chains, a, o)
    ensures PageOfSlot(a + o) == a && (a + o) % 4096 == o
  {
    PagesKeys(l, pages, chains);
    SlotsDiffer(l, o, o);
    hide Slots, PagesOk, LayoutOk;
    PageAddress(a, o);
  }

  class SlabAllocator {
    const layout: Layout
    const partial: Ring
    var pages: map<nat, Page>
    ghost var chains: map<nat, seq<nat>>

    /** p is the address of a slot of some page. */
    ghost predicate OwnsSlot(slot: nat)
      reads this
    {
      layout.slotSize > 0 && PageOfSlot(slot) in pages && slot % 4096 in Slots(layout)
    }

    /** The invariant but for pages of which no slot is taken. */
    ghost predicate Core()
      reads this, partial
    {
      && PagesOk(layout, pages, chains) && partial.Valid() && partial.dummy !in pages
      && PartialOk(partial.items, pages)
    }

    ghost predicate Valid()
      reads this, partial
    {
      Core() && forall a {:trigger pages[a]} | a in pages :: pages[a].allocCount > 0
    }

    ghost predicate Live(a: nat, o: nat)
      reads this
    {
      LiveIn(layout, pages, chains, a, o)
    }

    /** alloc_count */
    ghost function Objects(a: nat): nat
      reads this
    {
      if a in pages then pages[a].allocCount else 0
    }

    method RemovePartial(a: nat)
      requires partial.Valid() && a in partial.items
      modifies partial
      ensures partial.Valid() && forall x :: x in partial.items <==> x in old(partial.items) && x != a
    {
      ghost var k :| 0 <= k < |partial.items| && partial.items[k] == a;
      ghost var items := partial.items;
      partial.Remove(a, k);
      Without(items, k, a);
    }

    /** The rest of slab_dealloc: the page stays, joins the ring, or goes. */
    method PutBack(a: nat, o: nat, page: Page)
      requires Valid() && a in pages && page.freeIndex == o && o != 0
      requires PageOk(layout, page, [o] + chains[a])
      modifies this`pages, this`chains, partial
      ensures Valid()
      ensures pages == if page.allocCount == 0 then old(pages) - {a} else old(pages)[a := page]
      ensures chains == if page.allocCount == 0 then old(chains) - {a} else old(chains)[a := [o] + old(chains)[a]]
    {
      hide PageOk, PagesOk, PartialOk;
      var wasFull := pages[a].freeIndex == 0;
      PagesKeys(layout, pages, chains);
      ghost var chain := [o] + chains[a];
      PutPages(layout, pages, chains, a, page, chain);
      PutPartial(partial.items, pages, a, page);
      if page.allocCount == 0 {
        ghost var items := partial.items;
        if !wasFull {
          RemovePartial(a);
        }
        DropPartial(items, partial.items, pages, a);
        pages := pages - {a};
        chains := chains - {a};
      } else {
        if wasFull {
          partial.PushBack(a);
        }
        pages := pages[a := page];
        chains := chains[a := chain];
      }
    }

    /** The invariant but for damage to the body of slot o of page a, where these bytes would be in order. */
    ghost predicate CoreBut(a: nat, o: nat, clean: seq<nat>)
      reads this, partial
    {
      && a in pages && BodyOnly(layout, pages[a].bytes, clean, o)
      && PagesOk(layout, pages[a := pages[a].(bytes := clean)], chains)
      && partial.Valid() && partial.dummy !in pages && PartialOk(partial.items, pages)
    }

    ghost predicate ValidBut(a: nat, o: nat, clean: seq<nat>)
      reads this, partial
    {
      CoreBut(a, o, clean) && forall x {:trigger pages[x]} | x in pages :: pages[x].allocCount > 0
    }

    /** Undamaged, it is the invariant. */
    lemma ValidIsBut(a: nat, o: nat)
      requires Core() && a in pages
      ensures CoreBut(a, o, pages[a].bytes)
    {
      hide PagesOk, PartialOk;
      assert pages[a := pages[a].(bytes := pages[a].bytes)] == pages;
    }

    /** What the check of slot_on_dealloc finds out. */
    lemma DeallocChecks(a: nat, o: nat, clean: seq<nat>)
      requires ValidBut(a, o, clean) && layout.slotSize > 0 && o in Slots(layout)
      ensures LayoutOk(layout) && a in chains
      ensures MayDealloc(layout, pages[a], o) <==> Live(a, o) && ZonesWhole(layout, pages[a].bytes, o)
      ensures MayDealloc(layout, pages[a], o) ==> Valid()
    {
      var page0 := pages[a].(bytes := clean);
      CleanPage(layout, pages, chains, a, page0);
      ReturnOk(layout, page0, chains[a], o);
      SlotsDiffer(layout, o, o);
      BytesCount(layout, page0, chains[a]);
      ZonesChecked(layout, pages[a].bytes, o);
      ZonesChecked(layout, clean, o);
      hide Slots, PageOk, PagesOk, PartialOk, Redzones, ZonesWhole, BodyOnly;
      if MayDealloc(layout, pages[a], o) {
        SlotZones(layout, page0, chains[a], o);
        RestoredObject(layout, pages[a], clean, chains[a], o);
        PutClean(layout, pages, chains, a, page0);
      }
    }

    /** slab_dealloc of the payload of a slot.  The panic of slot_on_dealloc is taken exactly when the slot is not an
        object's or a byte of its red zones was overwritten; else the object goes, and with a page's last object the
        page. */
    method Dealloc(p: nat, ghost clean: seq<nat>) returns (ok: bool)
      requires p >= layout.payloadOffset && OwnsSlot(p - layout.payloadOffset)
      requires ValidBut(PageOfSlot(p - layout.payloadOffset), (p - layout.payloadOffset) % 4096, clean)
      modifies this`pages, this`chains, partial
      ensures ok ==> Valid()
      ensures var slot := p - layout.payloadOffset;
              var a, o := PageOfSlot(slot), slot % 4096;
              && (ok <==> old(Live(a, o)) && a in old(pages) && ZonesWhole(layout, old(pages)[a].bytes, o))
              && (!ok ==> pages == old(pages) && chains == old(chains) && partial.items == old(partial.items))
              && (ok ==> pages.Keys == if old(Objects(a)) == 1 then old(pages).Keys - {a} else old(pages).Keys)
              && (ok ==> forall x: nat, y: nat :: Live(x, y) <==> old(Live(x, y)) && !(x == a && y == o))
              && (ok ==> forall x: nat, y: nat | Live(x, y) ::
                    PayloadIn(layout, pages, x, y) == PayloadIn(layout, old(pages), x, y))
    {
      hide PageOk, MayDealloc, OnDealloc, PushFront, PayloadIn, Slots;
      var slot := p - layout.payloadOffset;
      var a := PageOfSlot(slot);
      var o := slot - a;
      var page := pages[a];
      ghost var chain := chains[a];
      DeallocChecks(a, o, clean);
      if !MayDealloc(layout, page, o) {
        return false;
      }
      ReturnOk(layout, page, chain, o);
      FreeMeansChain(layout, page, chain);
      ReturnedFields(layout, page, o);
      page := PushFront(OnDealloc(layout, page, o), o);
      ReturnedLive(layout, pages, chains, a, o);
      AllFree(layout, page, chain, o);
      ghost var pages1, chains1 := pages[a := page], chains[a := [o] + chain];
      if page.allocCount == 0 {
        DroppedLive(layout, pages, chains, pages1, chains1, a);
      }
      PutBack(a, o, page);
      return true;
    }

    /** slab_init, for a layout that passed its assertions */
    constructor (layout: Layout, dummy: nat)
      requires LayoutOk(layout)
      ensures Valid() && pages == map[] && fresh(partial) && this.layout == layout
    {
      this.layout := layout;
      partial := new Ring(dummy);
      pages, chains := map[], map[];
    }

    /** slab_alloc_page with a page that the page allocator offers. */
    method AllocPage(a: nat, page0: Page)
      requires Core() && partial.items == [] && |page0.bytes| == 4096
      requires a % 4096 == 0 && a !in pages && a != partial.dummy
      modifies this`pages, this`chains, partial
      ensures Core() && partial.items == [a] && pages.Keys == old(pages).Keys + {a}
      ensures chains == old(chains)[a := Slots(layout)]
      ensures pages == old(pages)[a := pages[a]] && pages[a].allocCount == 0
    {
      hide PageOk, PagesOk, PartialOk;
      PagesKeys(layout, pages, chains);
      var page := PageInit(layout, page0);
      FreeMeansChain(layout, page, Slots(layout));
      AddPage(layout, pages, chains, a, page);
      partial.Init();
      partial.PushFront(a);
      assert partial.items == [a];
      pages := pages[a := page];
      chains := chains[a := Slots(layout)];
    }

    /** The rest of slab_alloc: the first slot of page a's chain. */
    method TakeSlot(a: nat) returns (o: nat)
      requires Core() && partial.items != [] && a == partial.items[0]
      modifies this`pages, this`chains, partial
      ensures Core() && a in old(pages) && old(chains)[a] != [] && o == old(chains)[a][0]
      ensures o == old(pages)[a].freeIndex && o in old(pages)[a].heads
      ensures pages == old(pages)[a := OnAlloc(layout, PopFront(old(pages)[a]), o)]
      ensures chains == old(chains)[a := old(chains)[a][1..]]
    {
      hide PageOk, MayAlloc, OnAlloc, PopFront;
      var page := pages[a];
      assert page.freeIndex != 0;
      FreeMeansChain(layout, page, chains[a]);
      TakeOk(layout, page, chains[a]);
      o := page.freeIndex;
      var popped := PopFront(page);
      ghost var taken := OnAlloc(layout, popped, o);
      ghost var rest := chains[a][1..];
      PoppedFree(layout, page, o);
      FreeMeansChain(layout, taken, rest);
      if popped.freeIndex == 0 {
        partial.Remove(a, 0);
      }
      assert MayAlloc(layout, popped, o);
      pages := pages[a := OnAlloc(layout, popped, o)];
      chains := chains[a := rest];
    }

    /** What the check of slot_on_alloc finds out of the first free slot of a page. */
    lemma AllocChecks(a: nat, clean: seq<nat>)
      requires a in pages && pages[a].freeIndex != 0 && CoreBut(a, pages[a].freeIndex, clean)
      ensures LayoutOk(layout) && pages[a].freeIndex in pages[a].heads
      ensures var o := pages[a].freeIndex;
              MayAlloc(layout, PopFront(pages[a]), o) <==>
              ZonesWhole(layout, pages[a].bytes, o) && PoisonWhole(layout, pages[a].bytes, o)
      ensures MayAlloc(layout, PopFront(pages[a]), pages[a].freeIndex) ==> Core()
    {
      var page0, o := pages[a].(bytes := clean), pages[a].freeIndex;
      CleanPage(layout, pages, chains, a, page0);
      FreeMeansChain(layout, page0, chains[a]);
      ChainHead(layout, page0, chains[a]);
      TakeOk(layout, page0, chains[a]);
      SlotsDiffer(layout, o, o);
      SlotZones(layout, page0, chains[a], o);
      BytesCount(layout, page0, chains[a]);
      ZonesChecked(layout, pages[a].bytes, o);
      ZonesChecked(layout, clean, o);
      hide Slots, PageOk, PagesOk, PartialOk, Redzones, Unused, ZonesWhole, PoisonWhole, BodyOnly;
      if MayAlloc(layout, PopFront(pages[a]), o) {
        RestoredFree(layout, pages[a].bytes, clean, o);
        assert page0 == pages[a] && pages[a := page0] == pages;
      }
    }

    lemma FirstPartial(a: nat, clean: seq<nat>)
      requires partial.items != [] && a == partial.items[0] && a in pages && CoreBut(a, pages[a].freeIndex, clean)
      ensures pages[a].freeIndex != 0
    {
      hide PagesOk;
      assert a in partial.items;
    }

    /** slot_on_alloc's panic is taken exactly when a byte of the slot was written since it became free. */
    method TakeChecked(a: nat, ghost clean: seq<nat>) returns (ok: bool, o: nat)
      requires partial.items != [] && a == partial.items[0] && a in pages && CoreBut(a, pages[a].freeIndex, clean)
      modifies this`pages, this`chains, partial
      ensures o == old(pages)[a].freeIndex
      ensures ok <==> ZonesWhole(layout, old(pages)[a].bytes, o) && PoisonWhole(layout, old(pages)[a].bytes, o)
      ensures ok ==> old(Core())
      ensures ok ==> Core() && old(chains)[a] != [] && o == old(chains)[a][0] && o in old(pages)[a].heads
      ensures ok ==> pages == old(pages)[a := OnAlloc(layout, PopFront(old(pages)[a]), o)]
      ensures ok ==> chains == old(chains)[a := old(chains)[a][1..]]
    {
      hide PageOk, MayAlloc, OnAlloc, PopFront, PagesOk, ZonesWhole, PoisonWhole, BodyOnly;
      FirstPartial(a, clean);
      AllocChecks(a, clean);
      o := pages[a].freeIndex;
      ok := MayAlloc(layout, PopFront(pages[a]), o);
      if ok {
        o := TakeSlot(a);
      }
    }

    /** Without damage all of a free slot is whole. */
    lemma WholeFree(a: nat)
      requires Core() && a in pages && pages[a].freeIndex != 0
      ensures ZonesWhole(layout, pages[a].bytes, pages[a].freeIndex)
      ensures PoisonWhole(layout, pages[a].bytes, pages[a].freeIndex)
    {
      var o := pages[a].freeIndex;
      assert pages[a] == pages[a];
      FreeMeansChain(layout, pages[a], chains[a]);
      ChainHead(layout, pages[a], chains[a]);
      TakeOk(layout, pages[a], chains[a]);
      SlotZones(layout, pages[a], chains[a], o);
      SlotsDiffer(layout, o, o);
      ZonesChecked(layout, pages[a].bytes, o);
    }

    lemma FreeSlotIn(a: nat)
      requires Core() && a in partial.items
      ensures a in pages && pages[a].freeIndex != 0
    {
      hide PagesOk;
    }

    /** slab_alloc.  When no page has a free slot the page allocator is asked, which offers a page or none.  It is a
        panic exactly when a byte of the slot that would be given was written since it became free. */
    method Alloc(offered: Option<nat>, page0: Page, ghost clean: seq<nat>)
      returns (ok: bool, p: Option<nat>, ghost a: nat, ghost o: nat)
      requires |page0.bytes| == 4096
      requires if partial.items == [] then Valid()
               else partial.items[0] in pages && ValidBut(partial.items[0], pages[partial.items[0]].freeIndex, clean)
      requires offered.Some? ==> offered.value % 4096 == 0 && offered.value !in pages && offered.value != partial.dummy
      modifies this`pages, this`chains, partial
      ensures ok <==> old(partial.items) != [] ==>
                old(ZonesWhole(layout, pages[partial.items[0]].bytes, pages[partial.items[0]].freeIndex)) &&
                old(PoisonWhole(layout, pages[partial.items[0]].bytes, pages[partial.items[0]].freeIndex))
      ensures ok ==> Valid()
      ensures ok ==> (p.None? <==> old(partial.items) == [] && offered.None?)
      ensures ok && p.None? ==> pages == old(pages) && chains == old(chains)
      ensures ok && p.Some? ==> p.value == a + o + layout.payloadOffset && !old(Live(a, o))
      ensures ok && p.Some? ==> forall x: nat, y: nat :: Live(x, y) <==> old(Live(x, y)) || (x == a && y == o)
      ensures ok && p.Some? ==> PayloadIn(layout, pages, a, o) == seq(layout.size, _ => 0)
      ensures ok ==> forall x: nat, y: nat | old(Live(x, y)) ::
                PayloadIn(layout, pages, x, y) == PayloadIn(layout, old(pages), x, y)
    {
      hide PageOk, PagesOk, OnAlloc, PopFront, PayloadIn, ZonesWhole, PoisonWhole, BodyOnly;
      a, o, p := 0, 0, None;
      var empty := partial.IsEmpty();
      ghost var bytes := clean;
      if empty {
        if offered.None? {
          return true, None, a, o;
        }
        AllocPage(offered.value, page0);
        LayoutIsOk(layout, old(pages), old(chains));
        NewPageLive(layout, old(pages), old(chains), pages, chains, offered.value);
        FreeSlotIn(offered.value);
        WholeFree(offered.value);
        bytes := pages[offered.value].bytes;
        ValidIsBut(offered.value, pages[offered.value].freeIndex);
      }
      ghost var pages1, chains1 := pages, chains;
      var head := partial.Head();
      var slot;
      ok, slot := TakeChecked(head, bytes);
      if ok {
        a, o := head, slot;
        TakenCount(layout, pages1[a], o);
        p := Some(head + slot + layout.payloadOffset);
        TakenLive(layout, pages1, chains1, a, o);
      }
    }

    /** A byte written into the body of a slot damages that slot only. */
    method Scribble(a: nat, o: nat, i: nat, b: nat)
      requires Core() && a in pages && layout.slotSize > 0 && o in Slots(layout) && 4 <= i < layout.slotSize
      modifies this`pages
      ensures a in old(pages) && o + i < |old(pages)[a].bytes| && CoreBut(a, o, old(pages)[a].bytes)
      ensures pages == old(pages)[a := old(pages)[a].(bytes := old(pages)[a].bytes[o + i := b])]
      ensures chains == old(chains)
    {
      hide PageOk, Slots;
      ghost var pages0 := pages;
      CleanPage(layout, pages, chains, a, pages[a]);
      BytesCount(layout, pages[a], chains[a]);
      SlotsDiffer(layout, o, o);
      pages := pages[a := pages[a].(bytes := pages[a].bytes[o + i := b])];
      assert pages[a := pages[a].(bytes := pages0[a].bytes)] == pages0;
    }

    /** A client that writes past its object, before or behind, is found out when the object is deallocated. */
    method OverrunFound(a: nat, o: nat, i: nat, b: nat) returns (ok: bool)
      requires Valid() && Live(a, o) && b != 0xe3
      requires 4 <= i < layout.payloadOffset || layout.payloadOffset + layout.size <= i < layout.slotSize
      modifies this`pages, this`chains, partial
      ensures !ok
    {
      hide PageOk, PagesOk, PartialOk, Slots;
      SlotAddress(layout, pages, chains, a, o);
      LayoutIsOk(layout, pages, chains);
      ghost var clean := pages[a].bytes;
      Scribble(a, o, i, b);
      Damaged(layout, pages[a].bytes, o, i);
      ok := Dealloc(a + o + layout.payloadOffset, clean);
    }

    lemma FreeSlotHere(a: nat)
      requires Core() && a in partial.items
      ensures a in pages && layout.slotSize > 0 && pages[a].freeIndex in Slots(layout)
    {
      hide PageOk, Slots;
      assert pages[a] == pages[a];
      FreeMeansChain(layout, pages[a], chains[a]);
      ChainHead(layout, pages[a], chains[a]);
      FreeIsFront(layout, pages[a], chains[a]);
    }

    /** A client that writes to an object it has given back is found out when the slot is given out again. */
    method UseAfterFreeFound(a: nat, i: nat, b: nat, page0: Page) returns (ok: bool)
      requires Valid() && partial.items != [] && a == partial.items[0] && |page0.bytes| == 4096 && b != 0xf2
      requires layout.payloadOffset <= i < layout.payloadOffset + layout.size
      modifies this`pages, this`chains, partial
      ensures !ok
    {
      hide PageOk, PagesOk, PartialOk, Slots;
      FreeSlotHere(a);
      LayoutIsOk(layout, pages, chains);
      ghost var clean, o, p, x, y := pages[a].bytes, pages[a].freeIndex, None, 0, 0;
      Scribble(a, pages[a].freeIndex, i, b);
      Damaged(layout, pages[a].bytes, pages[a].freeIndex, i);
      ok, p, x, y := Alloc(None, page0, clean);
    }

    /** A client writes a byte of its object. */
    method ClientWrite(a: nat, o: nat, i: nat, b: nat)
      requires Valid() && Live(a, o) && i < layout.size
      modifies this`pages
      ensures Valid() && forall x: nat, y: nat :: Live(x, y) <==> old(Live(x, y))
      ensures PayloadIn(layout, pages, a, o) == Patched(PayloadIn(layout, old(pages), a, o), i, b)
      ensures forall x: nat, y: nat | Live(x, y) && (x != a || y != o) ::
                PayloadIn(layout, pages, x, y) == PayloadIn(layout, old(pages), x, y)
    {
      hide PageOk, Slots, PayloadIn;
      var page := pages[a];
      WriteOk(layout, page, chains[a], o, i, b);
      WriteLive(layout, pages, chains, a, o, i, b);
      pages := pages[a := page.(bytes := page.bytes[o + layout.payloadOffset + i := b])];
    }

    /** Without damage an object's red zones are whole. */
    lemma WholeZones(a: nat, o: nat)
      requires Core() && Live(a, o)
      ensures ZonesWhole(layout, pages[a].bytes, o)
    {
      assert pages[a] == pages[a];
      SlotZones(layout, pages[a], chains[a], o);
      BytesCount(layout, pages[a], chains[a]);
      SlotsDiffer(layout, o, o);
      ZonesChecked(layout, pages[a].bytes, o);
    }

    /** Deallocating all objects, in whatever order they are listed, leaves no page and no partial page. */
    method FreeAll(order: seq<Object>)
      requires Valid() && Lists(layout, pages, chains, order)
      modifies this`pages, this`chains, partial
      ensures Valid() && pages == map[] && partial.items == []
      decreases |order|
    {
      hide PageOk, PayloadIn, Slots, Lists;
      if order == [] {
        NothingLeft(layout, pages, chains);
        NonePartial(partial.items, pages);
        return;
      }
      ListsFirst(layout, pages, chains, order);
      var a, o := order[0].page, order[0].offset;
      SlotAddress(layout, pages, chains, a, o);
      ghost var pages0, chains0 := pages, chains;
      ValidIsBut(a, o);
      WholeZones(a, o);
      var ok := Dealloc(a + o + layout.payloadOffset, pages[a].bytes);
      forall x: nat, y: nat
        ensures LiveIn(layout, pages, chains, x, y) <==>
                LiveIn(layout, pages0, chains0, x, y) && !(x == a && y == o)
      {
        assert Live(x, y) <==> old(Live(x, y)) && !(x == a && y == o);
      }
      ListsRest(layout, pages0, chains0, pages, chains, order);
      FreeAll(order[1..]);
    }
  }
}
