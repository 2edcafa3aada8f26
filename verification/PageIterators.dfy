/** page_iterator of kernel/src/arch/x86_64/memory.c: the four indices of a virtual page, stepped as an
    odometer. */
module PageIterators {
  import opened Paging

  datatype PageIterator = PageIterator(pl4i: nat, pdpi: nat, pdti: nat, ptei: nat)

  /** page_iterator_from_virt */
  function FromVirt(v: nat): PageIterator
  {
    PageIterator(v / 0x800_0000 % 512, v / 0x4_0000 % 512, v / 512 % 512, v % 512)
  }

  /** The four functions below panic on overflow of the first index; no caller may get there. */
  function NextPl4i(it: PageIterator): PageIterator
    requires it.pl4i < 511
  {
    it.(pl4i := it.pl4i + 1)
  }

  function NextPdpi(it: PageIterator): PageIterator
    requires it.pdpi < 511 || it.pl4i < 511
  {
    if it.pdpi + 1 < 512 then it.(pdpi := it.pdpi + 1) else NextPl4i(it.(pdpi := 0))
  }

  function NextPdti(it: PageIterator): PageIterator
    requires it.pdti < 511 || it.pdpi < 511 || it.pl4i < 511
  {
    if it.pdti + 1 < 512 then it.(pdti := it.pdti + 1) else NextPdpi(it.(pdti := 0))
  }

  /** page_iterator_next */
  function NextPage(it: PageIterator): PageIterator
    requires it.ptei < 511 || it.pdti < 511 || it.pdpi < 511 || it.pl4i < 511
  {
    if it.ptei + 1 < 512 then it.(ptei := it.ptei + 1) else NextPdti(it.(ptei := 0))
  }

  /** The page number the four indices stand for. */
  function PageOf(it: PageIterator): nat
  {
    ((it.pl4i * 512 + it.pdpi) * 512 + it.pdti) * 512 + it.ptei
  }

  predicate Digits(it: PageIterator)
  {
    it.pl4i < 512 && it.pdpi < 512 && it.pdti < 512 && it.ptei < 512
  }

  /** Quotient and remainder by 512 are unique. */
  lemma DigitUnique(q: nat, d: nat, q': nat, d': nat)
    requires d < 512 && d' < 512 && q * 512 + d == q' * 512 + d'
    ensures q == q' && d == d'
  {
  }

  lemma DigitsUnique(a: PageIterator, b: PageIterator)
    requires Digits(a) && Digits(b) && PageOf(a) == PageOf(b)
    ensures a == b
  {
    DigitUnique((a.pl4i * 512 + a.pdpi) * 512 + a.pdti, a.ptei, (b.pl4i * 512 + b.pdpi) * 512 + b.pdti, b.ptei);
    DigitUnique(a.pl4i * 512 + a.pdpi, a.pdti, b.pl4i * 512 + b.pdpi, b.pdti);
    DigitUnique(a.pl4i, a.pdpi, b.pl4i, b.pdpi);
  }

  /** The masks and shifts of page_iterator_from_virt, one digit at a time. */
  lemma Shifts(v: nat)
    ensures v / 0x4_0000 == v / 512 / 512
    ensures v / 0x800_0000 == v / 512 / 512 / 512
  {
    var q, q2 := v / 512, v / 512 / 512;
    var d, d2 := v % 512, q % 512;
    assert v == 512 * q + d && q == 512 * q2 + d2;
    assert v == 0x4_0000 * q2 + (512 * d2 + d) && 0 <= 512 * d2 + d < 0x4_0000;
    var q3, d3 := q2 / 512, q2 % 512;
    assert q2 == 512 * q3 + d3;
    var rest := 0x4_0000 * d3 + 512 * d2 + d;
    assert v == 0x800_0000 * q3 + rest && 0 <= rest < 0x800_0000;
  }

  lemma IndexIsDigit(v: nat)
    ensures Index(v, 3) == v % 512 && Index(v, 2) == v / 512 % 512
    ensures Index(v, 1) == v / 512 / 512 % 512 && Index(v, 0) == v / 512 / 512 / 512 % 512
    ensures Prefix(v, 3) == v / 512 && Prefix(v, 2) == v / 512 / 512 && Prefix(v, 1) == v / 512 / 512 / 512
  {
    assert Prefix(v, 4) == v;
    assert Prefix(v, 3) == v / 512;
    assert Prefix(v, 2) == v / 512 / 512;
    assert Prefix(v, 1) == v / 512 / 512 / 512;
  }

  lemma TopDigit(v: nat)
    requires v < 0x10_0000_0000
    ensures v / 512 / 512 / 512 < 512
  {
    assert v / 512 < 0x800_0000;
    assert v / 512 / 512 < 0x4_0000;
  }

  /** The indices are the page number's digits, and those of the four levels of the walk. */
  lemma FromVirtDigits(v: nat)
    requires v < 0x10_0000_0000
    ensures Digits(FromVirt(v)) && PageOf(FromVirt(v)) == v
    ensures FromVirt(v) == PageIterator(Index(v, 0), Index(v, 1), Index(v, 2), Index(v, 3))
  {
    Shifts(v);
    IndexIsDigit(v);
    TopDigit(v);
  }

  /** Stepping by a page, or from the start of a 2 MiB block to the next, adds 1 or 512 pages. */
  lemma NextIsPlusOne(it: PageIterator, v: nat)
    requires v + 1 < 0x10_0000_0000 && it == FromVirt(v)
    ensures it.ptei < 511 || it.pdti < 511 || it.pdpi < 511 || it.pl4i < 511
    ensures NextPage(it) == FromVirt(v + 1)
  {
    FromVirtDigits(v);
    FromVirtDigits(v + 1);
    assert it.ptei < 511 || it.pdti < 511 || it.pdpi < 511 || it.pl4i < 511;
    DigitsUnique(NextPage(it), FromVirt(v + 1));
  }

  lemma NextIsPlusBlock(it: PageIterator, v: nat)
    requires v + 512 < 0x10_0000_0000 && v % 512 == 0 && it == FromVirt(v)
    ensures it.pdti < 511 || it.pdpi < 511 || it.pl4i < 511
    ensures NextPdti(it) == FromVirt(v + 512)
  {
    FromVirtDigits(v);
    FromVirtDigits(v + 512);
    assert it.pdti < 511 || it.pdpi < 511 || it.pl4i < 511;
    DigitsUnique(NextPdti(it), FromVirt(v + 512));
  }

  /** Two pages share their first three digits exactly when they are in the same 2 MiB block. */
  lemma SameBlock(v: nat, w: nat)
    requires v < 0x10_0000_0000 && w < 0x10_0000_0000
    ensures RoleFor(v, 3) == RoleFor(w, 3) <==> v / 512 == w / 512
    ensures RoleFor(v, 3) == RoleFor(w, 3) <==> RoleFor(v, 2) == RoleFor(w, 2) && Index(v, 2) == Index(w, 2)
    ensures Index(v, 3) == v % 512
    ensures RoleFor(v, 3) == RoleFor(w, 3) && Index(v, 3) == Index(w, 3) <==> v == w
  {
    FromVirtDigits(v);
    FromVirtDigits(w);
    assert RoleFor(v, 2) == Sub(Sub(Root, Index(v, 0)), Index(v, 1));
    assert RoleFor(w, 2) == Sub(Sub(Root, Index(w, 0)), Index(w, 1));
    assert RoleFor(v, 3) == RoleFor(w, 3) <==>
           Index(v, 0) == Index(w, 0) && Index(v, 1) == Index(w, 1) && Index(v, 2) == Index(w, 2);
  }
}
