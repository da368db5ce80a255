/**
 Virtual addresses: the four table indices, the canonical-form test and the
 addresses inside the recursive window.
 */
module VirtualAddress {
  type VAddr = bv64
  type Index = bv9

  /** A virtual page, named by its four table indices. */
  datatype Page = Page(l4: Index, l3: Index, l2: Index, l1: Index)

  /** The slot through which every table points at itself. */
  const RECURSIVE_INDEX: Index := 1
  const SIGN_EXTENSION: VAddr := 0xFFFF_0000_0000_0000

  function PageOf(v: VAddr): Page {
    Page(((v >> 39) & 0x1FF) as Index,
         ((v >> 30) & 0x1FF) as Index,
         ((v >> 21) & 0x1FF) as Index,
         ((v >> 12) & 0x1FF) as Index)
  }

  function Fields(l4: Index, l3: Index, l2: Index, l1: Index): VAddr {
    (l4 as VAddr << 39) | (l3 as VAddr << 30) | (l2 as VAddr << 21) | (l1 as VAddr << 12)
  }

  /** The low 48 bits of the first byte of a page. */
  function Low48(p: Page): VAddr {
    Fields(p.l4, p.l3, p.l2, p.l1)
  }

  /** The address of the first byte of a page in canonical form. */
  function AddressOf(p: Page): VAddr {
    if p.l4 & 0x100 == 0 then Low48(p) else SIGN_EXTENSION | Low48(p)
  }

  /** The test in `mapPage`: the upper sixteen bits are all zeros or all ones. */
  predicate PassesCanonicalTest(v: VAddr) {
    v >> 48 == 0 || v >> 48 == 0xFFFF
  }

  /** Canonical form proper: bits 63 to 47 are equal. */
  predicate Canonical(v: VAddr) {
    v >> 47 == 0 || v >> 47 == 0x1_FFFF
  }

  /** Pages whose indices all avoid the self-link slot. */
  predicate Admissible(p: Page) {
    p.l4 != 1 && p.l3 != 1 && p.l2 != 1 && p.l1 != 1
  }

  // Field arithmetic on the low 48 bits, one fact a lemma: bit-vector goals stay cheap
  // only while they stay small.

  /** The four indices are the four groups of nine bits above the offset, the first one on top. */
  lemma SplitExactly(v: VAddr)
    ensures var p := PageOf(v);
      && p.l4 as bv64 == (v >> 39) & 0x1FF && p.l3 as bv64 == (v >> 30) & 0x1FF
      && p.l2 as bv64 == (v >> 21) & 0x1FF && p.l1 as bv64 == (v >> 12) & 0x1FF
  {
  }

  lemma Low48OfSplit(v: VAddr)
    ensures Low48(PageOf(v)) == v & 0x0000_FFFF_FFFF_F000
  {
  }

  lemma FieldsRange(a: Index, b: Index, c: Index, d: Index)
    ensures Fields(a, b, c, d) >> 48 == 0
    ensures Fields(a, b, c, d) & 0xFFF == 0
  {
  }

  lemma SplitLow48(p: Page)
    ensures PageOf(Low48(p)) == p
  {
  }

  lemma SplitIgnoresExtension(v: VAddr)
    ensures PageOf(SIGN_EXTENSION | v) == PageOf(v)
    ensures v & 0xFFF == 0 ==> (SIGN_EXTENSION | v) & 0xFFF == 0
  {
  }

  lemma TopIndexIsSign(v: VAddr)
    ensures v >> 48 == 0 ==> (PageOf(v).l4 & 0x100 == 0 <==> v >> 47 == 0)
    ensures Canonical(v) ==> (PageOf(v).l4 & 0x100 == 0 <==> v >> 47 == 0)
  {
  }

  lemma ExtendedLowHalf(v: VAddr)
    requires v >> 48 == 0
    ensures v >> 47 != 0 ==> (SIGN_EXTENSION | v) >> 47 == 0x1_FFFF
  {
  }

  lemma CanonicalHalves(v: VAddr)
    requires v >> 47 == 0 || v >> 47 == 0x1_FFFF
    ensures v >> 47 == 0 ==> v & 0x0000_FFFF_FFFF_F000 == v & !0xFFF
    ensures v >> 47 != 0 ==> 0xFFFF_0000_0000_0000 | (v & 0x0000_FFFF_FFFF_F000) == v & !0xFFF
  {
  }

  /** The four-index split is a bijection between canonical pages and index tuples: every
      canonical address is rebuilt from its indices, up to the offset in the page... */
  lemma AddressOfSplit(v: VAddr)
    requires Canonical(v)
    ensures AddressOf(PageOf(v)) == v & !0xFFF
  {
    Low48OfSplit(v);
    TopIndexIsSign(v);
    CanonicalHalves(v);
  }

  /** ... and every index tuple names a canonical page that splits back into it. */
  lemma SplitOfAddress(p: Page)
    ensures Canonical(AddressOf(p)) && AddressOf(p) & 0xFFF == 0
    ensures PageOf(AddressOf(p)) == p
  {
    SplitLow48(p);
    FieldsRange(p.l4, p.l3, p.l2, p.l1);
    TopIndexIsSign(Low48(p));
    ExtendedLowHalf(Low48(p));
    SplitIgnoresExtension(Low48(p));
  }

  /** Adding the sign extension makes an address canonical exactly when its top index has the
      high bit set. */
  lemma ExtendedIsCanonical(p: Page)
    ensures Canonical(SIGN_EXTENSION | Low48(p)) <==> p.l4 & 0x100 != 0
    ensures Canonical(Low48(p)) <==> p.l4 & 0x100 == 0
  {
  }

  /** Bit 47 is not part of the test in the source: it accepts a canonical-form violation
      exactly when bit 47 differs from bit 48. */
  lemma CanonicalTestExactly(v: VAddr)
    ensures Canonical(v) <==> PassesCanonicalTest(v) && (v >> 47) & 1 == (v >> 48) & 1
  {
  }

  lemma CanonicalTestCounterexample()
    ensures PassesCanonicalTest(0x0000_8000_0000_0000) && !Canonical(0x0000_8000_0000_0000)
  {
  }
}
