/**
 The 64-bit page-table entry: how `constructTableEntry` builds one and how an
 address is read back.  The two address macros of the source do not agree with
 each other; both the macros as written and the repaired pair (physical address
 bits 51:12 kept in place, as section 5.3 of the AMD64 Architecture Programmer's
 Manual, Volume 2 lays them out) are defined here.
 */
module PageEntry {
  type Word = bv64

  // Generic page flags of the paginator interface (a C++ int used as a bit set).
  type PageFlags = bv32
  const PRESENT: PageFlags := 0x1
  const USER_MODE_ACCESSIBLE: PageFlags := 0x2
  const EXECUTE_BIT: PageFlags := 0x4
  const WRITE_BIT: PageFlags := 0x8
  const IS_HUGE_PAGE: PageFlags := 0x8000

  // Hardware flags of an x86_64 entry.
  const HW_PRESENT: Word := 0x1
  const HW_WRITE_ENABLE: Word := 0x2
  const HW_USER: Word := 0x4
  const HW_HUGE_PAGE: Word := 0x80
  const HW_EXECUTE_DISABLE: Word := 0x8000_0000_0000_0000

  const ADDRESS_MASK: Word := 0x000F_FFFF_FFFF_F000

  predicate Has(flags: PageFlags, bit: PageFlags) {
    flags & bit == bit
  }

  predicate HasHw(entry: Word, bit: Word) {
    entry & bit == bit
  }

  /** A page-aligned physical address below 2^52. */
  predicate Aligned(a: Word) {
    a & !ADDRESS_MASK == 0
  }

  /** A physical page that can be told apart from "unmapped". */
  predicate PageAddr(a: Word) {
    Aligned(a) && a != 0
  }

  function HardwareFlags(flags: PageFlags): Word {
    var f0: Word := 0;
    var f1 := if Has(flags, PRESENT) then f0 | HW_PRESENT else f0;
    var f2 := if Has(flags, USER_MODE_ACCESSIBLE) then f1 | HW_USER else f1;
    var f3 := if Has(flags, WRITE_BIT) then f2 | HW_WRITE_ENABLE else f2;
    var f4 := if Has(flags, IS_HUGE_PAGE) then f3 | HW_HUGE_PAGE else f3;
    if !Has(flags, EXECUTE_BIT) then f4 | HW_EXECUTE_DISABLE else f4
  }

  /** `constructTableEntry` with the repaired address macro: the byte address is
      stored in place. */
  function TableEntry(physicalAddress: Word, flags: PageFlags): Word {
    HardwareFlags(flags) | physicalAddress
  }

  /** The repaired `GET_ADDR_FROM_ENTRY`. */
  function AddrOf(entry: Word): Word {
    entry & ADDRESS_MASK
  }

  /** What an entry keeps of a physical address. */
  function PagePart(a: Word): Word {
    a & ADDRESS_MASK
  }

  /** `constructTableEntry` with `SET_PHYSICAL_ADDRESS` as written. */
  function TableEntryAsWritten(physicalAddress: Word, flags: PageFlags): Word {
    HardwareFlags(flags) | (physicalAddress << 12)
  }

  /** `GET_ADDR_FROM_ENTRY` as written: the mask is the number 40. */
  function AddrOfAsWritten(entry: Word): Word {
    (entry >> 12) & 40
  }

  /** The link entry written for every table the mapper creates. */
  function Link(table: Word): Word {
    TableEntry(table, PRESENT | WRITE_BIT)
  }

  // ---------------------------------------------------------------------
  // The repaired codec
  // ---------------------------------------------------------------------

  lemma FlagsOutsideAddress(flags: PageFlags)
    ensures HardwareFlags(flags) & ADDRESS_MASK == 0
    ensures (HardwareFlags(flags) >> 12) & 40 == 0
  {
  }

  lemma MaskedOr(h: Word, a: Word)
    requires h & ADDRESS_MASK == 0
    ensures (h | a) & ADDRESS_MASK == a & ADDRESS_MASK
  {
  }

  /** The addresses an entry has room for: whole pages below 2^52. */
  lemma AlignedExactly(a: Word)
    ensures Aligned(a) <==> a & 0xFFF == 0 && a >> 52 == 0
  {
  }

  /** Reading drops the twelve low and the twelve high bits, and keeps the forty between. */
  lemma AddressField(entry: Word)
    ensures AddrOf(entry) == ((entry >> 12) & 0xFF_FFFF_FFFF) << 12
    ensures PagePart(entry) == ((entry >> 12) & 0xFF_FFFF_FFFF) << 12
  {
  }

  lemma AddressMask(a: Word)
    ensures a & ADDRESS_MASK == a <==> a & !ADDRESS_MASK == 0
  {
  }

  /** The address comes back exactly for the addresses an entry has room for. */
  lemma AddressRoundTrip(a: Word, flags: PageFlags)
    ensures AddrOf(TableEntry(a, flags)) == a <==> a & 0xFFF == 0 && a >> 52 == 0
  {
    hide HardwareFlags;
    AlignedExactly(a);
    FlagsOutsideAddress(flags);
    MaskedOr(HardwareFlags(flags), a);
    AddressMask(a);
  }

  lemma PagePartOfPage(a: Word)
    ensures PageAddr(a) ==> PagePart(a) == a
  {
    AddressMask(a);
  }

  lemma WholePageStays(a: Word)
    ensures a & 0xFFF == 0 && a >> 52 == 0 ==> PagePart(a) == a
  {
    AlignedExactly(a);
    AddressMask(a);
  }

  /** Whatever address goes in, its page part comes back; for a page that is the address. */
  lemma EntryAddress(a: Word, flags: PageFlags)
    ensures AddrOf(TableEntry(a, flags)) == PagePart(a)
    ensures PageAddr(a) ==> PagePart(a) == a
  {
    FlagsOutsideAddress(flags);
    MaskedOr(HardwareFlags(flags), a);
    PagePartOfPage(a);
    hide HardwareFlags, PageAddr;
  }

  /** The five hardware flags can be read back from an entry with an aligned address, and
      each reports the generic flag it stands for (execution is the inverted one). */
  lemma FlagsRoundTrip(a: Word, flags: PageFlags)
    requires Aligned(a)
    ensures TableEntry(a, flags) & !ADDRESS_MASK == HardwareFlags(flags)
    ensures HasHw(TableEntry(a, flags), HW_PRESENT) <==> Has(flags, PRESENT)
    ensures HasHw(TableEntry(a, flags), HW_USER) <==> Has(flags, USER_MODE_ACCESSIBLE)
    ensures HasHw(TableEntry(a, flags), HW_WRITE_ENABLE) <==> Has(flags, WRITE_BIT)
    ensures HasHw(TableEntry(a, flags), HW_HUGE_PAGE) <==> Has(flags, IS_HUGE_PAGE)
    ensures HasHw(TableEntry(a, flags), HW_EXECUTE_DISABLE) <==> !Has(flags, EXECUTE_BIT)
  {
  }

  /** The bits of an entry for a whole page, one by one: present, writable, user-accessible, huge and
      not executable, as the generic flags 1, 8, 2, 0x8000 and 4 ask; no other bit outside the
      address is set. */
  lemma EntryBits(a: Word, flags: PageFlags)
    requires a & 0xFFF == 0 && a >> 52 == 0
    ensures var e := TableEntry(a, flags);
      && (e & 0x1 != 0 <==> flags & 0x1 != 0)
      && (e & 0x2 != 0 <==> flags & 0x8 != 0)
      && (e & 0x4 != 0 <==> flags & 0x2 != 0)
      && (e & 0x80 != 0 <==> flags & 0x8000 != 0)
      && (e >> 63 != 0 <==> flags & 0x4 == 0)
      && e & 0x7FF0_0000_0000_0F78 == 0
  {
  }

  /** What the table walks rely on. */
  lemma EntryFacts(a: Word, flags: PageFlags)
    requires PageAddr(a)
    ensures AddrOf(TableEntry(a, flags)) == a
    ensures TableEntry(a, flags) != 0
    ensures AddrOf(0) == 0
  {
  }

  lemma LinkFacts(a: Word)
    requires PageAddr(a)
    ensures AddrOf(Link(a)) == a && Link(a) != 0
  {
  }

  // ---------------------------------------------------------------------
  // The codec as written
  // ---------------------------------------------------------------------

  lemma MaskedShift(h: Word, a: Word)
    requires (h >> 12) & 40 == 0
    ensures ((h | (a << 12)) >> 12) & 40 == a & 40
  {
  }

  lemma LowMask(a: Word)
    ensures a & 40 == a <==> a & !40 == 0
  {
  }

  /** As written an address survives the trip through an entry only if it has no bits
      outside 3 and 5. */
  lemma AsWrittenRoundTripExactly(a: Word, flags: PageFlags)
    ensures AddrOfAsWritten(TableEntryAsWritten(a, flags)) == a & 40
    ensures AddrOfAsWritten(TableEntryAsWritten(a, flags)) == a <==> a & !40 == 0
  {
    hide HardwareFlags;
    FlagsOutsideAddress(flags);
    MaskedShift(HardwareFlags(flags), a);
    LowMask(a);
  }

  /** And no entry at all reads back as a physical page: the walk as written only ever follows
      the pointers 8, 32 and 40. */
  lemma AsWrittenReadsNoPage(entry: Word)
    ensures AddrOfAsWritten(entry) in {0, 8, 32, 40}
    ensures !PageAddr(AddrOfAsWritten(entry))
  {
  }

  lemma AsWrittenCounterexample()
    ensures PageAddr(0x5000)
    ensures AddrOfAsWritten(TableEntryAsWritten(0x5000, PRESENT | WRITE_BIT)) == 0
  {
  }
}
