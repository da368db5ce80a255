/**
 The ELF loader: header checks, the two header tables, and the placement of loadable segments
 and NOBITS sections in freshly allocated pages.
 */
module ElfLoading {
  import opened CIntegers
  import opened MemEssentials
  import opened Firmware
  import opened ElfFormat

  /** The error codes of the loader, and one more: `Astray` is no error code, it stands for what
      happens when a load that passed the tests reads outside the file or writes outside the
      pages it was given. */
  datatype ElfError =
    | NoError
    | ElfHeaderCorrupted
    | ElfTypeNotSupported
    | ElfSectionNotLoadable
    | ElfSizeExceeded
    | ElfGenericError
    | Astray

  const MAX_FILE_SIZE: nat := 256 * 1024 * 1024

  function CheckHeader(h: ElfHeader): ElfError {
    if h.magic != [0x7F, 0x45, 0x4C, 0x46] then ElfHeaderCorrupted
    else if h.fileClass != 2 || h.identVersion != 1 || h.version != 1 || h.machine != 0x3E || h.kind != 2
    then ElfTypeNotSupported
    else NoError
  }

  /** What the header check accepts, byte by byte: magic number, 64-bit class, version 1 twice, an
      executable (2) for x86-64 (0x3E); and when it says that the header is corrupted. */
  lemma HeaderCheckExactly(f: seq<Byte>)
    requires |f| == 64
    ensures CheckHeader(ParseElfHeader(f)) == ElfHeaderCorrupted <==> f[0..4] != [0x7F, 0x45, 0x4C, 0x46]
    ensures CheckHeader(ParseElfHeader(f)) == NoError <==>
      && f[0..4] == [0x7F, 0x45, 0x4C, 0x46] && f[4..5] == Bytes(2, 1) && f[6..7] == Bytes(1, 1)
      && f[16..18] == Bytes(2, 2) && f[18..20] == Bytes(0x3E, 2) && f[20..24] == Bytes(1, 4)
    ensures CheckHeader(ParseElfHeader(f)) in {NoError, ElfHeaderCorrupted, ElfTypeNotSupported}
  {
    hide Little, Bytes;
    assert Power256(1) == 256 && Power256(2) == 0x1_0000 && Power256(4) == 0x1_0000_0000;
    LittleExactly(f, 4, 1, 2);
    LittleExactly(f, 6, 1, 1);
    LittleExactly(f, 16, 2, 2);
    LittleExactly(f, 18, 2, 0x3E);
    LittleExactly(f, 20, 4, 1);
  }

  // ---------------------------------------------------------------------
  // Header tables
  // ---------------------------------------------------------------------

  /** A header table as the caller gets it: a pointer (0 for none), a count and an error. */
  datatype Table = Table(pointer: nat, count: nat, error: ElfError)

  /** The size test, in 64-bit arithmetic. */
  predicate TableExceeds(offset: nat, num: nat, entrySize: nat, fileSize: nat) {
    (offset + num * entrySize) % ADDRESS_SPACE >= fileSize
  }

  /** The count is set before the size test, so it stays set when the test fails. */
  function FindTable(check: ElfError, entrySizeOk: bool, offset: nat, num: nat, entrySize: nat,
                     file: nat, fileSize: nat, countBefore: nat): Table {
    if check != NoError then Table(0, countBefore, check)
    else if !entrySizeOk then Table(0, countBefore, ElfGenericError)
    else if TableExceeds(offset, num, entrySize, fileSize) then Table(0, num, ElfSizeExceeded)
    else Table((file + offset) % ADDRESS_SPACE, num, NoError)
  }

  function ProgTable(h: ElfHeader, file: nat, fileSize: nat, countBefore: nat): Table {
    FindTable(CheckHeader(h), h.progHeaderEntrySize == PROG_HEADER_SIZE,
              h.progHeaderOffset, h.progHeaderNum, PROG_HEADER_SIZE, file, fileSize, countBefore)
  }

  function SectionTable(h: ElfHeader, file: nat, fileSize: nat, countBefore: nat): Table {
    FindTable(CheckHeader(h), h.sectionHeaderEntrySize == SECTION_HEADER_SIZE,
              h.sectionHeaderOffset, h.sectionHeaderNum, SECTION_HEADER_SIZE, file, fileSize, countBefore)
  }

  predicate TableWraps(offset: nat, num: nat, entrySize: nat) {
    offset + num * entrySize >= ADDRESS_SPACE
  }

  lemma WrapOnce(x: nat)
    requires x < 2 * ADDRESS_SPACE
    ensures x % ADDRESS_SPACE == if x < ADDRESS_SPACE then x else x - ADDRESS_SPACE
  {
  }

  /** The size test without 64-bit arithmetic: a table is rejected if it ends behind the file or with
      it, but a sum that overflows is judged by what is left of it. */
  lemma TableExceedsExactly(offset: nat, num: nat, entrySize: nat, fileSize: nat)
    requires Is64(offset) && num < 0x1_0000 && entrySize <= 64
    ensures var end := offset + num * entrySize;
      TableExceeds(offset, num, entrySize, fileSize) <==>
        if end < 0x1_0000_0000_0000_0000 then fileSize <= end else fileSize <= end - 0x1_0000_0000_0000_0000
  {
    assert num * entrySize <= num * 64;
    WrapOnce(offset + num * entrySize);
  }

  predicate TableInFile(t: Table, entrySize: nat, file: nat, fileSize: nat) {
    file <= t.pointer && t.pointer + t.count * entrySize <= file + fileSize
  }

  /** Where the pointer of a table that is handed out leads. */
  lemma TablePlace(check: ElfError, entrySizeOk: bool, offset: nat, num: nat, entrySize: nat, file: nat, fileSize: nat)
    requires 0 < file && file + fileSize <= ADDRESS_SPACE && Is64(offset)
    ensures var t := FindTable(check, entrySizeOk, offset, num, entrySize, file, fileSize, 0);
      && (t.error == NoError ==> t.pointer == (file + offset) % ADDRESS_SPACE)
      && (t.error == NoError ==> (TableInFile(t, entrySize, file, fileSize) <==> !TableWraps(offset, num, entrySize)))
      && (t.error == NoError && !TableWraps(offset, num, entrySize) ==> t.pointer == file + offset)
      && (t.error == NoError && !TableWraps(offset, num, entrySize) ==> offset + num * entrySize < fileSize)
      && (t.error == NoError && t.pointer == 0 ==> TableWraps(offset, num, entrySize) && num > 0)
  {
    var size: nat := num * entrySize;
    WrapOnce(file + offset);
    if offset + size < ADDRESS_SPACE {
      WrapOnce(offset + size);
    }
  }

  /** The entries of a header table that is handed out lie in the file exactly when the end of
      the table did not wrap. */
  lemma TableInFileExactly(f: seq<Byte>, file: nat, fileSize: nat)
    requires |f| == ELF_HEADER_SIZE && 0 < file && file + fileSize <= ADDRESS_SPACE
    ensures var h := ParseElfHeader(f);
      var t := ProgTable(h, file, fileSize, 0);
      t.error == NoError ==> (TableInFile(t, PROG_HEADER_SIZE, file, fileSize)
                              <==> !TableWraps(h.progHeaderOffset, h.progHeaderNum, PROG_HEADER_SIZE))
    ensures var h := ParseElfHeader(f);
      var t := SectionTable(h, file, fileSize, 0);
      t.error == NoError ==> (TableInFile(t, SECTION_HEADER_SIZE, file, fileSize)
                              <==> !TableWraps(h.sectionHeaderOffset, h.sectionHeaderNum, SECTION_HEADER_SIZE))
  {
    hide ParseElfHeader, CheckHeader, TableWraps, TableInFile, Is64, FindTable;
    var h := ParseElfHeader(f);
    HeaderBounds(f);
    TablePlace(CheckHeader(h), h.progHeaderEntrySize == PROG_HEADER_SIZE,
               h.progHeaderOffset, h.progHeaderNum, PROG_HEADER_SIZE, file, fileSize);
    TablePlace(CheckHeader(h), h.sectionHeaderEntrySize == SECTION_HEADER_SIZE,
               h.sectionHeaderOffset, h.sectionHeaderNum, SECTION_HEADER_SIZE, file, fileSize);
  }

  /** A null pointer with a positive count: the loops of `readKernel` dereference it. */
  predicate NullWithCount(t: Table) {
    t.pointer == 0 && t.count > 0
  }

  /** When that happens, for a table with its checks: only the size test fails, or the table is
      found at the very end of the address space. */
  lemma NullTableWhen(check: ElfError, entrySizeOk: bool, offset: nat, num: nat, entrySize: nat,
                      file: nat, fileSize: nat)
    requires 0 < file < ADDRESS_SPACE && Is64(offset)
    ensures NullWithCount(FindTable(check, entrySizeOk, offset, num, entrySize, file, fileSize, 0)) <==>
      && check == NoError && entrySizeOk && num > 0
      && (TableExceeds(offset, num, entrySize, fileSize) || file + offset == ADDRESS_SPACE)
  {
    hide TableExceeds;
    WrapOnce(file + offset);
  }

  lemma NullTableExactly(f: seq<Byte>, file: nat, fileSize: nat)
    requires |f| == ELF_HEADER_SIZE && 0 < file < ADDRESS_SPACE
    ensures var h := ParseElfHeader(f);
      NullWithCount(ProgTable(h, file, fileSize, 0)) <==>
        && CheckHeader(h) == NoError && h.progHeaderEntrySize == PROG_HEADER_SIZE && h.progHeaderNum > 0
        && (TableExceeds(h.progHeaderOffset, h.progHeaderNum, PROG_HEADER_SIZE, fileSize)
            || file + h.progHeaderOffset == ADDRESS_SPACE)
    ensures var h := ParseElfHeader(f);
      NullWithCount(SectionTable(h, file, fileSize, 0)) <==>
        && CheckHeader(h) == NoError && h.sectionHeaderEntrySize == SECTION_HEADER_SIZE && h.sectionHeaderNum > 0
        && (TableExceeds(h.sectionHeaderOffset, h.sectionHeaderNum, SECTION_HEADER_SIZE, fileSize)
            || file + h.sectionHeaderOffset == ADDRESS_SPACE)
  {
    hide ParseElfHeader, CheckHeader, TableExceeds, NullWithCount, Is64, FindTable;
    var h := ParseElfHeader(f);
    HeaderBounds(f);
    NullTableWhen(CheckHeader(h), h.progHeaderEntrySize == PROG_HEADER_SIZE,
                  h.progHeaderOffset, h.progHeaderNum, PROG_HEADER_SIZE, file, fileSize);
    NullTableWhen(CheckHeader(h), h.sectionHeaderEntrySize == SECTION_HEADER_SIZE,
                  h.sectionHeaderOffset, h.sectionHeaderNum, SECTION_HEADER_SIZE, file, fileSize);
  }

  /** Both do happen, in a file of 4096 bytes at address 0x1000: a table whose end wraps is handed
      out before the file, and a table behind the end of the file comes as null with its count. */
  lemma TableCounterexamples()
    ensures var t := FindTable(NoError, true, ADDRESS_SPACE - 56, 1, PROG_HEADER_SIZE, 0x1000, 4096, 0);
      t == Table(0x1000 - 56, 1, NoError) && !TableInFile(t, PROG_HEADER_SIZE, 0x1000, 4096)
    ensures NullWithCount(FindTable(NoError, true, 5000, 1, PROG_HEADER_SIZE, 0x1000, 4096, 0))
  {
    WrapOnce(0x1000 + (ADDRESS_SPACE - 56));
    WrapOnce(ADDRESS_SPACE - 56 + 1 * PROG_HEADER_SIZE);
  }

  // ---------------------------------------------------------------------
  // Buffer sizes
  // ---------------------------------------------------------------------

  /** C division by 4096, towards zero, and the conversion of the quotient to 64 bits. */
  function PagesOf(x: int): nat {
    (if x >= 0 then x / PAGE_SIZE else -((-x) / PAGE_SIZE)) % ADDRESS_SPACE
  }

  /** The quotient of a negative number is rounded towards zero, and then taken modulo 2^64. */
  lemma PagesOfNegative(x: int)
    requires -0x8000_0000 <= x < 0
    ensures var q := (0x1_0000_0000_0000_0000 - PagesOf(x)) % 0x1_0000_0000_0000_0000;
      q * 4096 <= -x < q * 4096 + 4096
  {
    var q := (-x) / PAGE_SIZE;
    assert q == 0 || PagesOf(x) == ADDRESS_SPACE - q;
  }

  /** The pages the allocation callback asks for: the size is cast to int and rounded up. */
  function BufferPages(size: nat): nat {
    PagesOf(ToInt32(ToInt32(size) + PAGE_SIZE - 1))
  }

  lemma RoundUp(x: int)
    requires 0 <= x < 0x8000_0000
    ensures x - PAGE_SIZE < PagesOf(x) * PAGE_SIZE <= x
  {
    assert x / PAGE_SIZE < ADDRESS_SPACE;
  }

  /** Up to 256 MiB the cast changes nothing and the pages cover the size, with less than a page
      to spare. */
  lemma PagesCover(size: nat)
    requires size <= MAX_FILE_SIZE
    ensures ToInt32(size) == size
    ensures size <= BufferPages(size) * 4096 < size + 4096
  {
    hide PagesOf, ToInt32;
    FitsInt32(size);
    FitsInt32(size + PAGE_SIZE - 1);
    RoundUp(size + PAGE_SIZE - 1);
  }

  /** A wrapped size, just below 2^64, gives no pages or more than there can be. */
  lemma WrappedSizePages(size: nat)
    requires ADDRESS_SPACE - MAX_FILE_SIZE <= size < ADDRESS_SPACE
    ensures BufferPages(size) == 0 || BufferPages(size) * PAGE_SIZE > ADDRESS_SPACE
  {
    var back := ADDRESS_SPACE - size;
    assert size % 0x1_0000_0000 == 0x1_0000_0000 - back;
    assert ToInt32(size) == -back;
  }

  // ---------------------------------------------------------------------
  // Bounds tests
  // ---------------------------------------------------------------------

  /** The bounds test of `loadExecutableProgram`, in 64-bit arithmetic. */
  predicate SizesPass(h: Segment, fileSize: nat) {
    && h.offset < fileSize
    && (h.offset + h.sizeInFile) % ADDRESS_SPACE < fileSize
    && (h.offset + h.sizeInMemory) % ADDRESS_SPACE < fileSize
  }

  /** A sum that passes the test: it ends inside the file, or it does not fit 64 bits, since a wrapped
      sum is less than the offset. */
  predicate EndsInside(offset: nat, size: nat, fileSize: nat) {
    offset + size < fileSize || 0x1_0000_0000_0000_0000 <= offset + size
  }

  /** The test without 64-bit arithmetic.  Both the file part and the size in memory must end inside
      the file, and a segment that ends with the file is rejected. */
  lemma SizesPassExactly(f: seq<Byte>, fileSize: nat)
    requires |f| == 56
    ensures var h := ParseSegment(f);
      SizesPass(h, fileSize) <==>
        && h.offset < fileSize
        && EndsInside(h.offset, h.sizeInFile, fileSize) && EndsInside(h.offset, h.sizeInMemory, fileSize)
    ensures var h := ParseSegment(f);
      h.offset + h.sizeInFile == fileSize < 0x1_0000_0000_0000_0000 ==> !SizesPass(h, fileSize)
  {
    hide ParseSegment;
    var h := ParseSegment(f);
    SegmentBounds(f);
    WrapOnce(h.offset + h.sizeInFile);
    WrapOnce(h.offset + h.sizeInMemory);
  }

  /** A program header is for loading exactly if its first four bytes say so. */
  lemma LoadableExactly(f: seq<Byte>)
    requires |f| == 56
    ensures ParseSegment(f).kind == PT_LOAD <==> f[0..4] == Bytes(1, 4)
  {
    hide Little, Bytes;
    assert Power256(4) == 0x1_0000_0000;
    LittleExactly(f, 0, 4, 1);
  }

  /** What the test leaves to the file: no sum wraps, and the file part is no larger than the
      pages for the memory size (the gABI asks for no larger than the memory size). */
  predicate WellFormed(h: Segment) {
    && h.offset + h.sizeInFile < ADDRESS_SPACE
    && h.offset + h.sizeInMemory < ADDRESS_SPACE
    && h.sizeInFile <= BufferPages(h.sizeInMemory) * PAGE_SIZE
  }

  /** All reads stay in the file and all writes in pages that can exist. */
  predicate LoadFits(h: Segment, fileSize: nat) {
    var room := BufferPages(h.sizeInMemory) * PAGE_SIZE;
    h.offset + h.sizeInFile <= fileSize && h.sizeInFile <= room && h.sizeInMemory <= room <= ADDRESS_SPACE
  }

  /** For a segment that passes the test, loading stays within the file and the allocated pages
      exactly when the segment is well formed. */
  lemma LoadFitsExactly(f: seq<Byte>, fileSize: nat)
    requires |f| == PROG_HEADER_SIZE && fileSize <= MAX_FILE_SIZE && SizesPass(ParseSegment(f), fileSize)
    ensures LoadFits(ParseSegment(f), fileSize) <==> WellFormed(ParseSegment(f))
  {
    hide BufferPages, ParseSegment;
    var h := ParseSegment(f);
    SegmentBounds(f);
    WrapOnce(h.offset + h.sizeInFile);
    WrapOnce(h.offset + h.sizeInMemory);
    if h.offset + h.sizeInMemory < ADDRESS_SPACE {
      PagesCover(h.sizeInMemory);
    } else {
      WrappedSizePages(h.sizeInMemory);
    }
  }

  lemma WrappedByFive()
    ensures BufferPages(ADDRESS_SPACE - 5) == 0
  {
    assert ToInt32(ADDRESS_SPACE - 5) == -5;
    assert ToInt32(4090) == 4090 && PagesOf(4090) == 0;
  }

  /** Segments that wrap pass the test: the conditions above are needed. */
  lemma WrappedSegmentCounterexample()
    ensures var h := Segment(PT_LOAD, 5, 10, 0, 4, ADDRESS_SPACE - 5);
      SizesPass(h, 4096) && !WellFormed(h) && !LoadFits(h, 4096) && BufferPages(h.sizeInMemory) == 0
  {
    WrappedByFive();
    WrapOnce(10 + (ADDRESS_SPACE - 5));
  }

  predicate SectionSelected(h: Section) {
    h.kind == SHT_NOBITS && h.size != 0 && (h.flags / SHF_ALLOC) % 2 != 0
  }

  lemma HalfOf(low: nat, rest: nat)
    ensures (low + 256 * rest) / 2 == low / 2 + 2 * (64 * rest)
  {
  }

  lemma EvenPart(low: nat, rest: nat)
    ensures ((low + 256 * rest) / 2) % 2 != 0 <==> low % 4 >= 2
  {
    HalfOf(low, rest);
    var half := low / 2;
    assert low == 2 * half + low % 2;
    assert (half + 2 * (64 * rest)) % 2 == half % 2;
  }

  lemma FirstByte(f: seq<Byte>, a: nat, k: nat)
    requires 0 < k && a + k <= |f|
    ensures Little(f, a, k) == f[a] as nat + 256 * Little(f, a + 1, k - 1)
  {
  }

  /** A section is selected exactly if its type is 8, its size is not zero, and bit 1 of its flags
      is set. */
  lemma SelectedExactly(f: seq<Byte>)
    requires |f| == 64
    ensures SectionSelected(ParseSection(f)) <==>
      f[4..8] == Bytes(8, 4) && f[32..40] != Bytes(0, 8) && f[8] as nat % 4 >= 2
  {
    hide Little, Bytes;
    assert Power256(4) == 0x1_0000_0000 && Power256(8) == 0x1_0000_0000_0000_0000;
    LittleExactly(f, 4, 4, 8);
    LittleExactly(f, 32, 8, 0);
    EvenPart(f[8] as nat, Little(f, 9, 7));
    FirstByte(f, 8, 8);
  }

  predicate SectionPasses(h: Section, fileSize: nat) {
    h.offset < fileSize && (h.offset + h.size) % ADDRESS_SPACE < fileSize
  }

  lemma SectionPassesExactly(f: seq<Byte>, fileSize: nat)
    requires |f| == 64
    ensures var h := ParseSection(f);
      SectionPasses(h, fileSize) <==> h.offset < fileSize && EndsInside(h.offset, h.size, fileSize)
  {
    hide ParseSection;
    var h := ParseSection(f);
    SectionBounds(f);
    WrapOnce(h.offset + h.size);
  }

  predicate SectionUnwrapped(h: Section) {
    h.offset + h.size < ADDRESS_SPACE
  }

  /** The zeros stay in pages that can exist. */
  predicate SectionFits(h: Section) {
    h.size <= BufferPages(h.size) * PAGE_SIZE <= ADDRESS_SPACE
  }

  lemma SectionFitsExactly(f: seq<Byte>, fileSize: nat)
    requires |f| == SECTION_HEADER_SIZE && fileSize <= MAX_FILE_SIZE && SectionPasses(ParseSection(f), fileSize)
    ensures SectionFits(ParseSection(f)) <==> SectionUnwrapped(ParseSection(f))
  {
    hide BufferPages, ParseSection;
    var h := ParseSection(f);
    SectionBounds(f);
    WrapOnce(h.offset + h.size);
    if h.offset + h.size < ADDRESS_SPACE {
      PagesCover(h.size);
    } else {
      WrappedSizePages(h.size);
    }
  }

  lemma WrappedSectionCounterexample()
    ensures var h := Section(SHT_NOBITS, SHF_ALLOC, 0, 10, ADDRESS_SPACE - 5);
      SectionSelected(h) && SectionPasses(h, 4096) && !SectionFits(h) && BufferPages(h.size) == 0
  {
    WrappedByFive();
    WrapOnce(10 + (ADDRESS_SPACE - 5));
  }

  // ---------------------------------------------------------------------
  // How a load ends
  // ---------------------------------------------------------------------

  /** The pages are allocated before the sizes are tested, so a rejected segment keeps them. */
  function SegmentError(h: Segment, fileSize: nat, u: Supply, size: nat): ElfError {
    if h.kind != PT_LOAD then ElfSectionNotLoadable
    else if !u.Grants(BufferPages(h.sizeInMemory), size) then ElfGenericError
    else if !SizesPass(h, fileSize) then ElfSizeExceeded
    else if !WellFormed(h) then Astray
    else NoError
  }

  function AfterSegment(h: Segment, u: Supply, size: nat): Supply {
    if h.kind == PT_LOAD then u.After(BufferPages(h.sizeInMemory), size) else u
  }

  /** Here the test comes first, and a rejected section gets no pages. */
  function SectionError(h: Section, fileSize: nat, u: Supply, size: nat): ElfError {
    if !SectionSelected(h) then ElfSectionNotLoadable
    else if !SectionPasses(h, fileSize) then ElfSizeExceeded
    else if !u.Grants(BufferPages(h.size), size) then ElfGenericError
    else if !SectionUnwrapped(h) then Astray
    else NoError
  }

  function AfterSection(h: Section, fileSize: nat, u: Supply, size: nat): Supply {
    if SectionSelected(h) && SectionPasses(h, fileSize) then u.After(BufferPages(h.size), size) else u
  }

  // ---------------------------------------------------------------------
  // Writing an image
  // ---------------------------------------------------------------------

  lemma MovedWritesRegion(m: seq<Byte>, r: Region, src: nat, n: nat)
    requires r.End() <= |m| && n <= r.pages * PAGE_SIZE && src + n <= |m|
    ensures var m' := Moved(m, r.start, src, n);
      OnlyInside(m, m', r) && m'[r.start..r.start + n] == m[src..src + n]
  {
    var m' := Moved(m, r.start, src, n);
    assert r.End() >= r.start + n;
  }

  /** A copy from outside the region to its start writes the copied bytes and nothing else. */
  lemma CopyWritesRegion(m: seq<Byte>, r: Region, src: nat, n: nat)
    requires r.End() <= |m| && n <= r.pages * PAGE_SIZE && src + n <= |m|
    requires src + n <= r.start || r.End() <= src
    ensures var m' := CopiedForward(m, r.start, src, n);
      OnlyInside(m, m', r) && m'[r.start..r.start + n] == m[src..src + n]
  {
    hide CopiedForward, Moved;
    CopyIsMoveExactly(m, r.start, src, n);
    MovedWritesRegion(m, r, src, n);
  }

  lemma FillWritesRegion(m: seq<Byte>, r: Region, at: nat, n: nat)
    requires r.End() <= |m| && at + n <= r.pages * PAGE_SIZE
    ensures var m' := Filled(m, r.start + at, n, 0);
      && OnlyInside(m, m', r)
      && m'[r.start..r.start + at] == m[r.start..r.start + at]
      && m'[r.start + at..r.start + at + n] == Zeros(n)
  {
  }

  lemma JoinWindows(m: seq<Byte>, a: nat, n: nat, k: nat)
    requires a + n + k <= |m|
    ensures m[a..a + (n + k)] == m[a..a + n] + m[a + n..a + n + k]
  {
  }

  /** Copy, then zero what the file does not cover: the two together. */
  lemma CopyThenFill(m: seq<Byte>, r: Region, src: nat, inFile: nat, inMemory: nat)
    requires r.End() <= |m| && inFile <= r.pages * PAGE_SIZE && inMemory <= r.pages * PAGE_SIZE
    requires src + inFile <= |m| && (src + inFile <= r.start || r.End() <= src)
    ensures var m1 := CopiedForward(m, r.start, src, inFile);
      var m2 := if inMemory > inFile then Filled(m1, r.start + inFile, inMemory - inFile, 0) else m1;
      OnlyInside(m, m2, r) && Holds(m2, Image(r, m[src..src + inFile] + Zeros(inMemory - inFile)))
  {
    hide CopiedForward, Filled;
    CopyWritesRegion(m, r, src, inFile);
    var m1 := CopiedForward(m, r.start, src, inFile);
    if inMemory > inFile {
      FillWritesRegion(m1, r, inFile, inMemory - inFile);
      JoinWindows(Filled(m1, r.start + inFile, inMemory - inFile, 0), r.start, inFile, inMemory - inFile);
    } else {
      assert Zeros(inMemory - inFile) == [];
    }
  }

  lemma ZeroByte()
    ensures LowByte(0) == 0
  {
  }

  lemma SegmentHasRoom(h: Segment, fileSize: nat)
    requires fileSize <= MAX_FILE_SIZE && SizesPass(h, fileSize) && WellFormed(h)
    ensures h.offset + h.sizeInFile < fileSize && h.offset + h.sizeInMemory < fileSize
    ensures h.sizeInMemory <= BufferPages(h.sizeInMemory) * PAGE_SIZE
    ensures h.sizeInFile <= BufferPages(h.sizeInMemory) * PAGE_SIZE
  {
    hide BufferPages;
    WrapOnce(h.offset + h.sizeInFile);
    WrapOnce(h.offset + h.sizeInMemory);
    PagesCover(h.sizeInMemory);
  }

  lemma SectionHasRoom(h: Section, fileSize: nat)
    requires fileSize <= MAX_FILE_SIZE && SectionPasses(h, fileSize) && h.offset + h.size < ADDRESS_SPACE
    ensures h.offset + h.size < fileSize && h.size <= BufferPages(h.size) * PAGE_SIZE
  {
    hide BufferPages;
    WrapOnce(h.offset + h.size);
    PagesCover(h.size);
  }

  function SegmentAt(m: seq<Byte>, p: nat): Segment
    requires p + PROG_HEADER_SIZE <= |m|
  {
    ParseSegment(m[p..p + PROG_HEADER_SIZE])
  }

  function SectionAt(m: seq<Byte>, p: nat): Section
    requires p + SECTION_HEADER_SIZE <= |m|
  {
    ParseSection(m[p..p + SECTION_HEADER_SIZE])
  }

  lemma ApartFromMember(r: Region, pages: Region, live: seq<Region>)
    requires pages in live && ApartFromAll(r, live)
    ensures Apart(r, pages)
    ensures pages.End() <= r.start || r.End() <= pages.start
  {
    var k :| 0 <= k < |live| && live[k] == pages;
    assert Apart(r, live[k]);
  }

  /** The callback and the two bounds-checked loads. */
  class ElfLoader {
    const ram: array<Byte>
    const elfFile: nat
    const elfFileSize: nat

    constructor (ram: array<Byte>, elfFile: nat, elfFileSize: nat)
      ensures this.ram == ram && this.elfFile == elfFile && this.elfFileSize == elfFileSize
    {
      this.ram := ram;
      this.elfFile := elfFile;
      this.elfFileSize := elfFileSize;
    }

    /** The file header, the whole file and its pages are where they should be. */
    ghost predicate Valid(alloc: PageAllocator, pages: Region)
      reads this, alloc
    {
      && alloc.Valid() && alloc.ram == ram && elfFileSize <= MAX_FILE_SIZE
      && pages in alloc.live && pages.start == elfFile && elfFileSize <= pages.pages * PAGE_SIZE
      && elfFile + ELF_HEADER_SIZE <= ram.Length
    }

    function Header(m: seq<Byte>): ElfHeader
      requires elfFile + ELF_HEADER_SIZE <= |m|
    {
      ParseElfHeader(m[elfFile..elfFile + ELF_HEADER_SIZE])
    }

    method CheckElf() returns (error: ElfError)
      requires elfFile + ELF_HEADER_SIZE <= ram.Length
      ensures error == CheckHeader(Header(ram[..]))
    {
      var header := ParseElfHeader(ram[elfFile..elfFile + ELF_HEADER_SIZE]);
      assert ram[..][elfFile..elfFile + ELF_HEADER_SIZE] == ram[elfFile..elfFile + ELF_HEADER_SIZE];
      if header.magic != [0x7F, 0x45, 0x4C, 0x46] {
        return ElfHeaderCorrupted;
      }
      if header.fileClass != 2 || header.identVersion != 1 || header.version != 1
         || header.machine != 0x3E || header.kind != 2 {
        return ElfTypeNotSupported;
      }
      return NoError;
    }

    method GetProgramHeaders(countBefore: nat) returns (pointer: nat, count: nat, error: ElfError)
      requires elfFile + ELF_HEADER_SIZE <= ram.Length
      ensures Table(pointer, count, error) == ProgTable(Header(ram[..]), elfFile, elfFileSize, countBefore)
    {
      hide ParseElfHeader, CheckHeader, TableExceeds;
      count := countBefore;
      error := CheckElf();
      if error != NoError {
        return 0, count, error;
      }
      var header := ParseElfHeader(ram[elfFile..elfFile + ELF_HEADER_SIZE]);
      assert ram[..][elfFile..elfFile + ELF_HEADER_SIZE] == ram[elfFile..elfFile + ELF_HEADER_SIZE];
      if header.progHeaderEntrySize != PROG_HEADER_SIZE {
        return 0, count, ElfGenericError;
      }
      count := header.progHeaderNum;
      if TableExceeds(header.progHeaderOffset, count, PROG_HEADER_SIZE, elfFileSize) {
        return 0, count, ElfSizeExceeded;
      }
      return (elfFile + header.progHeaderOffset) % ADDRESS_SPACE, count, NoError;
    }

    method GetSectionHeaders(countBefore: nat) returns (pointer: nat, count: nat, error: ElfError)
      requires elfFile + ELF_HEADER_SIZE <= ram.Length
      ensures Table(pointer, count, error) == SectionTable(Header(ram[..]), elfFile, elfFileSize, countBefore)
    {
      hide ParseElfHeader, CheckHeader, TableExceeds;
      count := countBefore;
      error := CheckElf();
      if error != NoError {
        return 0, count, error;
      }
      var header := ParseElfHeader(ram[elfFile..elfFile + ELF_HEADER_SIZE]);
      assert ram[..][elfFile..elfFile + ELF_HEADER_SIZE] == ram[elfFile..elfFile + ELF_HEADER_SIZE];
      if header.sectionHeaderEntrySize != SECTION_HEADER_SIZE {
        return 0, count, ElfGenericError;
      }
      count := header.sectionHeaderNum;
      if TableExceeds(header.sectionHeaderOffset, count, SECTION_HEADER_SIZE, elfFileSize) {
        return 0, count, ElfSizeExceeded;
      }
      return (elfFile + header.sectionHeaderOffset) % ADDRESS_SPACE, count, NoError;
    }

    /** The loader callback of the boot loader: pages for the given size, or null. */
    method AllocateBuffer(alloc: PageAllocator, size: nat) returns (dest: nat)
      requires alloc.Valid()
      modifies alloc
      ensures alloc.Valid() && alloc.Now() == old(alloc.Now()).After(BufferPages(size), alloc.ram.Length)
      ensures dest != 0 <==> old(alloc.Now()).Grants(BufferPages(size), alloc.ram.Length)
      ensures dest != 0 ==>
        && alloc.live == old(alloc.live) + [Region(dest, BufferPages(size))]
        && Region(dest, BufferPages(size)).End() <= alloc.ram.Length
        && ApartFromAll(Region(dest, BufferPages(size)), old(alloc.live))
      ensures dest == 0 ==> alloc.live == old(alloc.live)
    {
      hide BufferPages;
      var granted, start := alloc.AllocatePages(BufferPages(size));
      dest := if granted then start else 0;
    }

    /** The writes of `loadExecutableProgram`. */
    method PlaceSegment(ghost r: Region, dest: nat, src: nat, sizeInFile: nat, sizeInMemory: nat)
      requires r.start == dest && r.End() <= ram.Length <= ADDRESS_SPACE && src + sizeInFile <= ram.Length
      requires sizeInFile <= r.pages * PAGE_SIZE && sizeInMemory <= r.pages * PAGE_SIZE
      requires src + sizeInFile <= r.start || r.End() <= src
      modifies ram
      ensures OnlyInside(old(ram[..]), ram[..], r)
      ensures Holds(ram[..], Image(r, old(ram[..])[src..src + sizeInFile] + Zeros(sizeInMemory - sizeInFile)))
    {
      hide CopiedForward, Filled, OnlyInside, Holds;
      CopyThenFill(ram[..], r, src, sizeInFile, sizeInMemory);
      Memcpy(ram, dest, src, sizeInFile);
      if sizeInMemory > sizeInFile {
        ZeroByte();
        Memset(ram, dest + sizeInFile, 0, sizeInMemory - sizeInFile);
      }
    }

    /** On success the pages at `dest` begin with the bytes of the segment and no other memory
        has changed; on every error no memory has changed. */
    method LoadExecutableProgram(alloc: PageAllocator, progHeader: nat, ghost pages: Region)
      returns (error: ElfError, ghost dest: nat)
      requires Valid(alloc, pages) && progHeader + PROG_HEADER_SIZE <= ram.Length
      modifies ram, alloc
      ensures alloc.Valid()
      ensures var h := SegmentAt(old(ram[..]), progHeader);
        && error == SegmentError(h, elfFileSize, old(alloc.Now()), ram.Length)
        && alloc.Now() == AfterSegment(h, old(alloc.Now()), ram.Length)
      ensures error != NoError && error != Astray ==> ram[..] == old(ram[..])
      ensures error != Astray ==> Confined(old(ram[..]), ram[..], old(alloc.live), alloc.live)
      ensures error == ElfSectionNotLoadable ==> alloc.live == old(alloc.live)
      ensures error == NoError ==>
        var h := SegmentAt(old(ram[..]), progHeader);
        && SizesPass(h, elfFileSize) && h.offset + h.sizeInFile <= elfFileSize
        && var r := Region(dest, BufferPages(h.sizeInMemory));
        && alloc.live == old(alloc.live) + [r] && ApartFromAll(r, old(alloc.live))
        && OnlyInside(old(ram[..]), ram[..], r)
        && Holds(ram[..], Image(r, SegmentBytes(old(ram[..])[elfFile..elfFile + elfFileSize], h)))
    {
      hide BufferPages, OnlyInside, ParseSegment, SizesPass, WellFormed, Holds, ApartFromAll, LegalAnswer;
      dest := 0;
      ghost var m := ram[..];
      var h := ParseSegment(ram[progHeader..progHeader + PROG_HEADER_SIZE]);
      assert h == SegmentAt(m, progHeader) by {
        assert m[progHeader..progHeader + PROG_HEADER_SIZE] == ram[progHeader..progHeader + PROG_HEADER_SIZE];
      }
      if h.kind != PT_LOAD {
        return ElfSectionNotLoadable, 0;
      }
      var buffer := AllocateBuffer(alloc, h.sizeInMemory);
      if buffer == 0 {
        return ElfGenericError, 0;
      }
      if !SizesPass(h, elfFileSize) {
        return ElfSizeExceeded, 0;
      }
      if !WellFormed(h) {
        return Astray, 0;
      }
      ghost var r := Region(buffer, BufferPages(h.sizeInMemory));
      SegmentHasRoom(h, elfFileSize);
      ApartFromMember(r, pages, old(alloc.live));
      SubWindow(m, elfFile, elfFileSize, h.offset, h.sizeInFile);
      assert ram[..] == m;
      PlaceSegment(r, buffer, elfFile + h.offset, h.sizeInFile, h.sizeInMemory);
      ConfinedByRegion(m, ram[..], old(alloc.live), r);
      return NoError, buffer;
    }

    /** On success the pages at `dest` begin with zeros for the size of the section and no other
        memory has changed; on every error no memory has changed. */
    method LoadNoBitsSection(alloc: PageAllocator, sectionHeader: nat, ghost pages: Region)
      returns (error: ElfError, ghost dest: nat)
      requires Valid(alloc, pages) && sectionHeader + SECTION_HEADER_SIZE <= ram.Length
      modifies ram, alloc
      ensures alloc.Valid()
      ensures var h := SectionAt(old(ram[..]), sectionHeader);
        && error == SectionError(h, elfFileSize, old(alloc.Now()), ram.Length)
        && alloc.Now() == AfterSection(h, elfFileSize, old(alloc.Now()), ram.Length)
      ensures error != NoError && error != Astray ==> ram[..] == old(ram[..])
      ensures error != Astray ==> Confined(old(ram[..]), ram[..], old(alloc.live), alloc.live)
      ensures error == ElfSectionNotLoadable ==> alloc.live == old(alloc.live)
      ensures error == NoError ==>
        var h := SectionAt(old(ram[..]), sectionHeader);
        var r := Region(dest, BufferPages(h.size));
        && SectionPasses(h, elfFileSize)
        && alloc.live == old(alloc.live) + [r] && ApartFromAll(r, old(alloc.live))
        && OnlyInside(old(ram[..]), ram[..], r) && Holds(ram[..], Image(r, Zeros(h.size)))
    {
      hide BufferPages, ParseSection, SectionPasses, Filled, ApartFromAll, LegalAnswer;
      dest := 0;
      ghost var m := ram[..];
      var h := ParseSection(ram[sectionHeader..sectionHeader + SECTION_HEADER_SIZE]);
      assert h == SectionAt(m, sectionHeader) by {
        assert m[sectionHeader..sectionHeader + SECTION_HEADER_SIZE]
            == ram[sectionHeader..sectionHeader + SECTION_HEADER_SIZE];
      }
      if h.kind != SHT_NOBITS || h.size == 0 || (h.flags / SHF_ALLOC) % 2 == 0 {
        return ElfSectionNotLoadable, 0;
      }
      if !SectionPasses(h, elfFileSize) {
        return ElfSizeExceeded, 0;
      }
      var buffer := AllocateBuffer(alloc, h.size);
      if buffer == 0 {
        return ElfGenericError, 0;
      }
      if !SectionUnwrapped(h) {
        return Astray, 0;
      }
      ghost var r := Region(buffer, BufferPages(h.size));
      SectionHasRoom(h, elfFileSize);
      assert ram[..] == m;
      FillWritesRegion(m, r, 0, h.size);
      ZeroByte();
      Memset(ram, buffer, 0, h.size);
      ConfinedByRegion(m, ram[..], old(alloc.live), r);
      return NoError, buffer;
    }
  }
}
