/**
 The parts of the ELF64 file format that the loader reads: little-endian fields at the
 offsets of the C structures, and the meaning of a loadable segment (chapter 5 of the
 System V gABI).
 */
module ElfFormat {
  import opened MemEssentials

  const ELF_HEADER_SIZE: nat := 64
  const PROG_HEADER_SIZE: nat := 56
  const SECTION_HEADER_SIZE: nat := 64

  const PT_LOAD: nat := 1
  const SHT_NOBITS: nat := 8
  const SHF_ALLOC: nat := 2

  /** The little-endian number in `k` bytes at `a`. */
  function Little(f: seq<Byte>, a: nat, k: nat): nat
    requires a + k <= |f|
    decreases k
  {
    if k == 0 then 0 else f[a] as nat + 256 * Little(f, a + 1, k - 1)
  }

  function Power256(k: nat): nat {
    if k == 0 then 1 else 256 * Power256(k - 1)
  }

  lemma {:induction false} LittleBound(f: seq<Byte>, a: nat, k: nat)
    requires a + k <= |f|
    ensures Little(f, a, k) < Power256(k)
    decreases k
  {
    if k > 0 {
      LittleBound(f, a + 1, k - 1);
      assert f[a] as nat < 256;
    }
  }

  datatype ElfHeader = ElfHeader(
    magic: seq<Byte>, fileClass: nat, identVersion: nat, kind: nat, machine: nat, version: nat,
    progHeaderOffset: nat, sectionHeaderOffset: nat,
    progHeaderEntrySize: nat, progHeaderNum: nat,
    sectionHeaderEntrySize: nat, sectionHeaderNum: nat)

  datatype Segment = Segment(kind: nat, flags: nat, offset: nat, virtAddress: nat, sizeInFile: nat, sizeInMemory: nat)

  datatype Section = Section(kind: nat, flags: nat, virtAddress: nat, offset: nat, size: nat)

  function ParseElfHeader(f: seq<Byte>): ElfHeader
    requires |f| == ELF_HEADER_SIZE
  {
    ElfHeader(f[0..4], Little(f, 4, 1), Little(f, 6, 1), Little(f, 16, 2), Little(f, 18, 2), Little(f, 20, 4),
              Little(f, 32, 8), Little(f, 40, 8),
              Little(f, 54, 2), Little(f, 56, 2),
              Little(f, 58, 2), Little(f, 60, 2))
  }

  function ParseSegment(f: seq<Byte>): Segment
    requires |f| == PROG_HEADER_SIZE
  {
    Segment(Little(f, 0, 4), Little(f, 4, 4), Little(f, 8, 8), Little(f, 16, 8), Little(f, 32, 8), Little(f, 40, 8))
  }

  function ParseSection(f: seq<Byte>): Section
    requires |f| == SECTION_HEADER_SIZE
  {
    Section(Little(f, 4, 4), Little(f, 8, 8), Little(f, 16, 8), Little(f, 24, 8), Little(f, 32, 8))
  }

  // ---------------------------------------------------------------------
  // The layout, against an encoder
  // ---------------------------------------------------------------------

  function ByteOf(n: nat): (b: Byte)
    requires n < 256
    ensures b as nat == n
  {
    if n == 0 then 0 else ByteOf(n - 1) + 1
  }

  /** A number in `k` bytes, low byte first. */
  function Bytes(x: nat, k: nat): (b: seq<Byte>)
    ensures |b| == k
    decreases k
  {
    if k == 0 then [] else [ByteOf(x % 256)] + Bytes(x / 256, k - 1)
  }

  lemma BytesSplit(x: nat, k: nat)
    requires k > 0
    ensures Bytes(x, k)[0] as nat == x % 256 && Bytes(x, k)[1..] == Bytes(x / 256, k - 1)
  {
    hide ByteOf;
  }

  lemma WindowSplit(f: seq<Byte>, a: nat, k: nat)
    requires 0 < k && a + k <= |f|
    ensures f[a..a + k][0] == f[a] && f[a..a + k][1..] == f[a + 1..a + 1 + (k - 1)]
  {
  }

  lemma SameByte(a: Byte, b: Byte)
    requires a as nat == b as nat
    ensures a == b
  {
  }

  lemma BytesJoin(x: nat, k: nat, b: seq<Byte>)
    requires 0 < k == |b|
    ensures b == Bytes(x, k) <==> b[0] as nat == x % 256 && b[1..] == Bytes(x / 256, k - 1)
  {
    BytesSplit(x, k);
    hide Bytes;
    assert b == [b[0]] + b[1..] && Bytes(x, k) == [Bytes(x, k)[0]] + Bytes(x, k)[1..];
    if b[0] as nat == Bytes(x, k)[0] as nat {
      SameByte(b[0], Bytes(x, k)[0]);
    }
  }

  lemma SplitNumber(x: nat, low: nat, rest: nat)
    requires low < 256
    ensures x == low + 256 * rest <==> low == x % 256 && rest == x / 256
  {
  }

  lemma NoBytes(x: nat, f: seq<Byte>, a: nat)
    requires a <= |f|
    ensures f[a..a] == Bytes(x, 0)
  {
  }

  lemma ByteBelow(b: Byte)
    ensures b as nat < 256
  {
  }

  /** The bytes at `a` encode `x` exactly when `x` is what is read there. */
  lemma {:induction false} LittleExactly(f: seq<Byte>, a: nat, k: nat, x: nat)
    requires a + k <= |f| && x < Power256(k)
    ensures Little(f, a, k) == x <==> f[a..a + k] == Bytes(x, k)
    decreases k
  {
    hide Bytes;
    if k > 0 {
      BytesJoin(x, k, f[a..a + k]);
      WindowSplit(f, a, k);
      ByteBelow(f[a]);
      SplitNumber(x, f[a] as nat, Little(f, a + 1, k - 1));
      LittleExactly(f, a + 1, k - 1, x / 256);
    } else {
      NoBytes(x, f, a);
    }
  }

  /** The field of `k` bytes at `a` holds `x`. */
  ghost predicate FieldIs(f: seq<Byte>, a: nat, k: nat, x: nat) {
    a + k <= |f| && f[a..a + k] == Bytes(x, k) && x < Power256(k)
  }

  lemma FieldReads(f: seq<Byte>, a: nat, k: nat, x: nat)
    requires FieldIs(f, a, k, x)
    ensures a + k <= |f| && Little(f, a, k) == x
  {
    LittleExactly(f, a, k, x);
  }

  /** Program header: type, flags, file offset, virtual address, (physical address,) size in the
      file, size in memory. */
  lemma SegmentLayout(f: seq<Byte>, h: Segment)
    requires |f| == 56
    requires FieldIs(f, 0, 4, h.kind) && FieldIs(f, 4, 4, h.flags) && FieldIs(f, 8, 8, h.offset)
    requires FieldIs(f, 16, 8, h.virtAddress) && FieldIs(f, 32, 8, h.sizeInFile) && FieldIs(f, 40, 8, h.sizeInMemory)
    ensures ParseSegment(f) == h
  {
    hide Little, FieldIs;
    FieldReads(f, 0, 4, h.kind);
    FieldReads(f, 4, 4, h.flags);
    FieldReads(f, 8, 8, h.offset);
    FieldReads(f, 16, 8, h.virtAddress);
    FieldReads(f, 32, 8, h.sizeInFile);
    FieldReads(f, 40, 8, h.sizeInMemory);
  }

  /** Section header: (name,) type, flags, virtual address, file offset, size. */
  lemma SectionLayout(f: seq<Byte>, h: Section)
    requires |f| == 64
    requires FieldIs(f, 4, 4, h.kind) && FieldIs(f, 8, 8, h.flags) && FieldIs(f, 16, 8, h.virtAddress)
    requires FieldIs(f, 24, 8, h.offset) && FieldIs(f, 32, 8, h.size)
    ensures ParseSection(f) == h
  {
    hide Little, FieldIs;
    FieldReads(f, 4, 4, h.kind);
    FieldReads(f, 8, 8, h.flags);
    FieldReads(f, 16, 8, h.virtAddress);
    FieldReads(f, 24, 8, h.offset);
    FieldReads(f, 32, 8, h.size);
  }

  /** File header: identification, type, machine, version, (entry point,) the offsets of the two
      tables, (flags, size,) entry size and count of the program headers and of the sections. */
  lemma HeaderLayout(f: seq<Byte>, h: ElfHeader)
    requires |f| == 64 && f[0..4] == h.magic
    requires FieldIs(f, 4, 1, h.fileClass) && FieldIs(f, 6, 1, h.identVersion)
    requires FieldIs(f, 16, 2, h.kind) && FieldIs(f, 18, 2, h.machine) && FieldIs(f, 20, 4, h.version)
    requires FieldIs(f, 32, 8, h.progHeaderOffset) && FieldIs(f, 40, 8, h.sectionHeaderOffset)
    requires FieldIs(f, 54, 2, h.progHeaderEntrySize) && FieldIs(f, 56, 2, h.progHeaderNum)
    requires FieldIs(f, 58, 2, h.sectionHeaderEntrySize) && FieldIs(f, 60, 2, h.sectionHeaderNum)
    ensures ParseElfHeader(f) == h
  {
    hide Little, FieldIs;
    FieldReads(f, 4, 1, h.fileClass);
    FieldReads(f, 6, 1, h.identVersion);
    FieldReads(f, 16, 2, h.kind);
    FieldReads(f, 18, 2, h.machine);
    FieldReads(f, 20, 4, h.version);
    FieldReads(f, 32, 8, h.progHeaderOffset);
    FieldReads(f, 40, 8, h.sectionHeaderOffset);
    FieldReads(f, 54, 2, h.progHeaderEntrySize);
    FieldReads(f, 56, 2, h.progHeaderNum);
    FieldReads(f, 58, 2, h.sectionHeaderEntrySize);
    FieldReads(f, 60, 2, h.sectionHeaderNum);
  }

  // ---------------------------------------------------------------------
  // Bounds and contents
  // ---------------------------------------------------------------------

  predicate Is64(x: nat) {
    x < ADDRESS_SPACE
  }

  // Parsed offsets and sizes are 64 bits wide.

  lemma FieldWidth(f: seq<Byte>, a: nat)
    requires a + 8 <= |f|
    ensures Is64(Little(f, a, 8))
  {
    hide Little;
    assert Power256(8) == ADDRESS_SPACE;
    LittleBound(f, a, 8);
  }

  lemma SegmentBounds(f: seq<Byte>)
    requires |f| == PROG_HEADER_SIZE
    ensures var h := ParseSegment(f); Is64(h.offset) && Is64(h.sizeInFile) && Is64(h.sizeInMemory)
  {
    hide Little, Is64;
    FieldWidth(f, 8);
    FieldWidth(f, 32);
    FieldWidth(f, 40);
  }

  lemma SectionBounds(f: seq<Byte>)
    requires |f| == SECTION_HEADER_SIZE
    ensures var h := ParseSection(f); Is64(h.offset) && Is64(h.size)
  {
    hide Little, Is64;
    FieldWidth(f, 24);
    FieldWidth(f, 32);
  }

  lemma HeaderBounds(f: seq<Byte>)
    requires |f| == ELF_HEADER_SIZE
    ensures var h := ParseElfHeader(f); Is64(h.progHeaderOffset) && Is64(h.sectionHeaderOffset)
  {
    hide Little, Is64;
    FieldWidth(f, 32);
    FieldWidth(f, 40);
  }

  function Zeros(n: int): seq<Byte> {
    seq(if n < 0 then 0 else n, _ => 0 as Byte)
  }

  /** What the pages of a segment must begin with: its bytes in the file, then zeros up to its
      size in memory. */
  function SegmentBytes(file: seq<Byte>, h: Segment): seq<Byte>
    requires h.offset + h.sizeInFile <= |file|
  {
    file[h.offset..h.offset + h.sizeInFile] + Zeros(h.sizeInMemory - h.sizeInFile)
  }
}
