/**
 A small kernel file and a firmware with which `readKernel` runs both loops to the end.
 */
module SampleKernel {
  import opened MemEssentials
  import opened Firmware
  import opened ElfFormat
  import opened ElfLoading
  import opened KernelLoading
  import opened FileReading
  import opened KernelReader

  const DISK_SIZE: nat := 121

  /** An executable for x86-64 with one program header, at offset 64, and no section headers.  The
      program header asks for the first 8 bytes of the file and 8 zeros. */
  function DiskByte(i: nat): Byte {
    match i
    case 0 => 0x7F case 1 => 0x45 case 2 => 0x4C case 3 => 0x46
    case 4 => 2 case 6 => 1
    case 16 => 2 case 18 => 0x3E case 20 => 1
    case 32 => 64
    case 54 => 56 case 56 => 1 case 58 => 64
    case 64 => 1 case 68 => 5
    case 96 => 8 case 104 => 16
    case _ => 0
  }

  function Disk(): (d: seq<Byte>)
    ensures |d| == DISK_SIZE && forall i :: 0 <= i < DISK_SIZE ==> d[i] == DiskByte(i)
  {
    seq(DISK_SIZE, i requires 0 <= i < DISK_SIZE => DiskByte(i))
  }

  const THE_SEGMENT: Segment := Segment(PT_LOAD, 5, 0, 0, 8, 16)

  lemma {:induction false} LittleZero(f: seq<Byte>, a: nat, k: nat)
    requires a + k <= |f| && forall i :: a <= i < a + k ==> f[i] == 0
    ensures Little(f, a, k) == 0
    decreases k
  {
    if k > 0 {
      LittleZero(f, a + 1, k - 1);
    }
  }

  /** A field of the sample below 256: one byte, then zeros. */
  lemma SmallField(start: nat, end: nat, a: nat, k: nat)
    requires start + a + k <= end <= DISK_SIZE && 0 < k
    requires forall i :: start + a < i < start + a + k ==> DiskByte(i) == 0
    ensures Little(Disk()[start..end], a, k) == DiskByte(start + a) as nat
  {
    hide DiskByte, Disk;
    LittleZero(Disk()[start..end], a + 1, k - 1);
  }

  lemma HeaderFields()
    ensures var f := Disk()[0..64];
      && Little(f, 4, 1) == 2 && Little(f, 6, 1) == 1 && Little(f, 16, 2) == 2 && Little(f, 18, 2) == 0x3E
      && Little(f, 20, 4) == 1 && f[0..4] == [0x7F, 0x45, 0x4C, 0x46]
  {
    hide Little, Disk;
    SmallField(0, 64, 4, 1);
    SmallField(0, 64, 6, 1);
    SmallField(0, 64, 16, 2);
    SmallField(0, 64, 18, 2);
    SmallField(0, 64, 20, 4);
  }

  lemma TableFields()
    ensures var f := Disk()[0..64];
      && Little(f, 32, 8) == 64 && Little(f, 54, 2) == 56 && Little(f, 56, 2) == 1
      && Little(f, 40, 8) == 0 && Little(f, 58, 2) == 64 && Little(f, 60, 2) == 0
  {
    hide Little, Disk;
    SmallField(0, 64, 32, 8);
    SmallField(0, 64, 40, 8);
    SmallField(0, 64, 54, 2);
    SmallField(0, 64, 56, 2);
    SmallField(0, 64, 58, 2);
    SmallField(0, 64, 60, 2);
  }

  lemma HeaderParses()
    ensures var h := ParseElfHeader(Disk()[0..64]);
      && CheckHeader(h) == NoError
      && h.progHeaderOffset == 64 && h.progHeaderEntrySize == 56 && h.progHeaderNum == 1
      && h.sectionHeaderOffset == 0 && h.sectionHeaderEntrySize == 64 && h.sectionHeaderNum == 0
  {
    hide Little, Disk, DiskByte;
    HeaderFields();
    TableFields();
  }

  lemma SegmentParses()
    ensures ParseSegment(Disk()[64..120]) == THE_SEGMENT
  {
    hide Little, Disk;
    SmallField(64, 120, 0, 4);
    SmallField(64, 120, 4, 4);
    SmallField(64, 120, 8, 8);
    SmallField(64, 120, 16, 8);
    SmallField(64, 120, 32, 8);
    SmallField(64, 120, 40, 8);
  }

  lemma SegmentInOrder()
    ensures SizesPass(THE_SEGMENT, DISK_SIZE) && WellFormed(THE_SEGMENT) && BufferPages(16) == 1
  {
    PagesCover(16);
  }

  lemma VisitsTheSegment(m: seq<Byte>, h: ElfHeader)
    requires PAGE_SIZE + DISK_SIZE <= |m| && m[PAGE_SIZE..PAGE_SIZE + DISK_SIZE] == Disk()
    requires h == ParseElfHeader(Disk()[0..64])
    ensures VisitedSegments(m, PAGE_SIZE, DISK_SIZE, h) == [THE_SEGMENT]
    ensures VisitedSections(m, PAGE_SIZE, DISK_SIZE, h) == []
  {
    hide ParseElfHeader, ParseSegment, CheckHeader, Disk;
    HeaderParses();
    SegmentParses();
    SubWindow(m, PAGE_SIZE, DISK_SIZE, 64, PROG_HEADER_SIZE);
  }

  lemma SampleTables(h: ElfHeader)
    requires h == ParseElfHeader(Disk()[0..64])
    ensures TablesUsable(PAGE_SIZE, DISK_SIZE, h)
  {
    hide ParseElfHeader, CheckHeader, Disk;
    HeaderParses();
  }

  /** What both loops do when the file is in the page at 0x1000 and the page at 0x2000 is free. */
  lemma LoopsComplete(m: seq<Byte>, h: ElfHeader, live: seq<Region>)
    requires 3 * PAGE_SIZE <= |m| && live == [Region(PAGE_SIZE, 1)]
    requires m[PAGE_SIZE..PAGE_SIZE + DISK_SIZE] == Disk() && h == ParseElfHeader(Disk()[0..64])
    ensures RunBoth(m, PAGE_SIZE, DISK_SIZE, h, Supply([At(2 * PAGE_SIZE)], live)).outcome == Completed
  {
    hide ParseElfHeader, BufferPages, SizesPass, WellFormed, Disk, VisitedSegments, VisitedSections, TablesUsable;
    SampleTables(h);
    VisitsTheSegment(m, h);
    SegmentInOrder();
    var u := Supply([At(2 * PAGE_SIZE)], live);
    assert u.Grants(1, |m|) by {
      assert Apart(Region(2 * PAGE_SIZE, 1), live[0]);
    }
    assert GrantsSegments([THE_SEGMENT], u, |m|) by {
      assert [THE_SEGMENT][1..] == [];
    }
    assert AllLoadable(m[PAGE_SIZE..PAGE_SIZE + DISK_SIZE], [THE_SEGMENT]);
    KernelCompletesExactly(m, PAGE_SIZE, DISK_SIZE, h, u);
  }

  lemma SampleReads(size: nat)
    requires 3 * PAGE_SIZE <= size
    ensures ExitOf(Query([true], [InfoAnswer(Success, 256, DISK_SIZE)]), Supply([At(PAGE_SIZE), At(2 * PAGE_SIZE)], []),
                   size, ReadAnswer(Success, DISK_SIZE), DISK_SIZE) == FileRead(PAGE_SIZE, DISK_SIZE)
    ensures Supply([At(PAGE_SIZE), At(2 * PAGE_SIZE)], []).After(1, size)
         == Supply([At(2 * PAGE_SIZE)], [Region(PAGE_SIZE, 1)])
    ensures NeededPages(Query([true], [InfoAnswer(Success, 256, DISK_SIZE)]).info.fileSize) == 1
  {
    assert NeededPages(DISK_SIZE) == 1;
  }

  /** The whole of it: the file is read, and its segment is loaded. */
  method SampleRun(ram: array<Byte>) returns (outcome: KernelOutcome)
    requires 3 * PAGE_SIZE <= ram.Length <= ADDRESS_SPACE
    modifies ram
    ensures outcome == Loaded(Completed)
    ensures exists d :: SegmentInPlace(ram[..], Disk(), THE_SEGMENT, d)
  {
    hide ParseElfHeader, Disk, RunBoth, VisitedSegments, VisitedSections, SegmentInPlace, SectionInPlace, Intact, Query,
      ExitOf;
    var pool := new Pool([true]);
    var alloc := new PageAllocator(ram, [At(PAGE_SIZE), At(2 * PAGE_SIZE)]);
    var file := new FileHandle([InfoAnswer(Success, 256, DISK_SIZE)], ReadAnswer(Success, DISK_SIZE), Disk());
    SampleReads(ram.Length);
    ghost var m1, region, size, images, pd, sd;
    outcome, m1, region, size, images, pd, sd := ReadKernel(pool, alloc, file, 0);
    assert size == DISK_SIZE && region == Region(PAGE_SIZE, 1);
    assert m1[PAGE_SIZE..PAGE_SIZE + DISK_SIZE] == Disk();
    ghost var h := ParseElfHeader(m1[PAGE_SIZE..PAGE_SIZE + ELF_HEADER_SIZE]);
    assert h == ParseElfHeader(Disk()[0..64]) by {
      SubWindow(m1, PAGE_SIZE, DISK_SIZE, 0, 64);
    }
    LoopsComplete(m1, h, [Region(PAGE_SIZE, 1)]);
    VisitsTheSegment(m1, h);
    assert SegmentInPlace(ram[..], Disk()[..DISK_SIZE], [THE_SEGMENT][0], pd[0]);
    assert Disk()[..DISK_SIZE] == Disk();
  }
}
