/**
 `readKernel` from the open file handle on: read the file, then run the two load loops.
 */
module KernelReader {
  import opened MemEssentials
  import opened Firmware
  import opened ElfFormat
  import opened ElfLoading
  import opened KernelLoading
  import opened FileReading

  /** `NotRead` covers every exit of `readFile` without bytes; `ShortFile` a file that ends inside
      its own header, which the source parses all the same. */
  datatype KernelOutcome = NotRead | ShortFile | Loaded(outcome: Outcome)

  /** What is known when both loops have completed: `m1` is the memory right after the read. */
  ghost predicate KernelInPlace(m: seq<Byte>, m1: seq<Byte>, region: Region, size: nat, disk: seq<Byte>,
                                pd: seq<nat>, sd: seq<nat>)
  {
    && size <= |disk| && ELF_HEADER_SIZE <= size && region.start + size <= |m1| && region.End() <= |m1|
    && Holds(m1, Image(region, disk[..size]))
    && Holds(m, FileImage(m1, region))
    && var h := ParseElfHeader(m1[region.start..region.start + ELF_HEADER_SIZE]);
       var ps := VisitedSegments(m1, region.start, size, h);
       var ss := VisitedSections(m1, region.start, size, h);
       && |pd| == |ps| && |sd| == |ss|
       && (forall i :: 0 <= i < |ps| && ps[i].kind == PT_LOAD ==> SegmentInPlace(m, disk[..size], ps[i], pd[i]))
       && (forall i :: 0 <= i < |ss| && SectionSelected(ss[i]) ==> SectionInPlace(m, ss[i], sd[i]))
  }

  /** The outcome, from the exit of `readFile`, the memory after it and the allocator's supply. */
  function KernelEnd(exit: Exit, m1: seq<Byte>, u: Supply): KernelOutcome {
    if !exit.FileRead? || exit.size == 0 then NotRead
    else if exit.size < ELF_HEADER_SIZE || exit.buffer + ELF_HEADER_SIZE > |m1| then ShortFile
    else
      var h := ParseElfHeader(m1[exit.buffer..exit.buffer + ELF_HEADER_SIZE]);
      Loaded(RunBoth(m1, exit.buffer, exit.size, h, u).outcome)
  }

  lemma KernelLoadable(m: seq<Byte>, file: nat, fileSize: nat, h: ElfHeader, u: Supply)
    requires file + fileSize <= |m| && fileSize <= MAX_FILE_SIZE
    requires RunBoth(m, file, fileSize, h, u).outcome == Completed
    ensures AllLoadable(m[file..file + fileSize], VisitedSegments(m, file, fileSize, h))
  {
    hide *;
    KernelCompletesExactly(m, file, fileSize, h, u);
  }

  lemma KernelIsInPlace(loader: ElfLoader, m: seq<Byte>, m1: seq<Byte>, live: seq<Region>, live0: seq<Region>,
                        region: Region, size: nat, disk: seq<Byte>, h: ElfHeader,
                        images: seq<Image>, pd: seq<nat>, sd: seq<nat>)
    requires loader.elfFile == region.start && loader.elfFileSize == size
    requires ELF_HEADER_SIZE <= size <= |disk| && Holds(m1, Image(region, disk[..size])) && h == loader.Header(m1)
    requires Intact(m, live, live0, FileImage(m1, region), images)
    requires var fb := FileBytes(m1, loader);
      var ps := VisitedSegments(m1, region.start, size, h);
      var ss := VisitedSections(m1, region.start, size, h);
      && |pd| == |ps| && |sd| == |ss|
      && images == SegmentImages(fb, ps, pd) + SectionImages(ss, sd)
      && AllLoadable(fb, ps)
    ensures KernelInPlace(m, m1, region, size, disk, pd, sd)
  {
    hide SegmentImages, SectionImages, VisitedSegments, VisitedSections, ParseElfHeader, SegmentInPlace, SectionInPlace,
      AllLoadable, SectionSelected;
    var fb := FileBytes(m1, loader);
    assert fb == disk[..size];
    EverythingLoaded(m, fb, VisitedSegments(m1, region.start, size, h), pd,
                     VisitedSections(m1, region.start, size, h), sd);
  }

  /** For every file and every firmware.  `m1` is the memory right after the read. */
  method ReadKernel(pool: Pool, alloc: PageAllocator, file: FileHandle, uninitialised: nat)
    returns (outcome: KernelOutcome, ghost m1: seq<Byte>, ghost region: Region, ghost size: nat,
             ghost images: seq<Image>, ghost pd: seq<nat>, ghost sd: seq<nat>)
    requires pool.Valid() && alloc.Valid() && uninitialised !in pool.live
    modifies pool, alloc, file, alloc.ram
    ensures alloc.Valid() && pool.live == old(pool.live)
    ensures
      var q := Query(old(pool.answers), old(file.infoAnswers));
      var exit := ExitOf(q, old(alloc.Now()), alloc.ram.Length, file.readAnswer, |file.disk|);
      && outcome == KernelEnd(exit, m1, old(alloc.Now()).After(NeededPages(q.info.fileSize), alloc.ram.Length))
      && (exit.FileRead? ==> exit.size == size <= |file.disk|)
      && (exit.FileRead? ==> region == Region(exit.buffer, NeededPages(q.info.fileSize)))
      && (exit.FileRead? ==> |m1| == alloc.ram.Length && Holds(m1, Image(region, file.disk[..size])))
    ensures outcome != Loaded(WritesAstray) ==>
      Confined(old(alloc.ram[..]), alloc.ram[..], old(alloc.live), alloc.live)
    ensures outcome == Loaded(Completed) ==>
      && KernelInPlace(alloc.ram[..], m1, region, size, file.disk, pd, sd)
      && Intact(alloc.ram[..], alloc.live, old(alloc.live) + [region], FileImage(m1, region), images)
  {
    hide Intact, SegmentImages, SectionImages, VisitedSegments, VisitedSections, ParseElfHeader, RunBoth, Query, ExitOf,
      AllLoadable, SegmentInPlace, SectionInPlace, OnlyInside, ApartFromAll, SectionSelected, SegmentAt,
      KernelInPlace, FileImage, LegalAnswer, NeededPages, AllApart, AllWithin;
    size, images, pd, sd := 0, [], [], [];
    var exit, error;
    exit, error, region := ReadFile(pool, alloc, file, uninitialised);
    m1 := alloc.ram[..];
    if !exit.FileRead? {
      return NotRead, m1, region, size, images, pd, sd;
    }
    size := exit.size;
    if exit.size == 0 {
      return NotRead, m1, region, size, images, pd, sd;
    }
    if exit.size < ELF_HEADER_SIZE {
      return ShortFile, m1, region, size, images, pd, sd;
    }
    var loader := new ElfLoader(alloc.ram, exit.buffer, exit.size);
    ghost var h := loader.Header(m1);
    ghost var u := alloc.Now();
    var loops;
    loops, images, pd, sd := LoadKernel(loader, alloc, region, m1, h);
    outcome := Loaded(loops);
    if loops == Completed {
      KernelLoadable(m1, region.start, size, h, u);
      KernelIsInPlace(loader, alloc.ram[..], m1, alloc.live, old(alloc.live) + [region], region, size, file.disk, h,
                      images, pd, sd);
    }
  }
}
