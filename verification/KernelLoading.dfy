/**
 The two load loops of `readKernel`: every loadable segment, then every NOBITS section, each in
 its own fresh pages.
 */
module KernelLoading {
  import opened MemEssentials
  import opened Firmware
  import opened ElfFormat
  import opened ElfLoading

  /** How the loops end.  The last three have no code in the source: a null table that comes with
      a count is dereferenced, headers are read outside the file, or a load goes astray. */
  datatype Outcome = Completed | LoadFailed | NullTable | StrayTable | WritesAstray

  // The headers of a table.
  function Segments(m: seq<Byte>, table: nat, n: nat): seq<Segment>
    requires table + n * PROG_HEADER_SIZE <= |m|
  {
    seq(n, i requires 0 <= i < n => SegmentAt(m, table + i * PROG_HEADER_SIZE))
  }

  function Sections(m: seq<Byte>, table: nat, n: nat): seq<Section>
    requires table + n * SECTION_HEADER_SIZE <= |m|
  {
    seq(n, i requires 0 <= i < n => SectionAt(m, table + i * SECTION_HEADER_SIZE))
  }

  predicate Loadable(file: seq<Byte>, h: Segment) {
    h.kind == PT_LOAD && SizesPass(h, |file|) && WellFormed(h) && h.offset + h.sizeInFile <= |file|
  }

  ghost predicate AllLoadable(file: seq<Byte>, hs: seq<Segment>) {
    forall i :: 0 <= i < |hs| && hs[i].kind == PT_LOAD ==> Loadable(file, hs[i])
  }

  /** The images of the loadable segments among `hs`, in order, at the given places. */
  function SegmentImages(file: seq<Byte>, hs: seq<Segment>, dests: seq<nat>): seq<Image>
    requires |dests| == |hs|
  {
    if hs == [] then []
    else
      var n := |hs| - 1;
      SegmentImages(file, hs[..n], dests[..n]) +
      if Loadable(file, hs[n])
      then [Image(Region(dests[n], BufferPages(hs[n].sizeInMemory)), SegmentBytes(file, hs[n]))]
      else []
  }

  function SectionImages(hs: seq<Section>, dests: seq<nat>): seq<Image>
    requires |dests| == |hs|
  {
    if hs == [] then []
    else
      var n := |hs| - 1;
      SectionImages(hs[..n], dests[..n]) +
      if SectionSelected(hs[n])
      then [Image(Region(dests[n], BufferPages(hs[n].size)), Zeros(hs[n].size))]
      else []
  }

  function Regions(images: seq<Image>): seq<Region> {
    seq(|images|, i requires 0 <= i < |images| => images[i].region)
  }

  /** The pages of the file, with all they hold. */
  function FileImage(m: seq<Byte>, pages: Region): Image {
    Image(pages, if pages.End() <= |m| then m[pages.start..pages.End()] else [])
  }

  lemma RegionInside(alloc: PageAllocator, pages: Region)
    requires alloc.Valid() && pages in alloc.live
    ensures pages.End() <= alloc.ram.Length
  {
  }

  // ---------------------------------------------------------------------
  // How the loops end
  // ---------------------------------------------------------------------

  /** The first load that neither succeeds nor is skipped ends the loop. */
  function EndOf(error: ElfError): Outcome {
    match error
    case NoError | ElfSectionNotLoadable => Completed
    case Astray => WritesAstray
    case _ => LoadFailed
  }

  datatype Run = Run(outcome: Outcome, supply: Supply)

  function RunSegments(hs: seq<Segment>, fileSize: nat, u: Supply, size: nat): Run {
    if hs == [] then Run(Completed, u)
    else
      var end, v := EndOf(SegmentError(hs[0], fileSize, u, size)), AfterSegment(hs[0], u, size);
      if end != Completed then Run(end, v) else RunSegments(hs[1..], fileSize, v, size)
  }

  function RunSections(hs: seq<Section>, fileSize: nat, u: Supply, size: nat): Run {
    if hs == [] then Run(Completed, u)
    else
      var end, v := EndOf(SectionError(hs[0], fileSize, u, size)), AfterSection(hs[0], fileSize, u, size);
      if end != Completed then Run(end, v) else RunSections(hs[1..], fileSize, v, size)
  }

  /** The firmware grants every allocation the loop asks for. */
  predicate GrantsSegments(hs: seq<Segment>, u: Supply, size: nat) {
    hs != [] ==>
      && (hs[0].kind == PT_LOAD ==> u.Grants(BufferPages(hs[0].sizeInMemory), size))
      && GrantsSegments(hs[1..], AfterSegment(hs[0], u, size), size)
  }

  predicate GrantsSections(hs: seq<Section>, fileSize: nat, u: Supply, size: nat) {
    hs != [] ==>
      && (SectionSelected(hs[0]) ==> u.Grants(BufferPages(hs[0].size), size))
      && GrantsSections(hs[1..], fileSize, AfterSection(hs[0], fileSize, u, size), size)
  }

  ghost predicate AllSectionsPass(hs: seq<Section>, fileSize: nat) {
    forall i :: 0 <= i < |hs| && SectionSelected(hs[i]) ==> SectionPasses(hs[i], fileSize) && SectionUnwrapped(hs[i])
  }

  /** No segment that passes the tests makes them wrap: see `LoadFitsExactly`. */
  ghost predicate SaneSegments(hs: seq<Segment>, fileSize: nat) {
    forall i :: 0 <= i < |hs| && hs[i].kind == PT_LOAD && SizesPass(hs[i], fileSize) ==> WellFormed(hs[i])
  }

  ghost predicate SaneSections(hs: seq<Section>, fileSize: nat) {
    forall i :: 0 <= i < |hs| && SectionSelected(hs[i]) && SectionPasses(hs[i], fileSize) ==> SectionUnwrapped(hs[i])
  }

  /** The first loop completes exactly when every segment to load is in order and every
      allocation is granted; with a sane file it never goes astray. */
  lemma {:induction false} SegmentsCompleteExactly(file: seq<Byte>, hs: seq<Segment>, u: Supply, size: nat)
    requires |file| <= MAX_FILE_SIZE
    ensures RunSegments(hs, |file|, u, size).outcome == Completed
      <==> AllLoadable(file, hs) && GrantsSegments(hs, u, size)
    ensures RunSegments(hs, |file|, u, size).outcome == WritesAstray ==> !SaneSegments(hs, |file|)
    ensures RunSegments(hs, |file|, u, size).outcome in {Completed, LoadFailed, WritesAstray}
    decreases |hs|
  {
    hide BufferPages, SizesPass, WellFormed, LegalAnswer;
    if hs != [] {
      SegmentsCompleteExactly(file, hs[1..], AfterSegment(hs[0], u, size), size);
      assert hs == [hs[0]] + hs[1..];
      if SizesPass(hs[0], |file|) && WellFormed(hs[0]) {
        SegmentHasRoom(hs[0], |file|);
      }
      assert AllLoadable(file, hs)
        <==> (hs[0].kind == PT_LOAD ==> Loadable(file, hs[0])) && AllLoadable(file, hs[1..]);
    }
  }

  lemma {:induction false} SectionsCompleteExactly(hs: seq<Section>, fileSize: nat, u: Supply, size: nat)
    ensures RunSections(hs, fileSize, u, size).outcome == Completed
      <==> AllSectionsPass(hs, fileSize) && GrantsSections(hs, fileSize, u, size)
    ensures RunSections(hs, fileSize, u, size).outcome == WritesAstray ==> !SaneSections(hs, fileSize)
    ensures RunSections(hs, fileSize, u, size).outcome in {Completed, LoadFailed, WritesAstray}
    decreases |hs|
  {
    hide BufferPages, SectionPasses, SectionSelected, LegalAnswer;
    if hs != [] {
      SectionsCompleteExactly(hs[1..], fileSize, AfterSection(hs[0], fileSize, u, size), size);
      assert hs == [hs[0]] + hs[1..];
    }
  }

  /** The loads before the header complete; its own passes all tests and has pages, but it is not
      in order. */
  ghost predicate SegmentStrays(hs: seq<Segment>, i: nat, fileSize: nat, u: Supply, size: nat)
    requires i < |hs|
  {
    var before := RunSegments(hs[..i], fileSize, u, size);
    && before.outcome == Completed
    && hs[i].kind == PT_LOAD && before.supply.Grants(BufferPages(hs[i].sizeInMemory), size)
    && SizesPass(hs[i], fileSize) && !WellFormed(hs[i])
  }

  ghost predicate SectionStrays(hs: seq<Section>, i: nat, fileSize: nat, u: Supply, size: nat)
    requires i < |hs|
  {
    var before := RunSections(hs[..i], fileSize, u, size);
    && before.outcome == Completed
    && SectionSelected(hs[i]) && before.supply.Grants(BufferPages(hs[i].size), size)
    && SectionPasses(hs[i], fileSize) && !SectionUnwrapped(hs[i])
  }

  lemma SegmentPrefix(hs: seq<Segment>, i: nat, fileSize: nat, u: Supply, size: nat)
    requires 0 < i < |hs| && EndOf(SegmentError(hs[0], fileSize, u, size)) == Completed
    ensures SegmentStrays(hs, i, fileSize, u, size)
      <==> SegmentStrays(hs[1..], i - 1, fileSize, AfterSegment(hs[0], u, size), size)
  {
    hide SegmentError, AfterSegment, SizesPass, WellFormed, BufferPages;
    assert hs[..i][0] == hs[0] && hs[..i][1..] == hs[1..][..i - 1];
  }

  lemma SectionPrefix(hs: seq<Section>, i: nat, fileSize: nat, u: Supply, size: nat)
    requires 0 < i < |hs| && EndOf(SectionError(hs[0], fileSize, u, size)) == Completed
    ensures SectionStrays(hs, i, fileSize, u, size)
      <==> SectionStrays(hs[1..], i - 1, fileSize, AfterSection(hs[0], fileSize, u, size), size)
  {
    hide SectionError, AfterSection, SectionPasses, SectionSelected, BufferPages;
    assert hs[..i][0] == hs[0] && hs[..i][1..] == hs[1..][..i - 1];
  }

  lemma SegmentFirst(hs: seq<Segment>, i: nat, fileSize: nat, u: Supply, size: nat)
    requires i < |hs|
    ensures i == 0 ==> (SegmentStrays(hs, i, fileSize, u, size) <==> SegmentError(hs[0], fileSize, u, size) == Astray)
    ensures i > 0 && SegmentStrays(hs, i, fileSize, u, size) ==>
      EndOf(SegmentError(hs[0], fileSize, u, size)) == Completed
  {
    hide SizesPass, WellFormed, BufferPages, LegalAnswer;
    assert i > 0 ==> hs[..i][0] == hs[0];
  }

  lemma SectionFirst(hs: seq<Section>, i: nat, fileSize: nat, u: Supply, size: nat)
    requires i < |hs|
    ensures i == 0 ==> (SectionStrays(hs, i, fileSize, u, size) <==> SectionError(hs[0], fileSize, u, size) == Astray)
    ensures i > 0 && SectionStrays(hs, i, fileSize, u, size) ==>
      EndOf(SectionError(hs[0], fileSize, u, size)) == Completed
  {
    hide SectionPasses, SectionSelected, BufferPages, LegalAnswer;
    assert i > 0 ==> hs[..i][0] == hs[0];
  }

  /** The first loop goes astray exactly at a header that passes the tests without being in order,
      with all loads before it complete. */
  lemma {:induction false} SegmentsStrayExactly(hs: seq<Segment>, fileSize: nat, u: Supply, size: nat)
    ensures RunSegments(hs, fileSize, u, size).outcome == WritesAstray
      <==> exists i :: 0 <= i < |hs| && SegmentStrays(hs, i, fileSize, u, size)
    decreases |hs|
  {
    hide SegmentError, AfterSegment, SegmentStrays;
    if hs != [] {
      var v := AfterSegment(hs[0], u, size);
      SegmentsStrayExactly(hs[1..], fileSize, v, size);
      forall i | 0 <= i < |hs|
        ensures SegmentStrays(hs, i, fileSize, u, size) <==>
          if i == 0 then SegmentError(hs[0], fileSize, u, size) == Astray
          else EndOf(SegmentError(hs[0], fileSize, u, size)) == Completed
               && SegmentStrays(hs[1..], i - 1, fileSize, v, size)
      {
        SegmentFirst(hs, i, fileSize, u, size);
        if i > 0 && EndOf(SegmentError(hs[0], fileSize, u, size)) == Completed {
          SegmentPrefix(hs, i, fileSize, u, size);
        }
      }
      if EndOf(SegmentError(hs[0], fileSize, u, size)) == Completed {
        if k :| 0 <= k < |hs[1..]| && SegmentStrays(hs[1..], k, fileSize, v, size) {
          assert SegmentStrays(hs, k + 1, fileSize, u, size);
        }
      } else {
        assert SegmentStrays(hs, 0, fileSize, u, size) <==> SegmentError(hs[0], fileSize, u, size) == Astray;
      }
    }
  }

  lemma {:induction false} SectionsStrayExactly(hs: seq<Section>, fileSize: nat, u: Supply, size: nat)
    ensures RunSections(hs, fileSize, u, size).outcome == WritesAstray
      <==> exists i :: 0 <= i < |hs| && SectionStrays(hs, i, fileSize, u, size)
    decreases |hs|
  {
    hide SectionError, AfterSection, SectionStrays;
    if hs != [] {
      var v := AfterSection(hs[0], fileSize, u, size);
      SectionsStrayExactly(hs[1..], fileSize, v, size);
      forall i | 0 <= i < |hs|
        ensures SectionStrays(hs, i, fileSize, u, size) <==>
          if i == 0 then SectionError(hs[0], fileSize, u, size) == Astray
          else EndOf(SectionError(hs[0], fileSize, u, size)) == Completed
               && SectionStrays(hs[1..], i - 1, fileSize, v, size)
      {
        SectionFirst(hs, i, fileSize, u, size);
        if i > 0 && EndOf(SectionError(hs[0], fileSize, u, size)) == Completed {
          SectionPrefix(hs, i, fileSize, u, size);
        }
      }
      if EndOf(SectionError(hs[0], fileSize, u, size)) == Completed {
        if k :| 0 <= k < |hs[1..]| && SectionStrays(hs[1..], k, fileSize, v, size) {
          assert SectionStrays(hs, k + 1, fileSize, u, size);
        }
      } else {
        assert SectionStrays(hs, 0, fileSize, u, size) <==> SectionError(hs[0], fileSize, u, size) == Astray;
      }
    }
  }

  lemma RunSegmentsStep(hs: seq<Segment>, i: nat, fileSize: nat, u: Supply, size: nat)
    requires i < |hs|
    ensures var end, v := EndOf(SegmentError(hs[i], fileSize, u, size)), AfterSegment(hs[i], u, size);
      RunSegments(hs[i..], fileSize, u, size)
      == if end != Completed then Run(end, v) else RunSegments(hs[i + 1..], fileSize, v, size)
  {
    hide SegmentError, AfterSegment;
    assert hs[i..][0] == hs[i] && hs[i..][1..] == hs[i + 1..];
  }

  lemma RunSectionsStep(hs: seq<Section>, i: nat, fileSize: nat, u: Supply, size: nat)
    requires i < |hs|
    ensures var end, v := EndOf(SectionError(hs[i], fileSize, u, size)), AfterSection(hs[i], fileSize, u, size);
      RunSections(hs[i..], fileSize, u, size)
      == if end != Completed then Run(end, v) else RunSections(hs[i + 1..], fileSize, v, size)
  {
    hide SectionError, AfterSection;
    assert hs[i..][0] == hs[i] && hs[i..][1..] == hs[i + 1..];
  }

  // ---------------------------------------------------------------------
  // What the loops keep
  // ---------------------------------------------------------------------

  lemma SameWindow(m: seq<Byte>, m': seq<Byte>, a: nat, b: nat, p: nat, k: nat)
    requires a <= p && p + k <= b <= |m| && |m'| == |m| && m[a..b] == m'[a..b]
    ensures m[p..p + k] == m'[p..p + k]
  {
    SubWindow(m, a, b - a, p - a, k);
    SubWindow(m', a, b - a, p - a, k);
  }

  /** What the loops keep: all images placed so far, the file among them, are intact, and each
      sits in its own live pages. */
  ghost predicate Intact(m: seq<Byte>, live: seq<Region>, live0: seq<Region>, file: Image, images: seq<Image>) {
    && Holds(m, file) && file.region in live0
    && AllHold(m, images)
    && live == live0 + Regions(images)
  }

  lemma IntactGrows(m: seq<Byte>, m': seq<Byte>, live: seq<Region>, live0: seq<Region>, file: Image,
                    images: seq<Image>, im: Image)
    requires Intact(m, live, live0, file, images)
    requires OnlyInside(m, m', im.region) && ApartFromAll(im.region, live) && Holds(m', im)
    ensures Intact(m', live + [im.region], live0, file, images + [im])
  {
    hide Holds, OnlyInside;
    assert Regions(images + [im]) == Regions(images) + [im.region];
    ImagesSurvive(m, m', live, im.region, [file]);
    forall i | 0 <= i < |images|
      ensures images[i].region in live
    {
      assert Regions(images)[i] == images[i].region;
    }
    ImagesSurvive(m, m', live, im.region, images);
    assert AllHold(m', [file]) ==> Holds(m', [file][0]);
  }

  /** While the images are intact, the pages of the file are live and hold what they held. */
  lemma IntactFile(m: seq<Byte>, m': seq<Byte>, live: seq<Region>, live0: seq<Region>, pages: Region,
                   images: seq<Image>)
    requires Intact(m', live, live0, FileImage(m, pages), images) && pages.End() <= |m| == |m'|
    ensures pages in live && m[pages.start..pages.End()] == m'[pages.start..pages.End()]
  {
    hide AllHold, Regions;
  }

  /** The file and its header tables, as `readKernel` finds them. */
  ghost predicate HeadersInFile(loader: ElfLoader, pages: Region, table: nat, n: nat, entrySize: nat) {
    loader.elfFile <= table && table + n * entrySize <= pages.End()
  }

  function FileBytes(m: seq<Byte>, loader: ElfLoader): seq<Byte>
    requires loader.elfFile + loader.elfFileSize <= |m|
  {
    m[loader.elfFile..loader.elfFile + loader.elfFileSize]
  }

  lemma SegmentInFile(m: seq<Byte>, m': seq<Byte>, loader: ElfLoader, pages: Region, table: nat, n: nat, i: nat)
    requires |m'| == |m| && pages.End() <= |m| && pages.start == loader.elfFile
    requires loader.elfFileSize <= pages.pages * PAGE_SIZE
    requires m[pages.start..pages.End()] == m'[pages.start..pages.End()]
    requires HeadersInFile(loader, pages, table, n, PROG_HEADER_SIZE) && i < n
    ensures SegmentAt(m', table + i * PROG_HEADER_SIZE) == Segments(m, table, n)[i]
    ensures FileBytes(m', loader) == FileBytes(m, loader)
  {
    hide ParseSegment;
    SameWindow(m, m', pages.start, pages.End(), table + i * PROG_HEADER_SIZE, PROG_HEADER_SIZE);
    SameWindow(m, m', pages.start, pages.End(), loader.elfFile, loader.elfFileSize);
  }

  lemma SectionInFile(m: seq<Byte>, m': seq<Byte>, loader: ElfLoader, pages: Region, table: nat, n: nat, i: nat)
    requires |m'| == |m| && pages.End() <= |m| && pages.start == loader.elfFile
    requires m[pages.start..pages.End()] == m'[pages.start..pages.End()]
    requires HeadersInFile(loader, pages, table, n, SECTION_HEADER_SIZE) && i < n
    ensures SectionAt(m', table + i * SECTION_HEADER_SIZE) == Sections(m, table, n)[i]
  {
    hide ParseSection;
    SameWindow(m, m', pages.start, pages.End(), table + i * SECTION_HEADER_SIZE, SECTION_HEADER_SIZE);
  }

  lemma SegmentImagesStep(file: seq<Byte>, hs: seq<Segment>, dests: seq<nat>, i: nat, dest: nat)
    requires |dests| == i < |hs|
    ensures SegmentImages(file, hs[..i + 1], dests + [dest]) == SegmentImages(file, hs[..i], dests) +
      if Loadable(file, hs[i])
      then [Image(Region(dest, BufferPages(hs[i].sizeInMemory)), SegmentBytes(file, hs[i]))] else []
  {
    hide Loadable, BufferPages, SegmentBytes;
    assert hs[..i + 1][..i] == hs[..i] && (dests + [dest])[..i] == dests;
  }

  lemma SectionImagesStep(hs: seq<Section>, dests: seq<nat>, i: nat, dest: nat)
    requires |dests| == i < |hs|
    ensures SectionImages(hs[..i + 1], dests + [dest]) == SectionImages(hs[..i], dests) +
      if SectionSelected(hs[i]) then [Image(Region(dest, BufferPages(hs[i].size)), Zeros(hs[i].size))] else []
  {
    hide SectionSelected, BufferPages, Zeros;
    assert hs[..i + 1][..i] == hs[..i] && (dests + [dest])[..i] == dests;
  }

  /** A load that succeeds is the load of a segment in order. */
  lemma SegmentLoadable(file: seq<Byte>, h: Segment, u: Supply, size: nat)
    requires |file| <= MAX_FILE_SIZE
    ensures SegmentError(h, |file|, u, size) == NoError ==> Loadable(file, h)
    ensures SegmentError(h, |file|, u, size) == ElfSectionNotLoadable ==> !Loadable(file, h)
  {
    hide BufferPages, SizesPass, WellFormed, LegalAnswer;
    if SizesPass(h, |file|) && WellFormed(h) {
      SegmentHasRoom(h, |file|);
    }
  }

  lemma NoSegmentsLeft(hs: seq<Segment>, fileSize: nat, u: Supply, size: nat)
    ensures RunSegments(hs[|hs|..], fileSize, u, size) == Run(Completed, u) && hs[..|hs|] == hs
  {
  }

  lemma NoSegmentImages(fb: seq<Byte>, hs: seq<Segment>)
    ensures SegmentImages(fb, hs[..0], []) == [] && hs[0..] == hs
  {
  }

  lemma IntactAtStart(m: seq<Byte>, live: seq<Region>, pages: Region)
    requires Holds(m, FileImage(m, pages)) && pages in live
    ensures Intact(m, live, live, FileImage(m, pages), [])
  {
  }

  /** The first loop. */
  method LoadSegments(loader: ElfLoader, alloc: PageAllocator, table: nat, n: nat,
                      ghost pages: Region, ghost file: Image, ghost live0: seq<Region>)
    returns (outcome: Outcome, ghost images: seq<Image>, ghost dests: seq<nat>)
    requires loader.Valid(alloc, pages) && alloc.live == live0
    requires pages.End() <= loader.ram.Length && file == FileImage(loader.ram[..], pages)
    requires Holds(loader.ram[..], file) && HeadersInFile(loader, pages, table, n, PROG_HEADER_SIZE)
    modifies loader.ram, alloc
    ensures alloc.Valid()
    ensures var hs := old(Segments(loader.ram[..], table, n));
      Run(outcome, alloc.Now()) == RunSegments(hs, loader.elfFileSize, old(alloc.Now()), loader.ram.Length)
    ensures outcome != WritesAstray ==>
      Confined(old(loader.ram[..]), loader.ram[..], old(alloc.live), alloc.live)
    ensures outcome == Completed ==> loader.Valid(alloc, pages)
    ensures outcome == Completed ==> Intact(loader.ram[..], alloc.live, live0, file, images)
    ensures outcome == Completed ==>
      && |dests| == n
      && images == SegmentImages(old(FileBytes(loader.ram[..], loader)), old(Segments(loader.ram[..], table, n)), dests)
  {
    hide ParseSegment, BufferPages, OnlyInside, ApartFromAll, SizesPass, WellFormed, SegmentImages, SegmentBytes,
      Zeros, Regions, AllHold, RunSegments, SegmentError, AfterSegment, Confined, Intact, Holds, FileImage,
      AllApart, AllWithin;
    ghost var m := loader.ram[..];
    ghost var hs := Segments(m, table, n);
    ghost var fb := FileBytes(m, loader);
    images, dests := [], [];
    NoSegmentImages(fb, hs);
    IntactAtStart(m, live0, pages);
    NothingWritten(m, live0);
    var i := 0;
    while i < n
      invariant i <= n && loader.Valid(alloc, pages) && |loader.ram[..]| == |m|
      invariant RunSegments(hs, loader.elfFileSize, old(alloc.Now()), |m|)
             == RunSegments(hs[i..], loader.elfFileSize, alloc.Now(), |m|)
      invariant Confined(m, loader.ram[..], old(alloc.live), alloc.live)
      invariant Intact(loader.ram[..], alloc.live, live0, file, images)
      invariant |dests| == i && images == SegmentImages(fb, hs[..i], dests)
    {
      ghost var m1, live1 := loader.ram[..], alloc.live;
      IntactFile(m, m1, live1, live0, pages, images);
      SegmentInFile(m, m1, loader, pages, table, n, i);
      RunSegmentsStep(hs, i, loader.elfFileSize, alloc.Now(), |m|);
      SegmentLoadable(fb, hs[i], alloc.Now(), |m|);
      var error, dest := loader.LoadExecutableProgram(alloc, table + i * PROG_HEADER_SIZE, pages);
      if error != Astray {
        ConfinedChain(m, m1, loader.ram[..], old(alloc.live), live1, alloc.live);
      }
      if error != NoError && error != ElfSectionNotLoadable {
        return EndOf(error), images, dests;
      }
      SegmentImagesStep(fb, hs, dests, i, dest);
      if error == NoError {
        ghost var im := Image(Region(dest, BufferPages(hs[i].sizeInMemory)), SegmentBytes(fb, hs[i]));
        IntactGrows(m1, loader.ram[..], live1, live0, file, images, im);
        images := images + [im];
      }
      dests := dests + [dest];
      i := i + 1;
    }
    NoSegmentsLeft(hs, loader.elfFileSize, alloc.Now(), |m|);
    outcome := Completed;
  }

  lemma NoSectionsLeft(hs: seq<Section>, fileSize: nat, u: Supply, size: nat)
    ensures RunSections(hs[|hs|..], fileSize, u, size) == Run(Completed, u) && hs[..|hs|] == hs
  {
  }

  lemma NoSectionImages(hs: seq<Section>)
    ensures SectionImages(hs[..0], []) == [] && hs[0..] == hs
  {
  }

  lemma SectionSkipped(h: Section, fileSize: nat, u: Supply, size: nat)
    ensures SectionError(h, fileSize, u, size) == ElfSectionNotLoadable <==> !SectionSelected(h)
  {
  }

  /** The second loop, with the images of the first in place. */
  method LoadSections(loader: ElfLoader, alloc: PageAllocator, table: nat, n: nat,
                      ghost pages: Region, ghost file: Image, ghost live0: seq<Region>, ghost placed: seq<Image>)
    returns (outcome: Outcome, ghost images: seq<Image>, ghost dests: seq<nat>)
    requires loader.Valid(alloc, pages) && Intact(loader.ram[..], alloc.live, live0, file, placed)
    requires pages.End() <= loader.ram.Length && file == FileImage(loader.ram[..], pages)
    requires HeadersInFile(loader, pages, table, n, SECTION_HEADER_SIZE)
    modifies loader.ram, alloc
    ensures alloc.Valid()
    ensures var hs := old(Sections(loader.ram[..], table, n));
      Run(outcome, alloc.Now()) == RunSections(hs, loader.elfFileSize, old(alloc.Now()), loader.ram.Length)
    ensures outcome != WritesAstray ==>
      Confined(old(loader.ram[..]), loader.ram[..], old(alloc.live), alloc.live)
    ensures outcome == Completed ==> Intact(loader.ram[..], alloc.live, live0, file, placed + images)
    ensures outcome == Completed ==>
      |dests| == n && images == SectionImages(old(Sections(loader.ram[..], table, n)), dests)
  {
    hide ParseSection, BufferPages, OnlyInside, ApartFromAll, SectionSelected, SectionPasses, SectionImages, Zeros,
      RunSections, SectionError, AfterSection, Confined, Intact, Holds, FileImage, AllApart, AllWithin;
    ghost var m := loader.ram[..];
    NothingWritten(m, alloc.live);
    ghost var hs := Sections(m, table, n);
    images, dests := [], [];
    assert placed + [] == placed;
    NoSectionImages(hs);
    var i := 0;
    while i < n
      invariant i <= n && loader.Valid(alloc, pages) && |loader.ram[..]| == |m|
      invariant RunSections(hs, loader.elfFileSize, old(alloc.Now()), |m|)
             == RunSections(hs[i..], loader.elfFileSize, alloc.Now(), |m|)
      invariant Confined(m, loader.ram[..], old(alloc.live), alloc.live)
      invariant Intact(loader.ram[..], alloc.live, live0, file, placed + images)
      invariant |dests| == i && images == SectionImages(hs[..i], dests)
    {
      ghost var m1, live1 := loader.ram[..], alloc.live;
      IntactFile(m, m1, live1, live0, pages, placed + images);
      SectionInFile(m, m1, loader, pages, table, n, i);
      RunSectionsStep(hs, i, loader.elfFileSize, alloc.Now(), |m|);
      SectionSkipped(hs[i], loader.elfFileSize, alloc.Now(), |m|);
      var error, dest := loader.LoadNoBitsSection(alloc, table + i * SECTION_HEADER_SIZE, pages);
      if error != Astray {
        ConfinedChain(m, m1, loader.ram[..], old(alloc.live), live1, alloc.live);
      }
      if error != NoError && error != ElfSectionNotLoadable {
        return EndOf(error), images, dests;
      }
      SectionImagesStep(hs, dests, i, dest);
      if error == NoError {
        ghost var im := Image(Region(dest, BufferPages(hs[i].size)), Zeros(hs[i].size));
        IntactGrows(m1, loader.ram[..], live1, live0, file, placed + images, im);
        assert placed + images + [im] == placed + (images + [im]);
        images := images + [im];
      }
      dests := dests + [dest];
      i := i + 1;
    }
    NoSectionsLeft(hs, loader.elfFileSize, alloc.Now(), |m|);
    outcome := Completed;
  }

  // ---------------------------------------------------------------------
  // Both loops
  // ---------------------------------------------------------------------

  predicate ProgTableFound(h: ElfHeader, fileSize: nat) {
    && CheckHeader(h) == NoError && h.progHeaderEntrySize == PROG_HEADER_SIZE
    && !TableExceeds(h.progHeaderOffset, h.progHeaderNum, PROG_HEADER_SIZE, fileSize)
  }

  predicate SectionTableFound(h: ElfHeader, fileSize: nat) {
    && CheckHeader(h) == NoError && h.sectionHeaderEntrySize == SECTION_HEADER_SIZE
    && !TableExceeds(h.sectionHeaderOffset, h.sectionHeaderNum, SECTION_HEADER_SIZE, fileSize)
  }

  /** The segments that the first loop visits: none when the table is not found. */
  function VisitedSegments(m: seq<Byte>, file: nat, fileSize: nat, h: ElfHeader): seq<Segment> {
    var table := file + h.progHeaderOffset;
    if ProgTableFound(h, fileSize) && table + h.progHeaderNum * PROG_HEADER_SIZE <= |m|
    then Segments(m, table, h.progHeaderNum) else []
  }

  function VisitedSections(m: seq<Byte>, file: nat, fileSize: nat, h: ElfHeader): seq<Section> {
    var table := file + h.sectionHeaderOffset;
    if SectionTableFound(h, fileSize) && table + h.sectionHeaderNum * SECTION_HEADER_SIZE <= |m|
    then Sections(m, table, h.sectionHeaderNum) else []
  }

  /** The table is handed out, but its end wraps, so its headers are not in the file. */
  predicate StrayProgTable(h: ElfHeader, fileSize: nat) {
    ProgTableFound(h, fileSize) && TableWraps(h.progHeaderOffset, h.progHeaderNum, PROG_HEADER_SIZE)
  }

  predicate StraySectionTable(h: ElfHeader, fileSize: nat) {
    SectionTableFound(h, fileSize) && TableWraps(h.sectionHeaderOffset, h.sectionHeaderNum, SECTION_HEADER_SIZE)
  }

  /** How the first loop ends and what it leaves of the supply. */
  function RunProg(m: seq<Byte>, file: nat, fileSize: nat, h: ElfHeader, u: Supply): Run {
    if NullWithCount(ProgTable(h, file, fileSize, 0)) then Run(NullTable, u)
    else if StrayProgTable(h, fileSize) then Run(StrayTable, u)
    else RunSegments(VisitedSegments(m, file, fileSize, h), fileSize, u, |m|)
  }

  function RunSect(m: seq<Byte>, file: nat, fileSize: nat, h: ElfHeader, u: Supply): Run {
    if NullWithCount(SectionTable(h, file, fileSize, 0)) then Run(NullTable, u)
    else if StraySectionTable(h, fileSize) then Run(StrayTable, u)
    else RunSections(VisitedSections(m, file, fileSize, h), fileSize, u, |m|)
  }

  /** How both loops end: the second runs if the first completes. */
  function RunBoth(m: seq<Byte>, file: nat, fileSize: nat, h: ElfHeader, u: Supply): Run {
    var first := RunProg(m, file, fileSize, h, u);
    if first.outcome != Completed then first else RunSect(m, file, fileSize, h, first.supply)
  }

  /** What the loops find when they ask for the tables. */
  lemma TablePointers(f: seq<Byte>, file: nat, fileSize: nat)
    requires |f| == ELF_HEADER_SIZE && 0 < file && file + fileSize <= ADDRESS_SPACE
    ensures var h := ParseElfHeader(f); var t := ProgTable(h, file, fileSize, 0);
      && (t.pointer != 0 ==> ProgTableFound(h, fileSize) && t.count == h.progHeaderNum)
      && (t.pointer != 0 ==> (TableInFile(t, PROG_HEADER_SIZE, file, fileSize) <==> !StrayProgTable(h, fileSize)))
      && (t.pointer != 0 && !StrayProgTable(h, fileSize) ==> t.pointer == file + h.progHeaderOffset)
      && (t.pointer == 0 && t.count == 0 ==> !ProgTableFound(h, fileSize))
      && (ProgTableFound(h, fileSize) && !StrayProgTable(h, fileSize)
          ==> h.progHeaderOffset + h.progHeaderNum * PROG_HEADER_SIZE < fileSize)
    ensures var h := ParseElfHeader(f); var t := SectionTable(h, file, fileSize, 0);
      && (t.pointer != 0 ==> SectionTableFound(h, fileSize) && t.count == h.sectionHeaderNum)
      && (t.pointer != 0 ==> (TableInFile(t, SECTION_HEADER_SIZE, file, fileSize) <==> !StraySectionTable(h, fileSize)))
      && (t.pointer != 0 && !StraySectionTable(h, fileSize) ==> t.pointer == file + h.sectionHeaderOffset)
      && (t.pointer == 0 && t.count == 0 ==> !SectionTableFound(h, fileSize))
      && (SectionTableFound(h, fileSize) && !StraySectionTable(h, fileSize)
          ==> h.sectionHeaderOffset + h.sectionHeaderNum * SECTION_HEADER_SIZE < fileSize)
  {
    hide ParseElfHeader, CheckHeader, TableWraps, TableInFile, TableExceeds;
    var h := ParseElfHeader(f);
    HeaderBounds(f);
    TablePlace(CheckHeader(h), h.progHeaderEntrySize == PROG_HEADER_SIZE,
               h.progHeaderOffset, h.progHeaderNum, PROG_HEADER_SIZE, file, fileSize);
    TablePlace(CheckHeader(h), h.sectionHeaderEntrySize == SECTION_HEADER_SIZE,
               h.sectionHeaderOffset, h.sectionHeaderNum, SECTION_HEADER_SIZE, file, fileSize);
  }

  /** The four ways a loop starts, by the table it is given. */
  lemma ProgStart(m: seq<Byte>, file: nat, fileSize: nat, h: ElfHeader, u: Supply)
    requires 0 < file && file + fileSize <= |m| <= ADDRESS_SPACE && ELF_HEADER_SIZE <= |m| - file
    requires h == ParseElfHeader(m[file..file + ELF_HEADER_SIZE])
    ensures var t := ProgTable(h, file, fileSize, 0);
      var end := RunProg(m, file, fileSize, h, u);
      && (t.pointer == 0 && t.count > 0 ==> end == Run(NullTable, u))
      && (t.pointer == 0 && t.count == 0 ==> end == Run(Completed, u) && VisitedSegments(m, file, fileSize, h) == [])
      && (t.pointer != 0 && !TableInFile(t, PROG_HEADER_SIZE, file, fileSize) ==> end == Run(StrayTable, u))
      && (t.pointer != 0 && TableInFile(t, PROG_HEADER_SIZE, file, fileSize) ==>
            && t.pointer + t.count * PROG_HEADER_SIZE <= |m|
            && VisitedSegments(m, file, fileSize, h) == Segments(m, t.pointer, t.count)
            && end == RunSegments(Segments(m, t.pointer, t.count), fileSize, u, |m|))
  {
    hide ParseElfHeader, SegmentAt, ProgTableFound, ProgTable;
    TablePointers(m[file..file + ELF_HEADER_SIZE], file, fileSize);
  }

  /** The four ways a loop starts, by the table it is given. */
  lemma SectionStart(m: seq<Byte>, file: nat, fileSize: nat, h: ElfHeader, u: Supply)
    requires 0 < file && file + fileSize <= |m| <= ADDRESS_SPACE && ELF_HEADER_SIZE <= |m| - file
    requires h == ParseElfHeader(m[file..file + ELF_HEADER_SIZE])
    ensures var t := SectionTable(h, file, fileSize, 0);
      var end := RunSect(m, file, fileSize, h, u);
      && (t.pointer == 0 && t.count > 0 ==> end == Run(NullTable, u))
      && (t.pointer == 0 && t.count == 0 ==> end == Run(Completed, u) && VisitedSections(m, file, fileSize, h) == [])
      && (t.pointer != 0 && !TableInFile(t, SECTION_HEADER_SIZE, file, fileSize) ==> end == Run(StrayTable, u))
      && (t.pointer != 0 && TableInFile(t, SECTION_HEADER_SIZE, file, fileSize) ==>
            && t.pointer + t.count * SECTION_HEADER_SIZE <= |m|
            && VisitedSections(m, file, fileSize, h) == Sections(m, t.pointer, t.count)
            && end == RunSections(Sections(m, t.pointer, t.count), fileSize, u, |m|))
  {
    hide ParseElfHeader, SectionAt, SectionTableFound, SectionTable;
    TablePointers(m[file..file + ELF_HEADER_SIZE], file, fileSize);
  }

  /** The first loop, with the table it is given.  `m` is the memory at the start. */
  method LoadAllSegments(loader: ElfLoader, alloc: PageAllocator,
                         ghost pages: Region, ghost m: seq<Byte>, ghost h: ElfHeader)
    returns (outcome: Outcome, ghost images: seq<Image>, ghost dests: seq<nat>)
    requires loader.Valid(alloc, pages) && 0 < loader.elfFile
    requires m == loader.ram[..] && h == loader.Header(m)
    requires loader.elfFile + loader.elfFileSize <= |m|
    modifies loader.ram, alloc
    ensures alloc.Valid()
    ensures Run(outcome, alloc.Now()) == RunProg(m, loader.elfFile, loader.elfFileSize, h, old(alloc.Now()))
    ensures outcome != WritesAstray ==>
      Confined(old(loader.ram[..]), loader.ram[..], old(alloc.live), alloc.live)
    ensures outcome == Completed ==>
      && loader.Valid(alloc, pages)
      && Intact(loader.ram[..], alloc.live, old(alloc.live), FileImage(m, pages), images)
    ensures outcome == Completed ==>
      var hs := VisitedSegments(m, loader.elfFile, loader.elfFileSize, h);
      |dests| == |hs| && images == SegmentImages(FileBytes(m, loader), hs, dests)
  {
    hide ParseElfHeader, ProgTable, SegmentAt, Loadable, Confined, RunProg, VisitedSegments, RunSegments;
    NothingWritten(m, alloc.live);
    ProgStart(m, loader.elfFile, loader.elfFileSize, h, alloc.Now());
    RegionInside(alloc, pages);
    images, dests := [], [];
    assert Regions([]) == [] && alloc.live + [] == alloc.live;
    var progHeaders, n, err := loader.GetProgramHeaders(0);
    if progHeaders == 0 {
      return if n > 0 then NullTable else Completed, [], [];
    }
    if !TableInFile(Table(progHeaders, n, err), PROG_HEADER_SIZE, loader.elfFile, loader.elfFileSize) {
      return StrayTable, [], [];
    }
    outcome, images, dests := LoadSegments(loader, alloc, progHeaders, n, pages, FileImage(m, pages), alloc.live);
  }

  lemma SameSections(loader: ElfLoader, m: seq<Byte>, m1: seq<Byte>, pages: Region, table: nat, n: nat)
    requires pages.start == loader.elfFile && |m1| == |m| && pages.End() <= |m|
    requires m1[pages.start..pages.End()] == m[pages.start..pages.End()]
    requires HeadersInFile(loader, pages, table, n, SECTION_HEADER_SIZE)
    ensures Sections(m1, table, n) == Sections(m, table, n)
  {
    hide SectionAt;
    forall i | 0 <= i < n
      ensures Sections(m1, table, n)[i] == Sections(m, table, n)[i]
    {
      SectionInFile(m, m1, loader, pages, table, n, i);
    }
  }

  /** The pages of the file are as they were: so are its header and its section headers. */
  lemma FileUnchanged(loader: ElfLoader, m: seq<Byte>, m1: seq<Byte>, pages: Region, h: ElfHeader)
    requires pages.start == loader.elfFile && 0 < pages.pages && |m1| == |m| && pages.End() <= |m|
    requires 0 < loader.elfFile && |m| <= ADDRESS_SPACE && loader.elfFileSize <= pages.pages * PAGE_SIZE
    requires Holds(m1, FileImage(m, pages))
    requires SectionTableFound(h, loader.elfFileSize) && !StraySectionTable(h, loader.elfFileSize)
      ==> h.sectionHeaderOffset + h.sectionHeaderNum * SECTION_HEADER_SIZE < loader.elfFileSize
    ensures FileImage(m1, pages) == FileImage(m, pages)
    ensures loader.Header(m1) == loader.Header(m)
    ensures VisitedSections(m1, loader.elfFile, loader.elfFileSize, h)
         == VisitedSections(m, loader.elfFile, loader.elfFileSize, h)
  {
    hide ParseElfHeader, SectionAt, SectionTableFound;
    assert m1[pages.start..pages.End()] == m[pages.start..pages.End()];
    SameWindow(m, m1, pages.start, pages.End(), loader.elfFile, ELF_HEADER_SIZE);
    if SectionTableFound(h, loader.elfFileSize) && !StraySectionTable(h, loader.elfFileSize) {
      SameSections(loader, m, m1, pages, loader.elfFile + h.sectionHeaderOffset, h.sectionHeaderNum);
    }
  }

  /** The second loop, with the table it is given.  `m` is still the memory before both loops. */
  method LoadAllSections(loader: ElfLoader, alloc: PageAllocator, ghost pages: Region, ghost m: seq<Byte>,
                         ghost h: ElfHeader, ghost live0: seq<Region>, ghost placed: seq<Image>)
    returns (outcome: Outcome, ghost images: seq<Image>, ghost dests: seq<nat>)
    requires loader.Valid(alloc, pages) && 0 < loader.elfFile && 0 < pages.pages
    requires |m| == loader.ram.Length && Intact(loader.ram[..], alloc.live, live0, FileImage(m, pages), placed)
    requires pages.End() <= |m| && h == loader.Header(m)
    modifies loader.ram, alloc
    ensures alloc.Valid()
    ensures Run(outcome, alloc.Now()) == RunSect(m, loader.elfFile, loader.elfFileSize, h, old(alloc.Now()))
    ensures outcome != WritesAstray ==>
      Confined(old(loader.ram[..]), loader.ram[..], old(alloc.live), alloc.live)
    ensures outcome == Completed ==>
      Intact(loader.ram[..], alloc.live, live0, FileImage(m, pages), placed + images)
    ensures outcome == Completed ==>
      var hs := VisitedSections(m, loader.elfFile, loader.elfFileSize, h);
      |dests| == |hs| && images == SectionImages(hs, dests)
  {
    hide ParseElfHeader, SectionTable, SectionAt, SectionPasses, Confined, RunSect, VisitedSections, RunSections;
    ghost var m1 := loader.ram[..];
    NothingWritten(m1, alloc.live);
    TablePointers(m[loader.elfFile..loader.elfFile + ELF_HEADER_SIZE], loader.elfFile, loader.elfFileSize);
    SectionStart(m, loader.elfFile, loader.elfFileSize, h, alloc.Now());
    FileUnchanged(loader, m, m1, pages, h);
    SectionStart(m1, loader.elfFile, loader.elfFileSize, h, alloc.Now());
    images, dests := [], [];
    assert placed + [] == placed;
    var sectionHeaders, n, err := loader.GetSectionHeaders(0);
    if sectionHeaders == 0 {
      return if n > 0 then NullTable else Completed, [], [];
    }
    if !TableInFile(Table(sectionHeaders, n, err), SECTION_HEADER_SIZE, loader.elfFile, loader.elfFileSize) {
      return StrayTable, [], [];
    }
    outcome, images, dests := LoadSections(loader, alloc, sectionHeaders, n, pages, FileImage(m, pages), live0, placed);
  }

  lemma FileSurvives(m: seq<Byte>, m': seq<Byte>, live0: seq<Region>, live: seq<Region>, pages: Region)
    requires Confined(m, m', live0, live) && AllApart(live) && pages in live0 && pages.End() <= |m|
    ensures Holds(m', FileImage(m, pages))
  {
    hide Confined, AllApart;
    var i :| 0 <= i < |live0| && live0[i] == pages;
    ConfinedKeeps(m, m', live0, live, i);
  }

  /** Whether both loops complete, told apart from what the firmware does: the tables are there
      and in the file, every segment and section to load is in order, and all allocations are
      granted. */
  predicate TablesUsable(file: nat, fileSize: nat, h: ElfHeader) {
    && !NullWithCount(ProgTable(h, file, fileSize, 0)) && !StrayProgTable(h, fileSize)
    && !NullWithCount(SectionTable(h, file, fileSize, 0)) && !StraySectionTable(h, fileSize)
  }

  /** The tables are usable, and no header that passes the tests makes them wrap. */
  ghost predicate SaneFile(m: seq<Byte>, file: nat, fileSize: nat, h: ElfHeader) {
    && TablesUsable(file, fileSize, h)
    && SaneSegments(VisitedSegments(m, file, fileSize, h), fileSize)
    && SaneSections(VisitedSections(m, file, fileSize, h), fileSize)
  }

  /** A sane file never leads astray. */
  lemma SaneFileStaysInside(m: seq<Byte>, file: nat, fileSize: nat, h: ElfHeader, u: Supply)
    requires file + fileSize <= |m| && fileSize <= MAX_FILE_SIZE && SaneFile(m, file, fileSize, h)
    ensures RunBoth(m, file, fileSize, h, u).outcome in {Completed, LoadFailed}
  {
    hide SaneSegments, SaneSections, AllLoadable, AllSectionsPass, VisitedSegments, VisitedSections, RunSegments,
      RunSections, NullWithCount, StrayProgTable, StraySectionTable, GrantsSegments, GrantsSections, ProgTable,
      SectionTable;
    var ps, ss := VisitedSegments(m, file, fileSize, h), VisitedSections(m, file, fileSize, h);
    SegmentsCompleteExactly(m[file..file + fileSize], ps, u, |m|);
    SectionsCompleteExactly(ss, fileSize, RunProg(m, file, fileSize, h, u).supply, |m|);
  }

  /** The part of `readKernel` behind the file read, for every file and every firmware.  If both
      loops complete, then every loadable segment that was visited holds its file bytes followed
      by zeros, every selected NOBITS section holds zeros, and the pages of the file are
      unchanged: all at once, each in its own live pages. */
  method LoadKernel(loader: ElfLoader, alloc: PageAllocator,
                    ghost pages: Region, ghost m: seq<Byte>, ghost h: ElfHeader)
    returns (outcome: Outcome, ghost images: seq<Image>, ghost segmentDests: seq<nat>, ghost sectionDests: seq<nat>)
    requires loader.Valid(alloc, pages) && 0 < loader.elfFile && 0 < pages.pages
    requires m == loader.ram[..] && h == loader.Header(m) && loader.elfFile + loader.elfFileSize <= |m|
    modifies loader.ram, alloc
    ensures alloc.Valid()
    ensures Run(outcome, alloc.Now()) == RunBoth(m, loader.elfFile, loader.elfFileSize, h, old(alloc.Now()))
    ensures outcome != WritesAstray ==>
      Confined(old(loader.ram[..]), loader.ram[..], old(alloc.live), alloc.live)
    // So a file that is sane in all its headers cannot make the loops write anywhere else.
    ensures SaneFile(m, loader.elfFile, loader.elfFileSize, h) ==>
      Confined(m, loader.ram[..], old(alloc.live), alloc.live)
    // The pages of the file are as they were, also when a load fails.
    ensures outcome != WritesAstray ==> Holds(loader.ram[..], FileImage(m, pages))
    ensures outcome == Completed ==>
      Intact(loader.ram[..], alloc.live, old(alloc.live), FileImage(m, pages), images)
    ensures outcome == Completed ==>
      var ps := VisitedSegments(m, loader.elfFile, loader.elfFileSize, h);
      var ss := VisitedSections(m, loader.elfFile, loader.elfFileSize, h);
      && |segmentDests| == |ps| && |sectionDests| == |ss|
      && images == SegmentImages(FileBytes(m, loader), ps, segmentDests) + SectionImages(ss, sectionDests)
  {
    hide ParseElfHeader, SegmentImages, SectionImages, VisitedSegments, VisitedSections, Intact, RunProg, RunSect,
      Confined, SaneFile;
    RegionInside(alloc, pages);
    if SaneFile(m, loader.elfFile, loader.elfFileSize, h) {
      SaneFileStaysInside(m, loader.elfFile, loader.elfFileSize, h, alloc.Now());
    }
    segmentDests, sectionDests := [], [];
    ghost var live0 := alloc.live;
    outcome, images, segmentDests := LoadAllSegments(loader, alloc, pages, m, h);
    if outcome != WritesAstray {
      FileSurvives(m, loader.ram[..], live0, alloc.live, pages);
    }
    if outcome != Completed {
      return;
    }
    ghost var m1, live1 := loader.ram[..], alloc.live;
    ghost var more;
    outcome, more, sectionDests := LoadAllSections(loader, alloc, pages, m, h, live0, images);
    images := images + more;
    if outcome != WritesAstray {
      ConfinedChain(m, m1, loader.ram[..], live0, live1, alloc.live);
      FileSurvives(m, loader.ram[..], live0, alloc.live, pages);
    }
  }

  predicate GrantsBoth(m: seq<Byte>, file: nat, fileSize: nat, h: ElfHeader, u: Supply) {
    && GrantsSegments(VisitedSegments(m, file, fileSize, h), u, |m|)
    && GrantsSections(VisitedSections(m, file, fileSize, h), fileSize, RunProg(m, file, fileSize, h, u).supply, |m|)
  }

  lemma KernelCompletesExactly(m: seq<Byte>, file: nat, fileSize: nat, h: ElfHeader, u: Supply)
    requires file + fileSize <= |m| && fileSize <= MAX_FILE_SIZE
    ensures RunBoth(m, file, fileSize, h, u).outcome == Completed <==>
      && TablesUsable(file, fileSize, h)
      && AllLoadable(m[file..file + fileSize], VisitedSegments(m, file, fileSize, h))
      && AllSectionsPass(VisitedSections(m, file, fileSize, h), fileSize)
      && GrantsBoth(m, file, fileSize, h, u)
  {
    hide AllLoadable, AllSectionsPass, VisitedSegments, VisitedSections, RunSegments, RunSections, NullWithCount,
      StrayProgTable, StraySectionTable, GrantsSegments, GrantsSections, ProgTable, SectionTable;
    var ps, ss := VisitedSegments(m, file, fileSize, h), VisitedSections(m, file, fileSize, h);
    SegmentsCompleteExactly(m[file..file + fileSize], ps, u, |m|);
    SectionsCompleteExactly(ss, fileSize, RunProg(m, file, fileSize, h, u).supply, |m|);
  }

  lemma SegmentsInFile(m: seq<Byte>, m': seq<Byte>, file: nat, fileSize: nat, offset: nat, n: nat)
    requires |m'| == |m| && file + fileSize <= |m| && offset + n * PROG_HEADER_SIZE <= fileSize
    requires m[file..file + fileSize] == m'[file..file + fileSize]
    ensures Segments(m, file + offset, n) == Segments(m', file + offset, n)
  {
    hide ParseSegment;
    forall i | 0 <= i < n
      ensures SegmentAt(m, file + offset + i * PROG_HEADER_SIZE) == SegmentAt(m', file + offset + i * PROG_HEADER_SIZE)
    {
      SameWindow(m, m', file, file + fileSize, file + offset + i * PROG_HEADER_SIZE, PROG_HEADER_SIZE);
    }
  }

  lemma SectionsInFile(m: seq<Byte>, m': seq<Byte>, file: nat, fileSize: nat, offset: nat, n: nat)
    requires |m'| == |m| && file + fileSize <= |m| && offset + n * SECTION_HEADER_SIZE <= fileSize
    requires m[file..file + fileSize] == m'[file..file + fileSize]
    ensures Sections(m, file + offset, n) == Sections(m', file + offset, n)
  {
    hide ParseSection;
    forall i | 0 <= i < n
      ensures SectionAt(m, file + offset + i * SECTION_HEADER_SIZE)
           == SectionAt(m', file + offset + i * SECTION_HEADER_SIZE)
    {
      SameWindow(m, m', file, file + fileSize, file + offset + i * SECTION_HEADER_SIZE, SECTION_HEADER_SIZE);
    }
  }

  /** Nothing outside the file matters: two memories with the same file in the same place give the
      same run, and wherever the loops do not end at a table, the same headers. */
  lemma OnlyTheFileIsRead(m: seq<Byte>, m': seq<Byte>, file: nat, fileSize: nat, u: Supply)
    requires |m'| == |m| <= ADDRESS_SPACE && 0 < file && file + fileSize <= |m| && ELF_HEADER_SIZE <= fileSize
    requires m[file..file + fileSize] == m'[file..file + fileSize]
    ensures var h := ParseElfHeader(m[file..file + ELF_HEADER_SIZE]);
      && h == ParseElfHeader(m'[file..file + ELF_HEADER_SIZE])
      && RunBoth(m, file, fileSize, h, u) == RunBoth(m', file, fileSize, h, u)
      && (TablesUsable(file, fileSize, h) ==>
            && VisitedSegments(m, file, fileSize, h) == VisitedSegments(m', file, fileSize, h)
            && VisitedSections(m, file, fileSize, h) == VisitedSections(m', file, fileSize, h))
  {
    hide ParseElfHeader, ProgTableFound, SectionTableFound, StrayProgTable, StraySectionTable, Segments, Sections,
      RunSegments, RunSections, NullWithCount, ProgTable, SectionTable;
    SameWindow(m, m', file, file + fileSize, file, ELF_HEADER_SIZE);
    TablePointers(m[file..file + ELF_HEADER_SIZE], file, fileSize);
    var h := ParseElfHeader(m[file..file + ELF_HEADER_SIZE]);
    if ProgTableFound(h, fileSize) && !StrayProgTable(h, fileSize) {
      SegmentsInFile(m, m', file, fileSize, h.progHeaderOffset, h.progHeaderNum);
    }
    if SectionTableFound(h, fileSize) && !StraySectionTable(h, fileSize) {
      SectionsInFile(m, m', file, fileSize, h.sectionHeaderOffset, h.sectionHeaderNum);
    }
  }

  // ---------------------------------------------------------------------
  // Reading the result
  // ---------------------------------------------------------------------

  lemma {:induction false} SegmentImageIsThere(file: seq<Byte>, hs: seq<Segment>, dests: seq<nat>, i: nat)
    requires |dests| == |hs| && i < |hs| && Loadable(file, hs[i])
    ensures Image(Region(dests[i], BufferPages(hs[i].sizeInMemory)), SegmentBytes(file, hs[i]))
         in SegmentImages(file, hs, dests)
    decreases |hs|
  {
    hide Loadable, BufferPages, SegmentBytes;
    var n := |hs| - 1;
    if i < n {
      SegmentImageIsThere(file, hs[..n], dests[..n], i);
    }
  }

  lemma {:induction false} SectionImageIsThere(hs: seq<Section>, dests: seq<nat>, i: nat)
    requires |dests| == |hs| && i < |hs| && SectionSelected(hs[i])
    ensures Image(Region(dests[i], BufferPages(hs[i].size)), Zeros(hs[i].size)) in SectionImages(hs, dests)
    decreases |hs|
  {
    hide SectionSelected, BufferPages, Zeros;
    var n := |hs| - 1;
    if i < n {
      SectionImageIsThere(hs[..n], dests[..n], i);
    }
  }

  lemma MemberHolds(m: seq<Byte>, images: seq<Image>, im: Image)
    requires AllHold(m, images) && im in images
    ensures Holds(m, im)
  {
  }

  /** The segment's file bytes, then zeros up to its size in memory. */
  ghost predicate SegmentInPlace(m: seq<Byte>, file: seq<Byte>, h: Segment, d: nat) {
    && d + h.sizeInFile <= |m| && h.offset + h.sizeInFile <= |file|
    && m[d..d + h.sizeInFile] == file[h.offset..h.offset + h.sizeInFile]
    && forall a :: d + h.sizeInFile <= a < d + h.sizeInMemory ==> a < |m| && m[a] == 0
  }

  ghost predicate SectionInPlace(m: seq<Byte>, h: Section, d: nat) {
    forall a :: d <= a < d + h.size ==> a < |m| && m[a] == 0
  }

  lemma SectionWindow(m: seq<Byte>, im: Image, h: Section)
    requires im.bytes == Zeros(h.size) && Holds(m, im)
    ensures SectionInPlace(m, h, im.region.start)
  {
  }

  lemma ZeroWindow(m: seq<Byte>, start: nat, n: nat)
    requires start + n <= |m| && m[start..start + n] == Zeros(n)
    ensures forall a :: start <= a < start + n ==> m[a] == 0
  {
  }

  lemma SegmentWindow(m: seq<Byte>, im: Image, file: seq<Byte>, h: Segment)
    requires h.offset + h.sizeInFile <= |file| && im.bytes == SegmentBytes(file, h) && Holds(m, im)
    ensures SegmentInPlace(m, file, h, im.region.start)
  {
    var d, n, z := im.region.start, h.sizeInFile, |Zeros(h.sizeInMemory - h.sizeInFile)|;
    SubWindow(m, d, n + z, 0, n);
    SubWindow(m, d, n + z, n, z);
    assert im.bytes[0..n] == file[h.offset..h.offset + n];
    assert im.bytes[n..n + z] == Zeros(h.sizeInMemory - h.sizeInFile);
    ZeroWindow(m, d + n, z);
  }

  /** After both loops, in one and the same memory: every loadable segment and every selected
      section is in place. */
  lemma EverythingLoaded(m: seq<Byte>, file: seq<Byte>, ps: seq<Segment>, pd: seq<nat>, ss: seq<Section>, sd: seq<nat>)
    requires |pd| == |ps| && |sd| == |ss| && AllLoadable(file, ps)
    requires AllHold(m, SegmentImages(file, ps, pd) + SectionImages(ss, sd))
    ensures forall i :: 0 <= i < |ps| && ps[i].kind == PT_LOAD ==> SegmentInPlace(m, file, ps[i], pd[i])
    ensures forall i :: 0 <= i < |ss| && SectionSelected(ss[i]) ==> SectionInPlace(m, ss[i], sd[i])
  {
    hide BufferPages, SegmentImages, SectionImages, SizesPass, SectionSelected, SegmentInPlace, SectionInPlace,
      SegmentBytes, Zeros, Holds;
    var images := SegmentImages(file, ps, pd) + SectionImages(ss, sd);
    forall i | 0 <= i < |ps| && ps[i].kind == PT_LOAD
      ensures SegmentInPlace(m, file, ps[i], pd[i])
    {
      SegmentImageIsThere(file, ps, pd, i);
      var im := Image(Region(pd[i], BufferPages(ps[i].sizeInMemory)), SegmentBytes(file, ps[i]));
      MemberHolds(m, images, im);
      SegmentWindow(m, im, file, ps[i]);
    }
    forall i | 0 <= i < |ss| && SectionSelected(ss[i])
      ensures SectionInPlace(m, ss[i], sd[i])
    {
      SectionImageIsThere(ss, sd, i);
      var im := Image(Region(sd[i], BufferPages(ss[i].size)), Zeros(ss[i].size));
      MemberHolds(m, images, im);
      SectionWindow(m, im, ss[i]);
    }
  }

  /** No two images share a byte, and none touches the pages of the file. */
  lemma ImagesApart(m: seq<Byte>, live: seq<Region>, live0: seq<Region>, file: Image, images: seq<Image>,
                    i: nat, j: nat)
    requires AllApart(live) && Intact(m, live, live0, file, images)
    requires i < j < |images|
    ensures Apart(images[i].region, images[j].region)
    ensures Apart(file.region, images[i].region) && Apart(file.region, images[j].region)
  {
    hide Holds, Apart;
    var n := |live0|;
    assert live[n + i] == images[i].region && live[n + j] == images[j].region;
    var k :| 0 <= k < |live0| && live0[k] == file.region;
    assert live[k] == file.region;
    assert Apart(live[n + i], live[n + j]) && Apart(live[k], live[n + i]) && Apart(live[k], live[n + j]);
  }
}
