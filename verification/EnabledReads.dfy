/**
 `translateVirtToPhys` while paging is enabled: it uses the physical addresses of tables as
 pointers, so the processor translates them once more.  This file says when its reads hit the
 tables all the same, and shows that whole runs, unforced calls included, then do what they do in
 the rest of the model.
 */
module EnabledReads {
  import opened PageEntry
  import opened VirtualAddress
  import opened PhysicalMemory
  import opened PageTables
  import opened PageTree
  import opened Refinement
  import opened RecursiveWindow
  import opened Runs
  import opened Rights
  import opened CallOutcomes
  import opened SelfSlots

  datatype Sight = PageFault | Seen(word: Word)

  /** The frame behind a physical address that is used as a pointer. */
  function Deref(c: Setting, m: Memory, a: Word): Sight {
    if c.pagingDisabledNow then Seen(a)
    else if !Canonical(a) then PageFault
    else
      var w := HardwareWalk(m, c.root, PageOf(a));
      if w.Fault? then PageFault else Seen(w.frame)
  }

  /** One read: the address in slot `i` of the table behind pointer `a`. */
  function ReadThrough(c: Setting, m: Memory, a: Sight, i: Index): Sight {
    if a.PageFault? || a.word == 0 then a
    else
      var f := Deref(c, m, a.word);
      if f.PageFault? then PageFault else Seen(AddrOf(Peek(m, f.word, i)))
  }

  /** The routine as the processor runs it; the root is reached by its own pointer. */
  function TranslateSeen(c: Setting, m: Memory, v: VAddr): Sight {
    var p := PageOf(v);
    var l3 := Seen(AddrOf(Peek(m, c.root, p.l4)));
    ReadThrough(c, m, ReadThrough(c, m, ReadThrough(c, m, l3, p.l3), p.l2), p.l1)
  }

  datatype CallEnd = Faults | Ends(state: State, error: PageMapError)

  /** `mapPage` with that routine in its test for an existing mapping. */
  function MapSeen(c: Setting, s: State, r: Request): CallEnd {
    if !PassesCanonicalTest(r.virt) || r.force then Ends(MapEffect(c, s, r).0, MapEffect(c, s, r).1)
    else
      var x := TranslateSeen(c, s.mem, r.virt);
      if x.PageFault? then Faults
      else if x.word != 0 then Ends(s, EntryExists)
      else
        var (s', error) := Install(c, s, PageOf(r.virt), TableEntry(r.phys, r.flags), r.force);
        Ends(s', error)
  }

  // ---------------------------------------------------------------------
  // When the reads hit the tables
  // ---------------------------------------------------------------------

  /** The pointer leads to the frame it names. */
  predicate InPlace(c: Setting, m: Memory, a: Word) {
    Deref(c, m, a) == Seen(a)
  }

  /** What a pointer does is in the map of pages. */
  lemma DerefExactly(c: Setting, m: Memory, t: Tree, a: Word)
    requires !c.pagingDisabledNow && Represents(m, c.root, t) && Admissible(PageOf(a))
    ensures Deref(c, m, a) ==
      if Canonical(a) && Present(LeafOf(t.pages, PageOf(a))) then Seen(AddrOf(LeafOf(t.pages, PageOf(a))))
      else PageFault
  {
    hide PageOf, Canonical, HardwareWalk, Represents, Present, AddrOf;
    WalkReadsLeaf(m, c.root, t, PageOf(a));
  }

  /** The tables that exist on the way to a page. */
  predicate OnPath(t: Tree, p: Page, n: Node) {
    n in t.tables && (n == T3(p.l4) || n == T2(p.l4, p.l3) || n == TableOf(p))
  }

  ghost predicate PathInPlace(c: Setting, m: Memory, t: Tree, p: Page) {
    forall n :: OnPath(t, p, n) ==> InPlace(c, m, t.tables[n])
  }

  lemma ReadInPlace(c: Setting, m: Memory, a: Word, i: Index)
    requires a != 0 ==> InPlace(c, m, a) || Deref(c, m, a).PageFault?
    ensures ReadThrough(c, m, Seen(a), i) ==
      if a == 0 then Seen(0) else if InPlace(c, m, a) then Seen(AddrOf(Peek(m, a, i))) else PageFault
    ensures ReadThrough(c, m, PageFault, i) == PageFault
  {
    hide Deref, AddrOf, Peek;
  }

  lemma PathTables(c: Setting, m: Memory, t: Tree, p: Page)
    requires forall n :: n in t.tables ==> t.tables[n] != 0
    ensures var x3, x2, x1 := FrameOf(t, T3(p.l4)), FrameOf(t, T2(p.l4, p.l3)), FrameOf(t, TableOf(p));
      PathInPlace(c, m, t, p) <==>
        && (x3 != 0 ==> InPlace(c, m, x3)) && (x2 != 0 ==> InPlace(c, m, x2)) && (x1 != 0 ==> InPlace(c, m, x1))
  {
    hide InPlace;
    assert OnPath(t, p, T3(p.l4)) <==> T3(p.l4) in t.tables;
    assert OnPath(t, p, T2(p.l4, p.l3)) <==> T2(p.l4, p.l3) in t.tables;
    assert OnPath(t, p, TableOf(p)) <==> TableOf(p) in t.tables;
  }

  lemma PathNodes(p: Page)
    requires Admissible(p)
    ensures Node3(p) == T3(p.l4) && Node2(p) == T2(p.l4, p.l3) && Node1(p) == TableOf(p)
  {
  }

  /** The three tables on the way, 0 for those that are missing; a table needs its parent. */
  lemma PathFrames(m: Memory, root: Word, t: Tree, p: Page)
    requires Represents(m, root, t) && Admissible(p)
    ensures var x3, x2, x1 := FrameOf(t, T3(p.l4)), FrameOf(t, T2(p.l4, p.l3)), FrameOf(t, TableOf(p));
      && AddrOf(Peek(m, root, p.l4)) == x3
      && (x3 != 0 ==> AddrOf(Peek(m, x3, p.l3)) == x2)
      && (x2 != 0 ==> AddrOf(Peek(m, x2, p.l2)) == x1)
      && (x2 != 0 ==> x3 != 0) && (x1 != 0 ==> x2 != 0)
  {
    hide Peek, AddrOf, Represents, IsTree, Node3, Node2, Node1;
    RepresentsIsTree(m, root, t);
    AncestorsExist(t, root, p);
    FramesNotZero(m, root, t);
    PathNodes(p);
    Reads(m, root, t, p);
  }

  lemma PathSights(c: Setting, m: Memory, t: Tree, p: Page, n: Node)
    requires n == T3(p.l4) || n == T2(p.l4, p.l3) || n == TableOf(p)
    requires forall k :: OnPath(t, p, k) ==> InPlace(c, m, t.tables[k]) || Deref(c, m, t.tables[k]).PageFault?
    ensures FrameOf(t, n) != 0 ==> InPlace(c, m, FrameOf(t, n)) || Deref(c, m, FrameOf(t, n)).PageFault?
  {
    hide InPlace, Deref;
    assert n in t.tables ==> OnPath(t, p, n);
  }

  /** If every table on the way is in place or faults, the routine gives what the model reads exactly
      when all of them are in place, and faults otherwise. */
  lemma SeenExactly(c: Setting, m: Memory, t: Tree, v: VAddr)
    requires Represents(m, c.root, t) && Admissible(PageOf(v))
    requires forall n :: OnPath(t, PageOf(v), n) ==>
      InPlace(c, m, t.tables[n]) || Deref(c, m, t.tables[n]).PageFault?
    ensures TranslateSeen(c, m, v) ==
      if PathInPlace(c, m, t, PageOf(v)) then Seen(Translate(m, c.root, v)) else PageFault
  {
    hide PageOf, Peek, AddrOf, InPlace, Deref, ReadThrough, Represents, FrameOf, PathInPlace, OnPath;
    var p := PageOf(v);
    PathFrames(m, c.root, t, p);
    FramesNotZero(m, c.root, t);
    PathTables(c, m, t, p);
    PathSights(c, m, t, p, T3(p.l4));
    PathSights(c, m, t, p, T2(p.l4, p.l3));
    PathSights(c, m, t, p, TableOf(p));
    ReadInPlace(c, m, FrameOf(t, T3(p.l4)), p.l3);
    ReadInPlace(c, m, FrameOf(t, T2(p.l4, p.l3)), p.l2);
    ReadInPlace(c, m, FrameOf(t, TableOf(p)), p.l1);
    ReadInPlace(c, m, 0, p.l2);
    ReadInPlace(c, m, 0, p.l1);
  }

  /** Unforced calls do not fault, and do what the model says, if the tables on the way are in place;
      forced calls never read that way. */
  lemma CallSeen(c: Setting, s: State, t: Tree, r: Request)
    requires Represents(s.mem, c.root, t) && Admissible(PageOf(r.virt))
    requires !r.force ==> PathInPlace(c, s.mem, t, PageOf(r.virt))
    ensures var (s', error) := MapEffect(c, s, r);
      MapSeen(c, s, r) == Ends(s', error)
  {
    hide PageOf, PassesCanonicalTest, Translate, TranslateSeen, Install, TableEntry, Represents, InPlace, Deref, OnPath;
    if !r.force {
      SeenExactly(c, s.mem, t, r.virt);
    }
  }

  // ---------------------------------------------------------------------
  // Runs on identity-mapped tables
  // ---------------------------------------------------------------------

  /** The frame is mapped to itself, and present. */
  predicate MappedToItself(t: Tree, f: Word) {
    && Canonical(f) && Admissible(PageOf(f))
    && Present(LeafOf(t.pages, PageOf(f))) && AddrOf(LeafOf(t.pages, PageOf(f))) == f
  }

  /** All frames that are tables or may become tables are mapped to themselves. */
  ghost predicate IdentityMapped(root: Word, t: Tree, frames: seq<Word>, fs: set<Word>) {
    && (forall f :: f in fs ==> MappedToItself(t, f))
    && (forall w :: w in t.tables.Values && w != root ==> w in fs)
    && (forall i :: 0 <= i < |frames| && frames[i] != 0 ==> frames[i] in fs)
  }

  /** The request does not map the page of such a frame elsewhere. */
  predicate Respects(fs: set<Word>, r: Request) {
    forall f :: f in fs && PageOf(r.virt) == PageOf(f) ==> r.phys == f && Has(r.flags, PRESENT)
  }

  lemma TakenIsAnswer(frames: seq<Word>, later: seq<Word>, w: Word)
    requires |later| <= |frames| && w in Taken(frames, later)
    ensures exists i :: 0 <= i < |frames| && frames[i] != 0 && frames[i] == w
  {
  }

  lemma EntryIsPresent(a: Word, flags: PageFlags)
    requires PageAddr(a)
    ensures AddrOf(TableEntry(a, flags)) == a && TableEntry(a, flags) != 0
    ensures Present(TableEntry(a, flags)) <==> Has(flags, PRESENT)
  {
    hide TableEntry, AddrOf, Has;
    EntryFacts(a, flags);
    FlagsRoundTrip(a, flags);
  }

  lemma MapKeepsIdentity(root: Word, t: Tree, frames: seq<Word>, r: Request, fs: set<Word>)
    requires IdentityMapped(root, t, frames, fs) && Respects(fs, r) && PageAddr(r.phys)
    ensures IdentityMapped(root, TreeMap(t, frames, r).tree, TreeMap(t, frames, r).frames, fs)
  {
    hide PageOf, TreeMap, Canonical, Present, AddrOf, TableEntry, Has, HasHw, PageAddr, Taken, Admissible;
    var g := TreeMap(t, frames, r);
    PagesAfterMap(t, frames, r);
    MapAccounted(t, frames, r);
    EntryIsPresent(r.phys, r.flags);
    forall f | f in fs
      ensures MappedToItself(g.tree, f)
    {
      assert MappedToItself(t, f);
    }
    forall w | w in g.tree.tables.Values && w != root
      ensures w in fs
    {
      if w in Taken(frames, g.frames) {
        TakenIsAnswer(frames, g.frames, w);
      }
    }
    var k := |frames| - |g.frames|;
    assert forall i :: 0 <= i < |g.frames| ==> g.frames[i] == frames[k + i];
  }

  lemma IdentityPutsInPlace(c: Setting, m: Memory, t: Tree, frames: seq<Word>, fs: set<Word>, p: Page)
    requires Represents(m, c.root, t) && IdentityMapped(c.root, t, frames, fs)
    ensures PathInPlace(c, m, t, p)
  {
    hide PageOf, Canonical, Present, AddrOf, Represents;
    forall n | OnPath(t, p, n)
      ensures InPlace(c, m, t.tables[n])
    {
      TableIsNotRoot(m, c.root, t, n);
      assert t.tables[n] in t.tables.Values;
      assert MappedToItself(t, t.tables[n]);
      if !c.pagingDisabledNow {
        DerefExactly(c, m, t, t.tables[n]);
      }
    }
  }

  datatype RunEnd = RunFaults | RunEnds(state: State, errors: seq<PageMapError>)

  function RunSeen(c: Setting, s: State, reqs: seq<Request>): RunEnd
    decreases |reqs|
  {
    if reqs == [] then RunEnds(s, [])
    else
      match MapSeen(c, s, reqs[0])
      case Faults => RunFaults
      case Ends(s1, error) =>
        var later := RunSeen(c, s1, reqs[1..]);
        if later.RunFaults? then RunFaults else RunEnds(later.state, [error] + later.errors)
  }

  lemma PathHonest(c: Setting, m: Memory, t: Tree, p: Page)
    requires PathInPlace(c, m, t, p)
    ensures forall n :: OnPath(t, p, n) ==> InPlace(c, m, t.tables[n]) || Deref(c, m, t.tables[n]).PageFault?
  {
    hide InPlace, Deref;
  }

  /** If the frames are mapped to themselves and no request says otherwise, a run with paging
      enabled, unforced calls included, never faults and ends as in the model; and afterwards
      `translateVirtToPhys` still reads what the model reads. */
  lemma {:induction false} RunSeenExactly(c: Setting, s: State, t: Tree, reqs: seq<Request>, fs: set<Word>, v: VAddr)
    requires c.links.Repaired? && Good(c, s, t) && AdmissibleRun(reqs) && Admissible(PageOf(v))
    requires IdentityMapped(c.root, t, s.frames, fs) && forall i :: 0 <= i < |reqs| ==> Respects(fs, reqs[i])
    ensures var (s', errors) := Run(c, s, reqs);
      && RunSeen(c, s, reqs) == RunEnds(s', errors)
      && TranslateSeen(c, s'.mem, v) == Seen(Translate(s'.mem, c.root, v))
    decreases |reqs|
  {
    hide MapEffect, MapSeen, TreeMap, TranslateSeen, Translate, PageOf, FreshFrames, ModeReady, Represents,
      IdentityMapped,
      Respects, PageAddr, PathInPlace, Admissible;
    IdentityPutsInPlace(c, s.mem, t, s.frames, fs, PageOf(v));
    if reqs == [] {
      PathHonest(c, s.mem, t, PageOf(v));
      SeenExactly(c, s.mem, t, v);
    } else {
      var r := reqs[0];
      assert AdmissibleRequest(r) && Respects(fs, r);
      var g := TreeMap(t, s.frames, r);
      IdentityPutsInPlace(c, s.mem, t, s.frames, fs, PageOf(r.virt));
      CallSeen(c, s, t, r);
      StepRefines(c, s, t, r);
      MapKeepsIdentity(c.root, t, s.frames, r, fs);
      assert forall i :: 0 <= i < |reqs[1..]| ==> reqs[1..][i] == reqs[i + 1];
      RunSeenExactly(c, MapEffect(c, s, r).0, g.tree, reqs[1..], fs, v);
    }
  }

  // ---------------------------------------------------------------------
  // Both ways, concretely
  // ---------------------------------------------------------------------

  /** A root with its window in place, paging enabled, and three zeroed frames. */
  const WINDOWED: Setting := Setting(0x1000, Repaired, false)

  function WindowedState(): State {
    State(map[Slot(0x1000, RECURSIVE_INDEX) := Link(0x1000)], [0x2000, 0x3000, 0x4000])
  }

  /** Map the page at `a` to itself, forced. */
  function ToItself(a: Word): Request {
    Request(a, a, PRESENT | WRITE_BIT, true)
  }

  lemma SmallPages()
    ensures PageOf(0x2000) == Page(0, 0, 0, 2) && PageOf(0x3000) == Page(0, 0, 0, 3)
    ensures PageOf(0x4000) == Page(0, 0, 0, 4)
    ensures Canonical(0x2000) && Canonical(0x3000) && Canonical(0x4000)
    ensures PassesCanonicalTest(0x2000) && PassesCanonicalTest(0x3000) && PassesCanonicalTest(0x4000)
    ensures PageAddr(0x2000) && PageAddr(0x3000) && PageAddr(0x4000)
  {
  }

  /** The first page takes all three frames. */
  function FirstTables(p: Page): map<Node, Word> {
    map[Root := 0x1000, T3(p.l4) := 0x2000, T2(p.l4, p.l3) := 0x3000, TableOf(p) := 0x4000]
  }

  lemma FirstPath(p: Page)
    ensures GrowPath(EmptyTree(0x1000), [0x2000, 0x3000, 0x4000], p)
         == Outcome(Tree(FirstTables(p), map[]), [], NoError)
  {
  }

  lemma FirstTree(r: Request)
    requires PassesCanonicalTest(r.virt) && PageAddr(r.phys)
    ensures var p := PageOf(r.virt);
      TreeMap(EmptyTree(0x1000), [0x2000, 0x3000, 0x4000], r)
      == Outcome(Tree(FirstTables(p), map[p := TableEntry(r.phys, r.flags)]), [], NoError)
  {
    hide PageOf, PassesCanonicalTest, TableEntry, GrowPath, PageAddr;
    FirstPath(PageOf(r.virt));
    EntryFacts(r.phys, r.flags);
  }

  lemma LaterStep(pages: map<Page, Word>, a: Word)
    requires PassesCanonicalTest(a) && PageAddr(a) && PageOf(a).l4 == PageOf(a).l3 == PageOf(a).l2 == 0
    ensures var tables := FirstTables(Page(0, 0, 0, 2));
      TreeMap(Tree(tables, pages), [], ToItself(a)) ==
      Outcome(Tree(tables, pages[PageOf(a) := TableEntry(a, PRESENT | WRITE_BIT)]), [], NoError)
  {
    hide PageOf, PassesCanonicalTest, TableEntry, PageAddr;
    EntryFacts(a, PRESENT | WRITE_BIT);
  }

  lemma RunOfThree(t: Tree, frames: seq<Word>, reqs: seq<Request>)
    requires |reqs| == 3
    ensures var g1 := TreeMap(t, frames, reqs[0]);
      var g2 := TreeMap(g1.tree, g1.frames, reqs[1]);
      var g3 := TreeMap(g2.tree, g2.frames, reqs[2]);
      RunTree(t, frames, reqs).tree == g3.tree && RunTree(t, frames, reqs).frames == g3.frames
  {
    hide TreeMap;
    var g1 := TreeMap(t, frames, reqs[0]);
    var g2 := TreeMap(g1.tree, g1.frames, reqs[1]);
    assert RunTree(g2.tree, g2.frames, [reqs[2]]).tree == TreeMap(g2.tree, g2.frames, reqs[2]).tree;
    assert reqs[1..][1..] == [reqs[2]] && reqs[1..][0] == reqs[1];
    assert RunTree(g1.tree, g1.frames, reqs[1..]).tree == RunTree(g2.tree, g2.frames, [reqs[2]]).tree;
  }

  lemma ItselfIsMapped(pages: map<Page, Word>)
    requires forall a :: a in {0x2000 as Word, 0x3000, 0x4000} ==>
      PageOf(a) in pages && pages[PageOf(a)] == TableEntry(a, PRESENT | WRITE_BIT)
    ensures IdentityMapped(0x1000, Tree(FirstTables(Page(0, 0, 0, 2)), pages), [], {0x2000, 0x3000, 0x4000})
  {
    hide PageOf, TableEntry, Present, AddrOf, Canonical;
    SmallPages();
    EntryIsPresent(0x2000, PRESENT | WRITE_BIT);
    EntryIsPresent(0x3000, PRESENT | WRITE_BIT);
    EntryIsPresent(0x4000, PRESENT | WRITE_BIT);
  }

  /** Three forced calls, none of which reads through physical pointers, map the three frames to
      themselves: the condition of `RunSeenExactly` can be met. */
  lemma IdentityIsPossible()
    ensures var reqs := [ToItself(0x2000), ToItself(0x3000), ToItself(0x4000)];
      var (s', errors) := Run(WINDOWED, WindowedState(), reqs);
      exists t :: Good(WINDOWED, s', t) && IdentityMapped(0x1000, t, s'.frames, {0x2000, 0x3000, 0x4000})
  {
    hide PageOf, PassesCanonicalTest, TableEntry, PageAddr, TreeMap, Good, Present, AddrOf, Canonical, FirstTables;
    var reqs := [ToItself(0x2000), ToItself(0x3000), ToItself(0x4000)];
    var t := EmptyTree(0x1000);
    SmallPages();
    StartIsPossible();
    StartIsEmptyTree(WINDOWED, WindowedState());
    FirstTree(ToItself(0x2000));
    var e2, e3, e4 := TableEntry(0x2000, PRESENT | WRITE_BIT), TableEntry(0x3000, PRESENT | WRITE_BIT),
                      TableEntry(0x4000, PRESENT | WRITE_BIT);
    var pages1 := map[Page(0, 0, 0, 2) := e2];
    var pages2 := pages1[Page(0, 0, 0, 3) := e3];
    var pages3 := pages2[Page(0, 0, 0, 4) := e4];
    LaterStep(pages1, 0x3000);
    LaterStep(pages2, 0x4000);
    RunOfThree(t, [0x2000, 0x3000, 0x4000], reqs);
    RunRefines(WINDOWED, WindowedState(), t, reqs);
    ItselfIsMapped(pages3);
    assert RunTree(t, [0x2000, 0x3000, 0x4000], reqs).tree == Tree(FirstTables(Page(0, 0, 0, 2)), pages3);
  }

  /** If a table on the way exists and none of them is mapped, an unforced call faults. */
  lemma UnmappedTablesFault(c: Setting, s: State, t: Tree, r: Request)
    requires Represents(s.mem, c.root, t) && Admissible(PageOf(r.virt)) && T3(PageOf(r.virt).l4) in t.tables
    requires !r.force && PassesCanonicalTest(r.virt)
    requires forall n :: OnPath(t, PageOf(r.virt), n) ==> Deref(c, s.mem, t.tables[n]).PageFault?
    ensures MapSeen(c, s, r) == Faults
  {
    hide PageOf, PassesCanonicalTest, Translate, TranslateSeen, Represents, Deref;
    SeenExactly(c, s.mem, t, r.virt);
    assert OnPath(t, PageOf(r.virt), T3(PageOf(r.virt).l4));
  }

  lemma FirstTablesUnmapped(m: Memory, t: Tree, p: Page, q: Page)
    requires Represents(m, 0x1000, t) && t.tables == FirstTables(p) && t.pages.Keys == {p}
    requires p.l4 != 0 && q.l4 == p.l4
    ensures forall n :: OnPath(t, q, n) ==> Deref(WINDOWED, m, t.tables[n]).PageFault?
  {
    hide PageOf, Canonical, Represents, Deref, Present;
    SmallPages();
    forall n | OnPath(t, q, n)
      ensures Deref(WINDOWED, m, t.tables[n]).PageFault?
    {
      ZeroNotPresent();
      DerefExactly(WINDOWED, m, t, t.tables[n]);
    }
  }

  /** Without such mappings, the second call to a region faults if it is not forced. */
  lemma SecondCallFaults(r: Request, r': Request)
    requires r.virt == AddressOf(Page(2, 3, 4, 5)) && PageAddr(r.phys)
    requires r'.virt == AddressOf(Page(2, 3, 4, 6)) && !r'.force
    ensures var (s1, error) := MapEffect(WINDOWED, WindowedState(), r);
      error == NoError && MapSeen(WINDOWED, s1, r') == Faults
  {
    hide MapEffect, MapSeen, Translate, AddressOf, PassesCanonicalTest, PageOf, TreeMap, Canonical, PageAddr, Start,
      Deref, Present, TableEntry, Represents, OnPath, FreshFrames, ModeReady;
    var s, p := WindowedState(), Page(2, 3, 4, 5);
    SplitOfAddress(p);
    SplitOfAddress(Page(2, 3, 4, 6));
    CanonicalTestExactly(r.virt);
    CanonicalTestExactly(r'.virt);
    StartIsPossible();
    FirstMapping(WINDOWED, s, r);
    var s1 := MapEffect(WINDOWED, s, r).0;
    FirstTree(r);
    var t1 := Tree(FirstTables(p), map[p := TableEntry(r.phys, r.flags)]);
    FirstTablesUnmapped(s1.mem, t1, p, PageOf(r'.virt));
    UnmappedTablesFault(WINDOWED, s1, t1, r');
  }
}
