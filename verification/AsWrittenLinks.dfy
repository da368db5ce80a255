/**
 The parent links as written: the entry of a new L2 or L1 table goes into the root instead of
 the table above it.  This file says exactly when a call keeps the promise of `mapPage` all
 the same.
 */
module AsWrittenLinks {
  import opened PageEntry
  import opened VirtualAddress
  import opened PhysicalMemory
  import opened PageTables
  import opened PageTree
  import opened Refinement
  import opened RecursiveWindow
  import opened Runs

  /** The frames an allocator may give. */
  function Usable(frames: seq<Word>): set<Word> {
    set w | w in frames && w != 0
  }

  /** The promise: afterwards the words in memory represent some tree, on the old table frames
      and frames from the allocator, with the page added to the map and nothing else changed. */
  ghost predicate KeepsPromise(root: Word, t: Tree, frames: seq<Word>, m': Memory, p: Page, entry: Word) {
    exists t' :: Represents(m', root, t')
      && t'.tables.Values <= t.tables.Values + Usable(frames)
      && t'.pages == WithLeaf(t, p, entry).pages
  }

  /** The walk to a page breaks below the L3 table at frame `g`. */
  ghost predicate BrokenBelow(m: Memory, p: Page, g: Word, frames: set<Word>) {
    var e2 := Peek(m, g, p.l3);
    AddrOf(e2) !in frames || Peek(m, AddrOf(e2), p.l2) == 0
  }

  lemma BrokenIsNotMapped(m: Memory, root: Word, t: Tree, p: Page, g: Word)
    requires Represents(m, root, t) && Admissible(p)
    requires PageAddr(g) && Peek(m, root, p.l4) == Link(g)
    requires BrokenBelow(m, p, g, t.tables.Values)
    ensures p !in t.pages
  {
    hide Peek, AddrOf, Link, PageAddr, Injective;
    if TableOf(p) in t.tables {
      AncestorsExist(t, root, p);
      LinkFacts(g);
      ReadLink(m, root, t, Root, p.l4);
      ReadLink(m, root, t, T3(p.l4), p.l3);
      assert t.tables[T2(p.l4, p.l3)] in t.tables.Values;
      ReadLink(m, root, t, T2(p.l4, p.l3), p.l2);
    }
  }

  /** Some L3 table is linked for the page, but the walk breaks below it. */
  ghost predicate Broken(m: Memory, root: Word, p: Page, frames: set<Word>) {
    exists g :: PageAddr(g) && Peek(m, root, p.l4) == Link(g) && BrokenBelow(m, p, g, frames)
  }

  /** The indices for which a walk that takes the new L1 table for the L3 table meets the new leaf
      entry in it. */
  predicate BackToLeaf(p: Page) {
    p.l2 == p.l4 && p.l1 == p.l3
  }

  /** The L1 table `f1` is new and linked from the root: `m2` is the memory before, `m1` the
      memory after.  If the walk was broken below `g` before, it is broken afterwards. */
  lemma BreaksAtL1(m2: Memory, m1: Memory, root: Word, p: Page, f1: Word, entry: Word, frames: set<Word>, g: Word)
    requires Admissible(p) && PageAddr(f1) && f1 != root && PageAddr(g) && g != f1 && g != root
    requires HungAs(m2, m1, f1, root, p.l2)
    requires (BackToLeaf(p) ==> AddrOf(entry) !in frames) && 0 !in frames
    requires Peek(m2, root, p.l4) == Link(g)
    requires var a := AddrOf(Peek(m2, g, p.l3));
      a !in frames || (a != root && a != f1 && Peek(m2, a, p.l2) == 0)
    ensures Broken(Poke(m1, f1, p.l1, entry), root, p, frames)
  {
    hide Peek, Poke, AddrOf, Link, PageAddr;
    var m' := Poke(m1, f1, p.l1, entry);
    var h := if p.l2 == p.l4 then f1 else g;
    PeekPoke(m1, f1, p.l1, entry, root, p.l4);
    PeekPoke(m1, f1, p.l1, entry, g, p.l3);
    PeekPoke(m1, f1, p.l1, entry, f1, p.l3);
    PeekPoke(m1, f1, p.l1, entry, AddrOf(Peek(m2, g, p.l3)), p.l2);
    ZeroEntry();
    assert Peek(m', root, p.l4) == Link(h) && BrokenBelow(m', p, h, frames);
  }

  ghost predicate AsWritten(c: Setting) {
    c.links.AsWritten? && c.pagingDisabledNow
  }

  /** If the walk can come back to the leaf, it does: the root leads to the new L1 table, which
      holds the leaf entry where the walk looks for the L2 table. */
  ghost predicate LoopsBack(m: Memory, root: Word, p: Page, entry: Word) {
    BackToLeaf(p) ==> AddrOf(Peek(m, AddrOf(Peek(m, root, p.l4)), p.l3)) == AddrOf(entry)
  }

  lemma InstallInL2Breaks(c: Setting, s: State, l2: Word, p: Page, entry: Word, force: bool, frames: set<Word>, g: Word)
    requires AsWritten(c) && Admissible(p)
    requires Peek(s.mem, l2, p.l2) == 0 && InstallInL2(c, s, l2, p, entry, force).1 == NoError
    requires var f1 := NextFrame(s.frames);
      f1 != 0 ==> PageAddr(f1) && f1 != c.root && f1 != g && f1 != AddrOf(Peek(s.mem, g, p.l3))
    requires PageAddr(g) && g != c.root && Peek(s.mem, c.root, p.l4) == Link(g)
    requires (BackToLeaf(p) ==> AddrOf(entry) !in frames) && 0 !in frames
    requires var a := AddrOf(Peek(s.mem, g, p.l3));
      a !in frames || (a != c.root && Peek(s.mem, a, p.l2) == 0)
    ensures Broken(InstallInL2(c, s, l2, p, entry, force).0.mem, c.root, p, frames)
    ensures LoopsBack(InstallInL2(c, s, l2, p, entry, force).0.mem, c.root, p, entry)
  {
    hide Peek, Poke, AddrOf, Link, PageAddr, NewTable, Broken;
    var f1 := NextFrame(s.frames);
    if f1 != 0 {
      LinkFacts(f1);
      NewTableAnywhere(c, s.mem, f1, c.root, p.l2, WindowL1(p));
      var m1 := NewTable(c, s.mem, f1, c.root, p.l2, WindowL1(p));
      BreaksAtL1(s.mem, m1, c.root, p, f1, entry, frames, g);
      PeekPoke(m1, f1, p.l1, entry, c.root, p.l4);
      PeekPoke(m1, f1, p.l1, entry, f1, p.l3);
    }
  }

  lemma NextFrameFresh(frames: seq<Word>, tables: map<Node, Word>)
    requires FreshFrames(frames, tables)
    ensures NextFrame(frames) != 0 ==> PageAddr(NextFrame(frames)) && NextFrame(frames) !in tables.Values
    ensures NextFrame(LaterFrames(frames)) != 0 ==>
      && PageAddr(NextFrame(LaterFrames(frames))) && NextFrame(LaterFrames(frames)) !in tables.Values
      && (NextFrame(frames) != 0 ==> NextFrame(LaterFrames(frames)) != NextFrame(frames))
  {
    hide PageAddr;
  }

  /** The L2 table exists: only the L1 table is new. */
  lemma BreaksWithL2(c: Setting, s: State, t: Tree, p: Page, entry: Word, force: bool, frames: set<Word>)
    requires AsWritten(c) && Good(c, s, t) && Admissible(p)
    requires T2(p.l4, p.l3) in t.tables && TableOf(p) !in t.tables
    requires (BackToLeaf(p) ==> AddrOf(entry) !in frames) && 0 !in frames
    requires InstallInL2(c, s, t.tables[T2(p.l4, p.l3)], p, entry, force).1 == NoError
    ensures Broken(InstallInL2(c, s, t.tables[T2(p.l4, p.l3)], p, entry, force).0.mem, c.root, p, frames)
    ensures LoopsBack(InstallInL2(c, s, t.tables[T2(p.l4, p.l3)], p, entry, force).0.mem, c.root, p, entry)
  {
    hide Peek, AddrOf, Link, PageAddr, InstallInL2, Broken, LoopsBack, Expected, ParentsExist, LeavesAttached;
    var g3, g2 := T3(p.l4), T2(p.l4, p.l3);
    AncestorsExist(t, c.root, p);
    ReadLink(s.mem, c.root, t, Root, p.l4);
    ReadLink(s.mem, c.root, t, g3, p.l3);
    ReadLink(s.mem, c.root, t, g2, p.l2);
    assert t.tables[g3] != c.root && t.tables[g2] != c.root;
    NextFrameFresh(s.frames, t.tables);
    assert t.tables[Root] in t.tables.Values && t.tables[g3] in t.tables.Values && t.tables[g2] in t.tables.Values;
    InstallInL2Breaks(c, s, t.tables[g2], p, entry, force, frames, t.tables[g3]);
  }

  /** The L2 table is missing: it and the L1 table are new. */
  lemma BreaksWithoutL2(c: Setting, s: State, t: Tree, p: Page, entry: Word, force: bool, frames: set<Word>)
    requires AsWritten(c) && Good(c, s, t) && Admissible(p)
    requires T3(p.l4) in t.tables && T2(p.l4, p.l3) !in t.tables
    requires (BackToLeaf(p) ==> AddrOf(entry) !in frames) && 0 !in frames
    requires InstallInL3(c, s, t.tables[T3(p.l4)], p, entry, force).1 == NoError
    ensures Broken(InstallInL3(c, s, t.tables[T3(p.l4)], p, entry, force).0.mem, c.root, p, frames)
    ensures LoopsBack(InstallInL3(c, s, t.tables[T3(p.l4)], p, entry, force).0.mem, c.root, p, entry)
  {
    hide Peek, AddrOf, Link, PageAddr, InstallInL2, Broken, LoopsBack, Expected, ParentsExist, LeavesAttached, NewTable;
    var l3 := t.tables[T3(p.l4)];
    ReadLink(s.mem, c.root, t, Root, p.l4);
    ReadLink(s.mem, c.root, t, T3(p.l4), p.l3);
    assert l3 != c.root;
    NextFrameFresh(s.frames, t.tables);
    assert t.tables[Root] in t.tables.Values && l3 in t.tables.Values;
    var f2 := NextFrame(s.frames);
    NonZeroLink(f2);
    if f2 != 0 {
      LinkFacts(f2);
      NewTableAnywhere(c, s.mem, f2, c.root, p.l3, WindowL2(p));
      var m2 := NewTable(c, s.mem, f2, c.root, p.l3, WindowL2(p));
      var g := if p.l3 == p.l4 then f2 else l3;
      ZeroEntry();
      assert Peek(m2, g, p.l3) == 0 && Peek(m2, f2, p.l2) == 0 && Peek(m2, c.root, p.l4) == Link(g);
      InstallInL2Breaks(c, State(m2, LaterFrames(s.frames)), f2, p, entry, force, frames, g);
    }
  }

  /** A table that exists is found, wherever new links would go. */
  lemma ExistingTable(c: Setting, s: State, t: Tree, n: Node, i: Index, linkInto: Word)
    requires Good(c, s, t) && n in t.tables && !n.T1? && i != RECURSIVE_INDEX && Child(n, i) in t.tables
    ensures var (s', e) := EnsureTable(c, s, t.tables[n], i, linkInto, WindowOf(n, i));
      s' == s && e != 0 && TablePointer(c, s.mem, e, WindowOf(n, i)) == t.tables[Child(n, i)]
  {
    hide Peek, AddrOf, Link, PageAddr, NewTable, Represents, TablePointer, WindowOf, FreshFrames, SelfMapped;
    ReadLink(s.mem, c.root, t, n, i);
    ExistingPointer(c, s.mem, t, n, i);
  }

  lemma InstallBreaks(c: Setting, s: State, t: Tree, p: Page, entry: Word, force: bool, frames: set<Word>)
    requires AsWritten(c) && Good(c, s, t) && Admissible(p) && TableOf(p) !in t.tables
    requires (BackToLeaf(p) ==> AddrOf(entry) !in frames) && 0 !in frames
    requires Install(c, s, p, entry, force).1 == NoError
    ensures Broken(Install(c, s, p, entry, force).0.mem, c.root, p, frames)
    ensures LoopsBack(Install(c, s, p, entry, force).0.mem, c.root, p, entry)
  {
    hide Peek, AddrOf, Link, PageAddr, InstallInL2, Broken, LoopsBack, Represents, FreshFrames, EnsureTable,
      TablePointer;
    assert Root in t.tables && t.tables[Root] == c.root by {
      RootIsTable(s.mem, c.root, t);
    }
    EnsureRefines(c, s, t, Root, p.l4);
    var (s3, e3) := EnsureTable(c, s, c.root, p.l4, c.root, WindowL3(p));
    if e3 != 0 {
      var t3 := Grow(t, s.frames, Root, p.l4).tree;
      GrowAddsOnlyChild(t, s.frames, Root, p.l4, TableOf(p));
      if T2(p.l4, p.l3) in t3.tables {
        ExistingTable(c, s3, t3, T3(p.l4), p.l3, LinkTarget(c, t3.tables[T3(p.l4)]));
        BreaksWithL2(c, s3, t3, p, entry, force, frames);
      } else {
        BreaksWithoutL2(c, s3, t3, p, entry, force, frames);
      }
    }
  }

  lemma PathExists(m: Memory, root: Word, t: Tree, p: Page)
    requires Represents(m, root, t) && TableOf(p) in t.tables
    ensures T2(p.l4, p.l3) in t.tables && T3(p.l4) in t.tables
  {
    AncestorsExist(t, root, p);
  }

  /** With all tables in place the style of the links does not matter. */
  lemma InstallInPlace(c: Setting, s: State, t: Tree, p: Page, entry: Word, force: bool)
    requires Good(c, s, t) && Admissible(p) && TableOf(p) in t.tables
    ensures Install(c, s, p, entry, force) == WriteLeaf(s, t.tables[TableOf(p)], p.l1, entry, force)
  {
    hide EnsureTable, TablePointer, Link, PageAddr, Peek, Poke, WriteLeaf, Represents, FreshFrames, ModeReady;
    RootIsTable(s.mem, c.root, t);
    PathExists(s.mem, c.root, t, p);
    ExistingTable(c, s, t, Root, p.l4, c.root);
    ExistingTable(c, s, t, T3(p.l4), p.l3, LinkTarget(c, t.tables[T3(p.l4)]));
    ExistingTable(c, s, t, T2(p.l4, p.l3), p.l2, LinkTarget(c, t.tables[T2(p.l4, p.l3)]));
  }

  /** In both modes a successful call for a page whose L1 table exists keeps the promise. */
  lemma PromiseKept(c: Setting, s: State, t: Tree, p: Page, entry: Word, force: bool)
    requires Good(c, s, t) && Admissible(p) && TableOf(p) in t.tables
    requires Install(c, s, p, entry, force).1 == NoError
    ensures KeepsPromise(c.root, t, s.frames, Install(c, s, p, entry, force).0.mem, p, entry)
  {
    hide Peek, Poke, Link, PageAddr, Install, FreshFrames, IsTree, ModeReady;
    InstallInPlace(c, s, t, p, entry, force);
    LeafRepresents(s.mem, c.root, t, p, entry);
    assert Represents(Poke(s.mem, t.tables[TableOf(p)], p.l1, entry), c.root, WithLeaf(t, p, entry));
    assert WithLeaf(t, p, entry).tables.Values <= t.tables.Values + Usable(s.frames);
  }

  lemma AddrNotInTree(t: Tree, t': Tree, frames: seq<Word>, a: Word)
    requires t'.tables.Values <= t.tables.Values + Usable(frames) && a !in t.tables.Values && a !in frames
    ensures a !in t'.tables.Values
  {
  }

  lemma NoTableAtZero(m: Memory, root: Word, t: Tree)
    requires Represents(m, root, t)
    ensures 0 !in t.tables.Values
  {
    hide Peek, Link, Injective, ParentsExist, LeavesAttached;
    forall n | n in t.tables
      ensures t.tables[n] != 0
    {
      assert PageAddr(t.tables[n]);
    }
  }

  lemma PromiseBroken(c: Setting, s: State, t: Tree, p: Page, entry: Word, force: bool)
    requires AsWritten(c) && Good(c, s, t) && Admissible(p) && TableOf(p) !in t.tables
    requires entry != 0
    requires BackToLeaf(p) ==> AddrOf(entry) !in t.tables.Values && AddrOf(entry) !in s.frames
    requires Install(c, s, p, entry, force).1 == NoError
    ensures !KeepsPromise(c.root, t, s.frames, Install(c, s, p, entry, force).0.mem, p, entry)
  {
    hide Peek, AddrOf, Link, PageAddr, Install, FreshFrames, Represents;
    var m' := Install(c, s, p, entry, force).0.mem;
    forall t' | Represents(m', c.root, t') && t'.tables.Values <= t.tables.Values + Usable(s.frames)
      ensures p !in t'.pages
    {
      NoTableAtZero(m', c.root, t');
      if BackToLeaf(p) {
        AddrNotInTree(t, t', s.frames, AddrOf(entry));
      }
      InstallBreaks(c, s, t, p, entry, force, t'.tables.Values);
      var g :| PageAddr(g) && Peek(m', c.root, p.l4) == Link(g) && BrokenBelow(m', p, g, t'.tables.Values);
      BrokenIsNotMapped(m', c.root, t', p, g);
    }
    assert p in WithLeaf(t, p, entry).pages;
  }

  /** With paging disabled, a successful call of the code as written keeps the promise exactly
      when it creates neither an L2 nor an L1 table, that is, when the L1 table of the page exists
      beforehand.  The physical page must not be one of the frames used for tables if the walk
      can come back to the leaf. */
  lemma AsWrittenKeepsPromiseExactly(c: Setting, s: State, t: Tree, r: Request)
    requires AsWritten(c) && Good(c, s, t) && Admissible(PageOf(r.virt)) && PageAddr(r.phys)
    requires BackToLeaf(PageOf(r.virt)) ==> r.phys !in t.tables.Values && r.phys !in s.frames
    requires MapEffect(c, s, r).1 == NoError
    ensures KeepsPromise(c.root, t, s.frames, MapEffect(c, s, r).0.mem, PageOf(r.virt), TableEntry(r.phys, r.flags))
      <==> TableOf(PageOf(r.virt)) in t.tables
  {
    var p, entry := PageOf(r.virt), TableEntry(r.phys, r.flags);
    var s' := MapEffect(c, s, r).0;
    GoodRepresents(c, s, t);
    SuccessInstalls(c, s, r);
    EntryFacts(r.phys, r.flags);
    if TableOf(p) in t.tables {
      PromiseKept(c, s, t, p, entry, r.force);
    } else {
      PromiseBroken(c, s, t, p, entry, r.force);
    }
  }

  // ---------------------------------------------------------------------
  // With paging enabled
  // ---------------------------------------------------------------------

  ghost predicate WindowFaults(m: Memory, root: Word, window: Page) {
    HardwareWalk(m, root, PageOf(WindowAddress(window))).Fault?
  }

  /** The block takes a frame, links it from the root, and then faults on the self slot of the
      new table, which it reaches through the window. */
  ghost predicate BlockFaults(c: Setting, s: State, parent: Word, slot: Index, window: Page) {
    && Peek(s.mem, parent, slot) == 0 && NextFrame(s.frames) != 0
    && WindowFaults(Poke(s.mem, c.root, slot, Link(NextFrame(s.frames))), c.root, window)
  }

  /** The block for the L2 table faults, or the one for the L1 table. */
  ghost predicate CallFaults(c: Setting, s: State, p: Page) {
    var (s3, e3) := EnsureTable(c, s, c.root, p.l4, c.root, WindowL3(p));
    var l3 := TablePointer(c, s3.mem, e3, WindowL3(p));
    var (s2, e2) := EnsureTable(c, s3, l3, p.l3, c.root, WindowL2(p));
    var l2 := TablePointer(c, s2.mem, e2, WindowL2(p));
    && e3 != 0
    && (BlockFaults(c, s3, l3, p.l3, WindowL2(p)) || (e2 != 0 && BlockFaults(c, s2, l2, p.l2, WindowL1(p))))
  }

  /** A fresh frame reads as zeros, also after a store into the root. */
  lemma NewFrameReads(c: Setting, s: State, t: Tree, slot: Index, p: Page)
    requires Good(c, s, t) && !c.pagingDisabledNow && NextFrame(s.frames) != 0
    ensures var f := NextFrame(s.frames);
      PageAddr(f) && AddrOf(Link(f)) == f && Peek(Poke(s.mem, c.root, slot, Link(f)), f, p.l3) == 0
  {
    hide Peek, Poke, AddrOf, Link, PageAddr, SelfMapped, IsTree;
    var f := NextFrame(s.frames);
    assert f == s.frames[0];
    RootIsTable(s.mem, c.root, t);
    assert c.root in t.tables.Values;
    LinkFacts(f);
    PeekPoke(s.mem, c.root, slot, Link(f), f, p.l3);
  }

  /** The new L2 table is not below the L3 table, so the window does not show it. */
  lemma L2BlockFaults(c: Setting, s: State, t: Tree, p: Page)
    requires Good(c, s, t) && !c.pagingDisabledNow && Admissible(p)
    requires T3(p.l4) in t.tables && T2(p.l4, p.l3) !in t.tables
    ensures BlockFaults(c, s, t.tables[T3(p.l4)], p.l3, WindowL2(p)) <==> NextFrame(s.frames) != 0
  {
    hide Peek, Poke, AddrOf, Link, PageAddr, Present, HardwareWalk, PageOf, WindowAddress, SelfMapped, IsTree;
    var f := NextFrame(s.frames);
    RootIsTable(s.mem, c.root, t);
    ReadLink(s.mem, c.root, t, Root, p.l4);
    ReadLink(s.mem, c.root, t, T3(p.l4), p.l3);
    if f != 0 {
      var linked := Poke(s.mem, c.root, p.l3, Link(f));
      NewFrameReads(c, s, t, p.l3, p);
      PokeKeepsSelfMap(s.mem, c.root, c.root, p.l3, Link(f));
      WindowReachesTables(linked, c.root, p);
      WindowAddressAsWritten(WindowL2(p));
      ZeroNotPresent();
      TableIsNotRoot(s.mem, c.root, t, T3(p.l4));
      PeekPoke(s.mem, c.root, p.l3, Link(f), c.root, p.l4);
      PeekPoke(s.mem, c.root, p.l3, Link(f), t.tables[T3(p.l4)], p.l3);
    }
  }

  lemma L1BlockFaults(c: Setting, s: State, t: Tree, p: Page)
    requires Good(c, s, t) && !c.pagingDisabledNow && Admissible(p)
    requires T3(p.l4) in t.tables && T2(p.l4, p.l3) in t.tables && TableOf(p) !in t.tables
    ensures BlockFaults(c, s, t.tables[T2(p.l4, p.l3)], p.l2, WindowL1(p)) <==> NextFrame(s.frames) != 0
  {
    hide Peek, Poke, AddrOf, Link, PageAddr, Present, HardwareWalk, PageOf, WindowAddress, SelfMapped, IsTree;
    var f := NextFrame(s.frames);
    RootIsTable(s.mem, c.root, t);
    ReadLink(s.mem, c.root, t, Root, p.l4);
    ReadLink(s.mem, c.root, t, T3(p.l4), p.l3);
    ReadLink(s.mem, c.root, t, T2(p.l4, p.l3), p.l2);
    if f != 0 {
      var linked := Poke(s.mem, c.root, p.l2, Link(f));
      NewFrameReads(c, s, t, p.l2, p);
      PokeKeepsSelfMap(s.mem, c.root, c.root, p.l2, Link(f));
      WindowReachesTables(linked, c.root, p);
      WindowAddressAsWritten(WindowL1(p));
      ZeroNotPresent();
      TableIsNotRoot(s.mem, c.root, t, T3(p.l4));
      TableIsNotRoot(s.mem, c.root, t, T2(p.l4, p.l3));
      PeekPoke(s.mem, c.root, p.l2, Link(f), c.root, p.l4);
      PeekPoke(s.mem, c.root, p.l2, Link(f), t.tables[T3(p.l4)], p.l3);
      PeekPoke(s.mem, c.root, p.l2, Link(f), t.tables[T2(p.l4, p.l3)], p.l2);
    }
  }

  lemma FaultsBelowL3(c: Setting, s: State, t: Tree, p: Page)
    requires !c.pagingDisabledNow && Good(c, s, t) && Admissible(p) && T3(p.l4) in t.tables
    ensures var l3 := t.tables[T3(p.l4)];
      var (s2, e2) := EnsureTable(c, s, l3, p.l3, c.root, WindowL2(p));
      var l2 := TablePointer(c, s2.mem, e2, WindowL2(p));
      BlockFaults(c, s, l3, p.l3, WindowL2(p)) || (e2 != 0 && BlockFaults(c, s2, l2, p.l2, WindowL1(p)))
      <==> TableOf(p) !in t.tables && NextFrame(s.frames) != 0
  {
    hide Peek, AddrOf, Link, PageAddr, TablePointer, NewTable, Represents, FreshFrames, ModeReady, WindowFaults;
    var l3 := t.tables[T3(p.l4)];
    ReadLink(s.mem, c.root, t, T3(p.l4), p.l3);
    if T2(p.l4, p.l3) in t.tables {
      ExistingTable(c, s, t, T3(p.l4), p.l3, c.root);
      ReadLink(s.mem, c.root, t, T2(p.l4, p.l3), p.l2);
      if TableOf(p) !in t.tables {
        L1BlockFaults(c, s, t, p);
      }
    } else {
      L2BlockFaults(c, s, t, p);
      if TableOf(p) in t.tables {
        PathExists(s.mem, c.root, t, p);
      }
    }
  }

  /** With paging enabled, the code as written faults exactly when the L1 table of the page does
      not exist and the allocator has frames up to the first table below the L3 table.  If the L1
      table exists, a successful call keeps the promise (`PromiseKept`). */
  lemma EnabledFaultsExactly(c: Setting, s: State, t: Tree, p: Page)
    requires c.links.AsWritten? && !c.pagingDisabledNow && Good(c, s, t) && Admissible(p)
    ensures CallFaults(c, s, p) <==>
      TableOf(p) !in t.tables && Supplies(s.frames, if T3(p.l4) in t.tables then 1 else 2)
  {
    hide Peek, AddrOf, Link, PageAddr, EnsureTable, TablePointer, BlockFaults, Represents, FreshFrames, ModeReady;
    RootIsTable(s.mem, c.root, t);
    EnsureRefines(c, s, t, Root, p.l4);
    var (s3, e3) := EnsureTable(c, s, c.root, p.l4, c.root, WindowL3(p));
    if e3 != 0 {
      var t3 := Grow(t, s.frames, Root, p.l4).tree;
      GrowAddsOnlyChild(t, s.frames, Root, p.l4, TableOf(p));
      GrowAddsOnlyChild(t, s.frames, Root, p.l4, T2(p.l4, p.l3));
      FaultsBelowL3(c, s3, t3, p);
      if TableOf(p) in t.tables {
        PathExists(s.mem, c.root, t, p);
      }
    }
  }

  // ---------------------------------------------------------------------
  // What the caller sees
  // ---------------------------------------------------------------------

  lemma LeafReads(m: Memory, root: Word, t: Tree, p: Page, entry: Word, v: VAddr)
    requires Represents(m, root, t) && Admissible(p) && PageOf(v) == p && TableOf(p) in t.tables
    ensures Translate(Poke(m, t.tables[TableOf(p)], p.l1, entry), root, v) == AddrOf(entry)
  {
    hide Peek, Poke, Link, PageAddr, AddrOf, PageOf, Represents, Translate;
    ZeroEntry();
    LeafRepresents(m, root, t, p, entry);
    TranslateReadsLeaf(Poke(m, t.tables[TableOf(p)], p.l1, entry), root, WithLeaf(t, p, entry), v);
  }

  lemma NotZero(a: Word)
    requires PageAddr(a)
    ensures a != 0
  {
  }

  /** A walk that breaks for all frames but the leaf's own ends in 0, or comes back to the leaf and
      goes on in the data page. */
  lemma BrokenTranslates(m: Memory, root: Word, p: Page, entry: Word, v: VAddr)
    requires PageOf(v) == p && LoopsBack(m, root, p, entry)
    requires var a2 := AddrOf(Peek(m, AddrOf(Peek(m, root, p.l4)), p.l3));
      Broken(m, root, p, if BackToLeaf(p) then {} else {a2} - {0})
    ensures Translate(m, root, v) == if BackToLeaf(p) && AddrOf(entry) != 0 then From2(m, AddrOf(entry), p) else 0
  {
    hide Peek, Link, PageAddr, AddrOf, PageOf;
    var a2 := AddrOf(Peek(m, AddrOf(Peek(m, root, p.l4)), p.l3));
    var g :| PageAddr(g) && Peek(m, root, p.l4) == Link(g)
          && BrokenBelow(m, p, g, if BackToLeaf(p) then {} else {a2} - {0});
    LinkFacts(g);
    assert g != 0 by {
      NotZero(g);
    }
    ZeroEntry();
  }

  /** With paging disabled and the links as written, what a successful call makes of its own page,
      in every represented state: the requested page if the L1 table was there, and otherwise 0,
      unless the walk comes back to the leaf and reads the data page as an L2 table. */
  lemma AsWrittenTranslatesExactly(c: Setting, s: State, t: Tree, r: Request)
    requires AsWritten(c) && Good(c, s, t) && Admissible(PageOf(r.virt)) && MapEffect(c, s, r).1 == NoError
    ensures var p := PageOf(r.virt);
      var m' := MapEffect(c, s, r).0.mem;
      Translate(m', c.root, r.virt) ==
        if TableOf(p) in t.tables then PagePart(r.phys)
        else if BackToLeaf(p) && PagePart(r.phys) != 0 then From2(m', PagePart(r.phys), p)
        else 0
  {
    hide Peek, Poke, AddrOf, Link, PageAddr, Install, FreshFrames, Represents, PageOf, Translate, MapEffect, Broken,
      LoopsBack, TableEntry, PagePart;
    var p, entry := PageOf(r.virt), TableEntry(r.phys, r.flags);
    var m' := MapEffect(c, s, r).0.mem;
    SuccessInstalls(c, s, r);
    EntryAddress(r.phys, r.flags);
    if TableOf(p) in t.tables {
      InstallInPlace(c, s, t, p, entry, r.force);
      LeafReads(s.mem, c.root, t, p, entry, r.virt);
    } else {
      var a2 := AddrOf(Peek(m', AddrOf(Peek(m', c.root, p.l4)), p.l3));
      InstallBreaks(c, s, t, p, entry, r.force, if BackToLeaf(p) then {} else {a2} - {0});
      BrokenTranslates(m', c.root, p, entry, r.virt);
    }
  }

  lemma InstallInL2Succeeds(c: Setting, s: State, l2: Word, p: Page, entry: Word, force: bool)
    requires AsWritten(c) && Admissible(p) && Peek(s.mem, l2, p.l2) == 0
    requires var f := NextFrame(s.frames); f != 0 ==> PageAddr(f) && f != c.root
    ensures InstallInL2(c, s, l2, p, entry, force).1 == if NextFrame(s.frames) == 0 then AllocFailed else NoError
  {
    hide Peek, Poke, AddrOf, Link, PageAddr, NewTable;
    var f := NextFrame(s.frames);
    if f != 0 {
      LinkFacts(f);
      NewTableAnywhere(c, s.mem, f, c.root, p.l2, WindowL1(p));
    }
  }

  lemma InstallInL3Succeeds(c: Setting, s: State, t: Tree, p: Page, entry: Word, force: bool)
    requires AsWritten(c) && Good(c, s, t) && Admissible(p) && T3(p.l4) in t.tables && TableOf(p) !in t.tables
    ensures InstallInL3(c, s, t.tables[T3(p.l4)], p, entry, force).1
         == if Supplies(s.frames, Missing(t, p)) then NoError else AllocFailed
  {
    hide Peek, AddrOf, Link, PageAddr, InstallInL2, NewTable, Represents, IsTree;
    var l3, f := t.tables[T3(p.l4)], NextFrame(s.frames);
    RootIsTable(s.mem, c.root, t);
    assert c.root in t.tables.Values;
    NextFrameFresh(s.frames, t.tables);
    ReadLink(s.mem, c.root, t, T3(p.l4), p.l3);
    if T2(p.l4, p.l3) in t.tables {
      ReadLink(s.mem, c.root, t, T2(p.l4, p.l3), p.l2);
      InstallInL2Succeeds(c, s, t.tables[T2(p.l4, p.l3)], p, entry, force);
    } else if f != 0 {
      LinkFacts(f);
      NewTableAnywhere(c, s.mem, f, c.root, p.l3, WindowL2(p));
      var m2 := NewTable(c, s.mem, f, c.root, p.l3, WindowL2(p));
      InstallInL2Succeeds(c, State(m2, LaterFrames(s.frames)), f, p, entry, force);
    }
  }

  lemma PathParents(m: Memory, root: Word, t: Tree, p: Page)
    requires Represents(m, root, t)
    ensures T2(p.l4, p.l3) in t.tables ==> T3(p.l4) in t.tables
  {
    AncestorsExist(t, root, p);
  }

  lemma InstallSucceeds(c: Setting, s: State, t: Tree, p: Page, entry: Word, force: bool)
    requires AsWritten(c) && Good(c, s, t) && Admissible(p) && TableOf(p) !in t.tables
    ensures Install(c, s, p, entry, force).1 == if Supplies(s.frames, Missing(t, p)) then NoError else AllocFailed
  {
    hide Peek, AddrOf, Link, PageAddr, Represents, FreshFrames, EnsureTable, TablePointer, InstallInL3;
    RootIsTable(s.mem, c.root, t);
    EnsureRefines(c, s, t, Root, p.l4);
    var (s3, e3) := EnsureTable(c, s, c.root, p.l4, c.root, WindowL3(p));
    PathParents(s.mem, c.root, t, p);
    if e3 != 0 {
      var t3 := Grow(t, s.frames, Root, p.l4).tree;
      GrowAddsOnlyChild(t, s.frames, Root, p.l4, TableOf(p));
      GrowAddsOnlyChild(t, s.frames, Root, p.l4, T2(p.l4, p.l3));
      InstallInL3Succeeds(c, s3, t3, p, entry, force);
    }
  }

  lemma NothingMissing(m: Memory, root: Word, t: Tree, frames: seq<Word>, p: Page)
    requires Represents(m, root, t) && TableOf(p) in t.tables && Admissible(p)
    ensures Supplies(frames, Missing(t, p))
    ensures Peek(m, t.tables[TableOf(p)], p.l1) == LeafOf(t.pages, p)
    ensures p in t.pages <==> LeafOf(t.pages, p) != 0
  {
    hide Peek, Link, PageAddr;
    PathExists(m, root, t, p);
    assert Peek(m, t.tables[TableOf(p)], p.l1) == Expected(t, TableOf(p), p.l1);
  }

  lemma NoLeafWithoutTable(m: Memory, root: Word, t: Tree, p: Page)
    requires Represents(m, root, t) && TableOf(p) !in t.tables
    ensures p !in t.pages
  {
  }

  /** All the same the call reports success exactly when the repaired code does. */
  lemma AsWrittenSucceedsExactly(c: Setting, s: State, t: Tree, r: Request)
    requires AsWritten(c) && Good(c, s, t) && Admissible(PageOf(r.virt))
    ensures MapEffect(c, s, r).1 == NoError <==>
      && PassesCanonicalTest(r.virt)
      && (r.force || PageOf(r.virt) !in t.pages)
      && Supplies(s.frames, Missing(t, PageOf(r.virt)))
  {
    hide PageOf, PassesCanonicalTest, Translate, Install, TableEntry, Supplies, Missing, FreshFrames, Represents,
      AddrOf;
    var p, entry := PageOf(r.virt), TableEntry(r.phys, r.flags);
    ZeroEntry();
    TranslateReadsLeaf(s.mem, c.root, t, r.virt);
    if TableOf(p) in t.tables {
      InstallInPlace(c, s, t, p, entry, r.force);
      NothingMissing(s.mem, c.root, t, s.frames, p);
    } else {
      InstallSucceeds(c, s, t, p, entry, r.force);
      NoLeafWithoutTable(s.mem, c.root, t, p);
    }
  }

  /** The first call on any zeroed root reports success, and its page does not translate. */
  lemma FirstMappingDoesNotTranslate(c: Setting, s: State, r: Request)
    requires AsWritten(c) && Start(c, s) && Supplies(s.frames, 3)
    requires Admissible(PageOf(r.virt)) && !BackToLeaf(PageOf(r.virt)) && PassesCanonicalTest(r.virt)
    ensures var (s', error) := MapEffect(c, s, r);
      error == NoError && Translate(s'.mem, c.root, r.virt) == 0
  {
    hide PageOf, MapEffect, Translate, PassesCanonicalTest, Start, Good, PagePart, From2;
    StartIsEmptyTree(c, s);
    AsWrittenSucceedsExactly(c, s, EmptyTree(c.root), r);
    AsWrittenTranslatesExactly(c, s, EmptyTree(c.root), r);
  }

  lemma AsWrittenLinksCounterexample()
    ensures var c := Setting(0x1000, Links.AsWritten, true);
      var s := State(map[], [0x2000, 0x3000, 0x4000]);
      var r := Request(AddressOf(Page(2, 3, 4, 5)), 0x9000, PRESENT | WRITE_BIT, true);
      MapEffect(c, s, r).1 == NoError && Translate(MapEffect(c, s, r).0.mem, 0x1000, r.virt) == 0
  {
    hide MapEffect, Translate, AddressOf, PassesCanonicalTest;
    var c := Setting(0x1000, Links.AsWritten, true);
    var s := State(map[], [0x2000, 0x3000, 0x4000]);
    var p := Page(2, 3, 4, 5);
    SplitOfAddress(p);
    CanonicalTestExactly(AddressOf(p));
    assert Start(c, s);
    FirstMappingDoesNotTranslate(c, s, Request(AddressOf(p), 0x9000, PRESENT | WRITE_BIT, true));
  }
}
