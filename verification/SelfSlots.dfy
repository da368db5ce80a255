/**
 Pages with an index 1.  Slot 1 of every table leads back to the table, so the walk to such a
 page stays behind by one level for each index 1: it ends in a table that is no L1 table, or in
 a self slot.  This file says what such a page translates to, what a request for one does to
 memory, and exactly when it leaves the pages of others alone.
 */
module SelfSlots {
  import opened PageEntry
  import opened VirtualAddress
  import opened PhysicalMemory
  import opened PageTables
  import opened PageTree
  import opened RecursiveWindow
  import opened Refinement
  import opened Footprint
  import opened Runs

  /** The table that a slot of table `n` leads to. */
  function StepNode(n: Node, i: Index): Node
    requires i == RECURSIVE_INDEX || !n.T1?
  {
    if i == RECURSIVE_INDEX then n else Child(n, i)
  }

  // The tables in which the walk to a page looks up its second, third and fourth index.
  function Node3(p: Page): Node { StepNode(Root, p.l4) }
  function Node2(p: Page): Node { StepNode(Node3(p), p.l3) }
  function Node1(p: Page): Node { StepNode(Node2(p), p.l2) }

  /** The table that a page with an index 1 shows: its indices other than 1, in order. */
  function LeakNode(p: Page): Node
    requires !Admissible(p)
  {
    StepNode(Node1(p), p.l1)
  }

  /** The root's slot 1 is used only for top index 1. */
  ghost predicate RootSlotReady(m: Memory, root: Word, p: Page) {
    p.l4 != RECURSIVE_INDEX || SelfMapped(m, root)
  }

  lemma SelfMappedNotZero(m: Memory, root: Word)
    requires SelfMapped(m, root)
    ensures Peek(m, root, RECURSIVE_INDEX) != 0
  {
    hide Peek;
  }

  /** The frame of a table, or 0 if there is no such table. */
  function FrameOf(t: Tree, n: Node): Word {
    if n in t.tables then t.tables[n] else 0
  }

  lemma ReadStep(m: Memory, root: Word, t: Tree, n: Node, i: Index)
    requires Represents(m, root, t) && n in t.tables && (i == RECURSIVE_INDEX || !n.T1?)
    requires n.Root? && i == RECURSIVE_INDEX ==> SelfMapped(m, root)
    ensures var e := Peek(m, t.tables[n], i);
      && AddrOf(e) == FrameOf(t, StepNode(n, i))
      && (e == 0 <==> StepNode(n, i) !in t.tables)
      && (FrameOf(t, StepNode(n, i)) == 0 <==> StepNode(n, i) !in t.tables)
      && (StepNode(n, i) in t.tables ==> Present(e))
  {
    hide Peek, AddrOf, Link, Present, Writable, Injective, ParentsExist, LeavesAttached;
    if i != RECURSIVE_INDEX {
      ReadLink(m, root, t, n, i);
      if Child(n, i) in t.tables {
        LinkPresent(t.tables[Child(n, i)]);
      }
    } else if n.Root? {
      SelfMappedNotZero(m, root);
      SelfMappedEntry(m, root);
    } else {
      assert Peek(m, t.tables[n], i) == Expected(t, n, i);
      LinkFacts(t.tables[n]);
      LinkPresent(t.tables[n]);
    }
  }

  lemma NodeSteps(p: Page)
    ensures StepNode(Root, p.l4) == Node3(p)
    ensures p.l3 == RECURSIVE_INDEX || !Node3(p).T1?
    ensures StepNode(Node3(p), p.l3) == Node2(p)
    ensures p.l2 == RECURSIVE_INDEX || !Node2(p).T1?
    ensures StepNode(Node2(p), p.l2) == Node1(p)
    ensures Node3(p).Root? ==> p.l4 == RECURSIVE_INDEX
    ensures Node2(p).Root? ==> p.l4 == RECURSIVE_INDEX
    ensures Node1(p).Root? ==> p.l4 == RECURSIVE_INDEX
    ensures !Admissible(p) ==>
      (p.l1 == RECURSIVE_INDEX || !Node1(p).T1?) && StepNode(Node1(p), p.l1) == LeakNode(p)
    ensures Admissible(p) ==> Node1(p) == TableOf(p)
  {
  }

  /** What the four reads of a walk give, as long as there are tables. */
  lemma Reads(m: Memory, root: Word, t: Tree, p: Page)
    requires Represents(m, root, t) && RootSlotReady(m, root, p)
    ensures AddrOf(Peek(m, root, p.l4)) == FrameOf(t, Node3(p))
    ensures FrameOf(t, Node3(p)) != 0 ==> AddrOf(Peek(m, FrameOf(t, Node3(p)), p.l3)) == FrameOf(t, Node2(p))
    ensures FrameOf(t, Node2(p)) != 0 ==> AddrOf(Peek(m, FrameOf(t, Node2(p)), p.l2)) == FrameOf(t, Node1(p))
    ensures FrameOf(t, Node1(p)) != 0 && !Admissible(p) ==>
      AddrOf(Peek(m, FrameOf(t, Node1(p)), p.l1)) == FrameOf(t, LeakNode(p))
  {
    hide Peek, AddrOf, SelfMapped, Represents, StepNode, Node3, Node2, Node1, LeakNode;
    RootIsTable(m, root, t);
    NodeSteps(p);
    ReadStep(m, root, t, Root, p.l4);
    if Node3(p) in t.tables {
      ReadStep(m, root, t, Node3(p), p.l3);
    }
    if Node2(p) in t.tables {
      ReadStep(m, root, t, Node2(p), p.l2);
    }
    if Node1(p) in t.tables && !Admissible(p) {
      ReadStep(m, root, t, Node1(p), p.l1);
    }
  }

  lemma ParentExists(t: Tree, root: Word, n: Node, i: Index)
    requires IsTree(t, root) && (i == RECURSIVE_INDEX || !n.T1?) && StepNode(n, i) in t.tables
    ensures n in t.tables
  {
    hide PageAddr, Injective, ProperFrames, LeavesAttached;
    assert i != RECURSIVE_INDEX ==> Parent(Child(n, i)) == n;
  }

  lemma NotMapped(t: Tree, root: Word, p: Page)
    requires IsTree(t, root) && !Admissible(p)
    ensures p !in t.pages
  {
    hide PageAddr, Injective, ProperFrames;
    assert LastIndex(TableOf(p)) == p.l2 && LastIndex(T2(p.l4, p.l3)) == p.l3 && LastIndex(T3(p.l4)) == p.l4;
    AncestorsExist(t, root, p);
  }

  lemma FramesNotZero(m: Memory, root: Word, t: Tree)
    requires Represents(m, root, t)
    ensures forall n :: n in t.tables ==> t.tables[n] != 0
  {
    hide Peek, Link, Injective, ParentsExist, LeavesAttached;
  }

  lemma NoPath(t: Tree, root: Word, p: Page)
    requires IsTree(t, root) && !Admissible(p)
    ensures LeakNode(p) in t.tables ==> Node1(p) in t.tables && Node2(p) in t.tables && Node3(p) in t.tables
  {
    hide IsTree;
    if LeakNode(p) in t.tables {
      ParentExists(t, root, Node1(p), p.l1);
      ParentExists(t, root, Node2(p), p.l2);
      ParentExists(t, root, Node3(p), p.l3);
    }
  }

  /** A page with an index 1 is never mapped, and yet translates: to the frame of the table it
      shows, exactly when that table exists. */
  lemma SelfSlotTranslates(m: Memory, root: Word, t: Tree, v: VAddr)
    requires Represents(m, root, t) && !Admissible(PageOf(v)) && RootSlotReady(m, root, PageOf(v))
    ensures PageOf(v) !in t.pages
    ensures Translate(m, root, v) == FrameOf(t, LeakNode(PageOf(v)))
    ensures Translate(m, root, v) != 0 <==> LeakNode(PageOf(v)) in t.tables
  {
    hide PageOf, Peek, AddrOf, PageAddr, SelfMapped, StepNode, Node3, Node2, Node1, LeakNode, IsTree, RootSlotReady;
    var p := PageOf(v);
    RepresentsIsTree(m, root, t);
    NotMapped(t, root, p);
    NoPath(t, root, p);
    FramesNotZero(m, root, t);
    Reads(m, root, t, p);
  }

  // ---------------------------------------------------------------------
  // What a request does
  // ---------------------------------------------------------------------

  /** One block of `mapPage` on the way to any page: slot 1 leads back and needs no table. */
  function WalkStep(g: Outcome, n: Node, i: Index): Outcome
    requires i == RECURSIVE_INDEX || !n.T1?
  {
    if g.error != NoError || i == RECURSIVE_INDEX then g else Grow(g.tree, g.frames, n, i)
  }

  function WalkFrom2(g: Outcome, p: Page): Outcome { WalkStep(g, Node2(p), p.l2) }
  function WalkFrom3(g: Outcome, p: Page): Outcome { WalkFrom2(WalkStep(g, Node3(p), p.l3), p) }

  /** The tables made on the way to any page. */
  function Walk(t: Tree, frames: seq<Word>, p: Page): Outcome {
    WalkFrom3(WalkStep(Outcome(t, frames, NoError), Root, p.l4), p)
  }

  /** A state on the way: the tree so far is in memory and nothing else has changed. */
  ghost predicate OnTheWay(c: Setting, s0: State, s: State, g: Outcome) {
    && s.frames == g.frames && Good(c, s, g.tree)
    && Untouched(s0.mem, s.mem, c.root, g.tree.tables)
  }

  lemma UntouchedSelfMap(m: Memory, m': Memory, root: Word, tables: map<Node, Word>)
    requires Untouched(m, m', root, tables) && SelfMapped(m, root)
    ensures SelfMapped(m', root)
  {
    hide AddrOf, HasHw;
  }

  ghost predicate ShowsFrame(m: Memory, root: Word, w: Page, f: Word) {
    HardwareWalk(m, root, PageOf(WindowAddress(w))).Access? &&
    HardwareWalk(m, root, PageOf(WindowAddress(w))).frame == f
  }

  /** The window page `w` shows the table in slot `i` of `n`, also right after a new one is linked. */
  ghost predicate Shows(m: Memory, root: Word, t: Tree, n: Node, i: Index, w: Page)
    requires n in t.tables && (i == RECURSIVE_INDEX || !n.T1?)
  {
    && (StepNode(n, i) in t.tables ==> ShowsFrame(m, root, w, t.tables[StepNode(n, i)]))
    && (i != RECURSIVE_INDEX ==>
          forall f :: PageAddr(f) ==> ShowsFrame(Poke(m, t.tables[n], i, Link(f)), root, w, f))
  }

  /** What the three window pages of a page show, from the entries on the way. */
  lemma ShowsEntries(m: Memory, root: Word, p: Page)
    requires SelfMapped(m, root)
    ensures var e3 := Peek(m, root, p.l4);
      var e2 := Peek(m, AddrOf(e3), p.l3);
      var e1 := Peek(m, AddrOf(e2), p.l2);
      && (Present(e3) ==> ShowsFrame(m, root, WindowL3(p), AddrOf(e3)))
      && (Present(e3) && Present(e2) ==> ShowsFrame(m, root, WindowL2(p), AddrOf(e2)))
      && (Present(e3) && Present(e2) && Present(e1) ==> ShowsFrame(m, root, WindowL1(p), AddrOf(e1)))
  {
    hide Peek, AddrOf, Present, Writable, SelfMapped, HardwareWalk, PageOf, WindowAddress;
    WindowReachesTables(m, root, p);
    WindowAddressAsWritten(WindowL3(p));
    WindowAddressAsWritten(WindowL2(p));
    WindowAddressAsWritten(WindowL1(p));
  }

  /** The tables of the walk are in slots that no link to a new table overwrites. */
  lemma SlotApart(t: Tree, root: Word, n: Node, i: Index, k: Node, j: Index)
    requires IsTree(t, root) && n in t.tables && k in t.tables && j != RECURSIVE_INDEX
    requires n == k ==> i == RECURSIVE_INDEX
    ensures !(t.tables[n] == t.tables[k] && i == j)
  {
    hide PageAddr, ProperFrames, ParentsExist, LeavesAttached;
  }

  lemma ShowsL3(m: Memory, root: Word, t: Tree, p: Page)
    requires Represents(m, root, t) && SelfMapped(m, root)
    ensures Root in t.tables && Shows(m, root, t, Root, p.l4, WindowL3(p))
  {
    hide Peek, Poke, AddrOf, Link, PageAddr, Present, SelfMapped, IsTree, ShowsFrame;
    RootIsTable(m, root, t);
    NodeSteps(p);
    ReadStep(m, root, t, Root, p.l4);
    ShowsEntries(m, root, p);
    if p.l4 != RECURSIVE_INDEX {
      forall f | PageAddr(f)
        ensures ShowsFrame(Poke(m, root, p.l4, Link(f)), root, WindowL3(p), f)
      {
        LinkPresent(f);
        PokeKeepsSelfMap(m, root, root, p.l4, Link(f));
        PeekPoke(m, root, p.l4, Link(f), root, p.l4);
        ShowsEntries(Poke(m, root, p.l4, Link(f)), root, p);
      }
    }
  }

  lemma ShowsL2(m: Memory, root: Word, t: Tree, p: Page)
    requires Represents(m, root, t) && SelfMapped(m, root) && Node3(p) in t.tables
    requires p.l3 == RECURSIVE_INDEX || !Node3(p).T1?
    ensures Shows(m, root, t, Node3(p), p.l3, WindowL2(p))
  {
    hide Peek, Poke, AddrOf, Link, PageAddr, Present, SelfMapped, IsTree, ShowsFrame, StepNode, Node3;
    RootIsTable(m, root, t);
    RepresentsIsTree(m, root, t);
    NodeSteps(p);
    ReadStep(m, root, t, Root, p.l4);
    ReadStep(m, root, t, Node3(p), p.l3);
    ShowsEntries(m, root, p);
    var n := Node3(p);
    if p.l3 != RECURSIVE_INDEX {
      forall f | PageAddr(f)
        ensures ShowsFrame(Poke(m, t.tables[n], p.l3, Link(f)), root, WindowL2(p), f)
      {
        var m' := Poke(m, t.tables[n], p.l3, Link(f));
        LinkPresent(f);
        PokeKeepsSelfMap(m, root, t.tables[n], p.l3, Link(f));
        SlotApart(t, root, Root, p.l4, n, p.l3);
        PeekPoke(m, t.tables[n], p.l3, Link(f), root, p.l4);
        PeekPoke(m, t.tables[n], p.l3, Link(f), t.tables[n], p.l3);
        ShowsEntries(m', root, p);
      }
    }
  }

  lemma NodesGoDown(p: Page)
    ensures Node2(p) == Node3(p) ==> p.l3 == RECURSIVE_INDEX
  {
  }

  lemma ShowsL1(m: Memory, root: Word, t: Tree, p: Page)
    requires Represents(m, root, t) && SelfMapped(m, root) && Node2(p) in t.tables && Node3(p) in t.tables
    requires p.l2 == RECURSIVE_INDEX || !Node2(p).T1?
    ensures Shows(m, root, t, Node2(p), p.l2, WindowL1(p))
  {
    hide Peek, Poke, AddrOf, Link, PageAddr, Present, SelfMapped, IsTree, ShowsFrame, StepNode, Node3, Node2;
    RootIsTable(m, root, t);
    RepresentsIsTree(m, root, t);
    NodeSteps(p);
    NodesGoDown(p);
    ReadStep(m, root, t, Root, p.l4);
    ReadStep(m, root, t, Node3(p), p.l3);
    ReadStep(m, root, t, Node2(p), p.l2);
    ShowsEntries(m, root, p);
    var n := Node2(p);
    if p.l2 != RECURSIVE_INDEX {
      forall f | PageAddr(f)
        ensures ShowsFrame(Poke(m, t.tables[n], p.l2, Link(f)), root, WindowL1(p), f)
      {
        var m' := Poke(m, t.tables[n], p.l2, Link(f));
        LinkPresent(f);
        PokeKeepsSelfMap(m, root, t.tables[n], p.l2, Link(f));
        SlotApart(t, root, Root, p.l4, n, p.l2);
        SlotApart(t, root, Node3(p), p.l3, n, p.l2);
        PeekPoke(m, t.tables[n], p.l2, Link(f), root, p.l4);
        PeekPoke(m, t.tables[n], p.l2, Link(f), t.tables[Node3(p)], p.l3);
        PeekPoke(m, t.tables[n], p.l2, Link(f), t.tables[n], p.l2);
        ShowsEntries(m', root, p);
      }
    }
  }

  /** A window that shows the right table does as well as the table's own. */
  lemma AnyWindow(c: Setting, s: State, t: Tree, n: Node, i: Index, w: Page)
    requires Good(c, s, t) && n in t.tables && !n.T1? && i != RECURSIVE_INDEX
    requires c.pagingDisabledNow || Shows(s.mem, c.root, t, n, i, w)
    ensures EnsureTable(c, s, t.tables[n], i, t.tables[n], w)
         == EnsureTable(c, s, t.tables[n], i, t.tables[n], WindowOf(n, i))
  {
    hide Link, Peek, Poke, AddrOf, ClearTable, PageAddr, HardwareWalk, PageOf, WindowAddress, IsTree, SelfMapped,
      WindowOf;
    ReadLink(s.mem, c.root, t, n, i);
    var f := NextFrame(s.frames);
    if Child(n, i) !in t.tables && f != 0 && !c.pagingDisabledNow {
      assert f == s.frames[0];
      NewTablePointer(c, s.mem, t, n, i, f);
    }
  }

  lemma EnsureEntry(c: Setting, s: State, t: Tree, n: Node, i: Index)
    requires Good(c, s, t) && n in t.tables && !n.T1? && i != RECURSIVE_INDEX
    ensures var (s', e) := EnsureTable(c, s, t.tables[n], i, t.tables[n], WindowOf(n, i));
      var t' := Grow(t, s.frames, n, i).tree;
      e != 0 ==> (Child(n, i) in t'.tables && AddrOf(e) == t'.tables[Child(n, i)])
  {
    hide Link, PageAddr, Peek, NewTable, AddrOf, IsTree, WindowOf, SelfMapped;
    ReadLink(s.mem, c.root, t, n, i);
    var f := NextFrame(s.frames);
    if Child(n, i) !in t.tables && f != 0 {
      assert f == s.frames[0];
      LinkFacts(f);
    }
  }

  lemma EnsureWalks(c: Setting, s: State, t: Tree, n: Node, i: Index, window: Page)
    requires c.links.Repaired? && Good(c, s, t) && n in t.tables && (i == RECURSIVE_INDEX || !n.T1?)
    requires n.Root? && i == RECURSIVE_INDEX ==> SelfMapped(s.mem, c.root)
    requires c.pagingDisabledNow || Shows(s.mem, c.root, t, n, i, window)
    ensures var (s', e) := EnsureTable(c, s, t.tables[n], i, t.tables[n], window);
      var g := WalkStep(Outcome(t, s.frames, NoError), n, i);
      && OnTheWay(c, s, s', g)
      && t.tables.Values <= g.tree.tables.Values
      && (e == 0 <==> g.error != NoError)
      && (e != 0 ==> (StepNode(n, i) in g.tree.tables && AddrOf(e) == g.tree.tables[StepNode(n, i)]))
  {
    hide Link, PageAddr, Peek, NewTable, AddrOf, IsTree, WindowOf, SelfMapped, Untouched, Represents, FreshFrames,
      Shows;
    ReadStep(s.mem, c.root, t, n, i);
    NothingTouched(s.mem, c.root, t.tables);
    if i != RECURSIVE_INDEX {
      AnyWindow(c, s, t, n, i, window);
      EnsureRefines(c, s, t, n, i);
      EnsureIsLocal(c, s, t, n, i);
      EnsureEntry(c, s, t, n, i);
    }
  }

  lemma WayGrows(c: Setting, s0: State, s1: State, s2: State, g1: Outcome, g2: Outcome)
    requires OnTheWay(c, s0, s1, g1) && OnTheWay(c, s1, s2, g2)
    requires g1.tree.tables.Values <= g2.tree.tables.Values
    ensures OnTheWay(c, s0, s2, g2)
  {
    hide Good, Untouched;
    UntouchedChain(s0.mem, s1.mem, s2.mem, c.root, g1.tree, g2.tree);
  }

  /** The outcome of a level of `mapPage`: failure on the way, or the leaf store in the table that
      the walk ends in. */
  ghost predicate Ends(c: Setting, s1: State, g: Outcome, r: (State, PageMapError), p: Page, entry: Word, force: bool) {
    if g.error != NoError then g.error == AllocFailed && r == (s1, AllocFailed)
    else Node1(p) in g.tree.tables && r == WriteLeaf(s1, g.tree.tables[Node1(p)], p.l1, entry, force)
  }

  lemma TableStays(t: Tree, frames: seq<Word>, n: Node, i: Index, k: Node)
    requires (i == RECURSIVE_INDEX || !n.T1?) && k in t.tables
    ensures k in WalkStep(Outcome(t, frames, NoError), n, i).tree.tables
  {
  }

  lemma WalkStepError(g: Outcome, n: Node, i: Index)
    requires (i == RECURSIVE_INDEX || !n.T1?) && g.error == NoError
    ensures WalkStep(g, n, i).error in {NoError, AllocFailed}
  {
  }

  // Both arms of the `pagingDisabledNow` test lead to the tables of the walk.

  lemma PointerL3(c: Setting, s: State, t: Tree, p: Page, e: Word)
    requires Good(c, s, t)
    ensures Root in t.tables && t.tables[Root] == c.root
    ensures c.pagingDisabledNow || Shows(s.mem, c.root, t, Root, p.l4, WindowL3(p))
    ensures Node3(p) in t.tables && AddrOf(e) == t.tables[Node3(p)] ==>
      TablePointer(c, s.mem, e, WindowL3(p)) == t.tables[Node3(p)]
  {
    hide AddrOf, HardwareWalk, PageOf, WindowAddress, Represents, FreshFrames, SelfMapped, StepNode;
    RootIsTable(s.mem, c.root, t);
    NodeSteps(p);
    if !c.pagingDisabledNow {
      ShowsL3(s.mem, c.root, t, p);
    }
  }

  lemma PointerL2(c: Setting, s: State, t: Tree, p: Page, e: Word)
    requires Good(c, s, t) && Node3(p) in t.tables && (p.l3 == RECURSIVE_INDEX || !Node3(p).T1?)
    ensures c.pagingDisabledNow || Shows(s.mem, c.root, t, Node3(p), p.l3, WindowL2(p))
    ensures Node2(p) in t.tables && AddrOf(e) == t.tables[Node2(p)] ==>
      TablePointer(c, s.mem, e, WindowL2(p)) == t.tables[Node2(p)]
  {
    hide AddrOf, HardwareWalk, PageOf, WindowAddress, Represents, FreshFrames, SelfMapped, StepNode, Node3;
    NodeSteps(p);
    if !c.pagingDisabledNow {
      ShowsL2(s.mem, c.root, t, p);
    }
  }

  lemma PointerL1(c: Setting, s: State, t: Tree, p: Page, e: Word)
    requires Good(c, s, t) && Node2(p) in t.tables && (p.l2 == RECURSIVE_INDEX || !Node2(p).T1?)
    ensures c.pagingDisabledNow || Shows(s.mem, c.root, t, Node2(p), p.l2, WindowL1(p))
    ensures Node1(p) in t.tables && AddrOf(e) == t.tables[Node1(p)] ==>
      TablePointer(c, s.mem, e, WindowL1(p)) == t.tables[Node1(p)]
  {
    hide AddrOf, HardwareWalk, PageOf, WindowAddress, Represents, FreshFrames, SelfMapped, StepNode, Node3, Node2;
    NodeSteps(p);
    RepresentsIsTree(s.mem, c.root, t);
    if !c.pagingDisabledNow {
      ParentExists(t, c.root, Node3(p), p.l3);
      ShowsL1(s.mem, c.root, t, p);
    }
  }

  lemma InL2Walks(c: Setting, s: State, t: Tree, p: Page, entry: Word, force: bool) returns (s1: State)
    requires c.links.Repaired? && Good(c, s, t) && RootSlotReady(s.mem, c.root, p) && Node2(p) in t.tables
    ensures var g := WalkFrom2(Outcome(t, s.frames, NoError), p);
      && OnTheWay(c, s, s1, g) && t.tables.Values <= g.tree.tables.Values
      && Ends(c, s1, g, InstallInL2(c, s, t.tables[Node2(p)], p, entry, force), p, entry, force)
  {
    hide Link, Peek, AddrOf, Good, Untouched, EnsureTable, WriteLeaf, SelfMapped, TablePointer, Shows, Grow,
      StepNode, Node3, Node2, Node1;
    NodeSteps(p);
    PointerL1(c, s, t, p, 0);
    EnsureWalks(c, s, t, Node2(p), p.l2, WindowL1(p));
    WalkStepError(Outcome(t, s.frames, NoError), Node2(p), p.l2);
    var g := WalkFrom2(Outcome(t, s.frames, NoError), p);
    var (s', e) := EnsureTable(c, s, t.tables[Node2(p)], p.l2, t.tables[Node2(p)], WindowL1(p));
    s1 := s';
    if e != 0 {
      TableStays(t, s.frames, Node2(p), p.l2, Node2(p));
      PointerL1(c, s1, g.tree, p, e);
    }
  }

  lemma InL3Walks(c: Setting, s: State, t: Tree, p: Page, entry: Word, force: bool) returns (s1: State)
    requires c.links.Repaired? && Good(c, s, t) && RootSlotReady(s.mem, c.root, p) && Node3(p) in t.tables
    ensures var g := WalkFrom3(Outcome(t, s.frames, NoError), p);
      && OnTheWay(c, s, s1, g) && t.tables.Values <= g.tree.tables.Values
      && Ends(c, s1, g, InstallInL3(c, s, t.tables[Node3(p)], p, entry, force), p, entry, force)
  {
    hide Link, Peek, AddrOf, Good, Untouched, EnsureTable, WriteLeaf, SelfMapped, TablePointer, Shows, Grow,
      StepNode, Node3, Node2, Node1, InstallInL2;
    NodeSteps(p);
    PointerL2(c, s, t, p, 0);
    EnsureWalks(c, s, t, Node3(p), p.l3, WindowL2(p));
    WalkStepError(Outcome(t, s.frames, NoError), Node3(p), p.l3);
    var g2 := WalkStep(Outcome(t, s.frames, NoError), Node3(p), p.l3);
    var (s2, e2) := EnsureTable(c, s, t.tables[Node3(p)], p.l3, t.tables[Node3(p)], WindowL2(p));
    s1 := s2;
    if e2 != 0 {
      TableStays(t, s.frames, Node3(p), p.l3, Node3(p));
      PointerL2(c, s2, g2.tree, p, e2);
      if p.l4 == RECURSIVE_INDEX {
        UntouchedSelfMap(s.mem, s2.mem, c.root, g2.tree.tables);
      }
      s1 := InL2Walks(c, s2, g2.tree, p, entry, force);
      WayGrows(c, s, s2, s1, g2, WalkFrom2(g2, p));
    }
  }

  /** For any page, with or without an index 1, `mapPage` behind its early returns first grows the
      tree along the walk, touching nothing else, and then stores the entry in the table the walk
      ends in. */
  lemma InstallWalks(c: Setting, s: State, t: Tree, p: Page, entry: Word, force: bool) returns (s1: State)
    requires c.links.Repaired? && Good(c, s, t) && RootSlotReady(s.mem, c.root, p)
    ensures var g := Walk(t, s.frames, p);
      && OnTheWay(c, s, s1, g) && t.tables.Values <= g.tree.tables.Values
      && Ends(c, s1, g, Install(c, s, p, entry, force), p, entry, force)
  {
    hide Link, Peek, AddrOf, Good, Untouched, EnsureTable, WriteLeaf, SelfMapped, TablePointer, Shows, Grow,
      StepNode, Node3, Node2, Node1, InstallInL3;
    NodeSteps(p);
    PointerL3(c, s, t, p, 0);
    EnsureWalks(c, s, t, Root, p.l4, WindowL3(p));
    WalkStepError(Outcome(t, s.frames, NoError), Root, p.l4);
    var g3 := WalkStep(Outcome(t, s.frames, NoError), Root, p.l4);
    var (s3, e3) := EnsureTable(c, s, c.root, p.l4, c.root, WindowL3(p));
    s1 := s3;
    if e3 != 0 {
      PointerL3(c, s3, g3.tree, p, e3);
      if p.l4 == RECURSIVE_INDEX {
        UntouchedSelfMap(s.mem, s3.mem, c.root, g3.tree.tables);
      }
      s1 := InL3Walks(c, s3, g3.tree, p, entry, force);
      WayGrows(c, s, s3, s1, g3, WalkFrom3(g3, p));
    }
  }

  // ---------------------------------------------------------------------
  // What that means for the pages of others
  // ---------------------------------------------------------------------

  /** The walk to an admissible page passes through table `n`. */
  predicate Below(n: Node, q: Page) {
    match n
    case Root => true
    case T3(a) => q.l4 == a
    case T2(a, b) => q.l4 == a && q.l3 == b
    case T1(a, b, c) => q.l4 == a && q.l3 == b && q.l2 == c
  }

  /** The index it looks up there. */
  function SlotIn(n: Node, q: Page): Index {
    match n
    case Root => q.l4
    case T3(_) => q.l3
    case T2(_, _) => q.l2
    case T1(_, _, _) => q.l1
  }

  /** The rest of the walk from a frame in the place of table `n`. */
  function WalkFrom(m: Memory, n: Node, f: Word, q: Page): Word {
    match n
    case Root =>
      var a := AddrOf(Peek(m, f, q.l4));
      if a == 0 then 0 else From3(m, a, q)
    case T3(_) => From3(m, f, q)
    case T2(_, _) => From2(m, f, q)
    case T1(_, _, _) => From1(m, f, q)
  }

  lemma TranslateIsWalk(m: Memory, root: Word, v: VAddr)
    ensures Translate(m, root, v) == WalkFrom(m, Root, root, PageOf(v))
  {
    hide PageOf, AddrOf, Peek;
  }

  lemma BelowChild(n: Node, i: Index, q: Page)
    requires !n.T1?
    ensures Below(Child(n, i), q) <==> Below(n, q) && SlotIn(n, q) == i
  {
  }

  function Height(n: Node): nat {
    match n
    case Root => 3
    case T3(_) => 2
    case T2(_, _) => 1
    case T1(_, _, _) => 0
  }

  lemma SameFrameSameTable(m: Memory, root: Word, t: Tree, n: Node, k: Node)
    requires Represents(m, root, t) && n in t.tables && k in t.tables
    ensures t.tables[n] == t.tables[k] <==> n == k
  {
    hide Peek, Link, ParentsExist, LeavesAttached, ProperFrames;
  }

  /** A store into one slot of a represented tree: for a page whose walk does not read the slot,
      nothing changes. */
  lemma {:induction false} StoreAside(m: Memory, root: Word, t: Tree, n0: Node, j: Index, w: Word, n: Node, q: Page)
    requires Represents(m, root, t) && n0 in t.tables && n in t.tables && Admissible(q) && Below(n, q)
    requires !(Below(n0, q) && SlotIn(n0, q) == j)
    ensures WalkFrom(Poke(m, t.tables[n0], j, w), n, t.tables[n], q) == WalkFrom(m, n, t.tables[n], q)
    decreases Height(n)
  {
    hide AddrOf, Peek, Poke, Represents, Link;
    var m' := Poke(m, t.tables[n0], j, w);
    PeekPoke(m, t.tables[n0], j, w, t.tables[n], SlotIn(n, q));
    SameFrameSameTable(m, root, t, n, n0);
    if !n.T1? {
      ReadLink(m, root, t, n, SlotIn(n, q));
      BelowChild(n, SlotIn(n, q), q);
      var k := Child(n, SlotIn(n, q));
      if k in t.tables {
        StoreAside(m, root, t, n0, j, w, k, q);
      }
    }
  }

  lemma OneTablePerHeight(n: Node, k: Node, q: Page)
    requires Below(n, q) && Below(k, q) && n != k
    ensures Height(n) != Height(k)
  {
  }

  lemma TowardsTable(m: Memory, root: Word, t: Tree, n: Node, k: Node, q: Page)
    requires Represents(m, root, t) && n in t.tables && k in t.tables
    requires Below(n, q) && Below(k, q) && Height(k) < Height(n)
    ensures Child(n, SlotIn(n, q)) in t.tables
  {
    hide Peek, Link, PageAddr, Injective, ProperFrames, LeavesAttached, Expected;
    if Child(n, SlotIn(n, q)) != k {
      assert Parent(k) in t.tables;
      if Parent(k) != Child(n, SlotIn(n, q)) {
        assert Parent(Parent(k)) in t.tables;
      }
    }
  }

  /** For a page whose walk does read the slot, it goes on from the frame stored there. */
  lemma {:induction false} StoreInTheWay(m: Memory, root: Word, t: Tree, n0: Node, j: Index, w: Word, n: Node, q: Page)
    requires Represents(m, root, t) && n0 in t.tables && n in t.tables && Admissible(q) && Below(n, q)
    requires !n0.T1? && Below(n0, q) && SlotIn(n0, q) == j && AddrOf(w) != 0
    requires Height(n0) <= Height(n)
    ensures var m' := Poke(m, t.tables[n0], j, w);
      WalkFrom(m', n, t.tables[n], q) == WalkFrom(m', Child(n0, j), AddrOf(w), q)
    decreases Height(n)
  {
    hide AddrOf, Peek, Poke, Represents, Link;
    PeekPoke(m, t.tables[n0], j, w, t.tables[n], SlotIn(n, q));
    SameFrameSameTable(m, root, t, n, n0);
    if n != n0 {
      OneTablePerHeight(n, n0, q);
      TowardsTable(m, root, t, n, n0, q);
      ReadLink(m, root, t, n, SlotIn(n, q));
      BelowChild(n, SlotIn(n, q), q);
      StoreInTheWay(m, root, t, n0, j, w, Child(n, SlotIn(n, q)), q);
    }
  }

  // ---------------------------------------------------------------------
  // Requests for pages with an index 1
  // ---------------------------------------------------------------------

  lemma StepKeepsPages(g: Outcome, n: Node, i: Index)
    requires i == RECURSIVE_INDEX || !n.T1?
    ensures WalkStep(g, n, i).tree.pages == g.tree.pages
  {
  }

  lemma WalkKeepsPages(t: Tree, frames: seq<Word>, p: Page)
    ensures Walk(t, frames, p).tree.pages == t.pages
  {
    hide Grow, Node3, Node2;
    NodeSteps(p);
    var g3 := WalkStep(Outcome(t, frames, NoError), Root, p.l4);
    var g2 := WalkStep(g3, Node3(p), p.l3);
    StepKeepsPages(Outcome(t, frames, NoError), Root, p.l4);
    StepKeepsPages(g3, Node3(p), p.l3);
    StepKeepsPages(g2, Node2(p), p.l2);
  }

  /** Where the leaf store of a successful request lands. */
  lemma StoreOfRequest(c: Setting, s: State, t: Tree, r: Request) returns (s1: State)
    requires c.links.Repaired? && Good(c, s, t) && RootSlotReady(s.mem, c.root, PageOf(r.virt))
    requires MapEffect(c, s, r).1 == NoError
    ensures var p := PageOf(r.virt);
      var t1 := Walk(t, s.frames, p).tree;
      && Represents(s1.mem, c.root, t1) && Untouched(s.mem, s1.mem, c.root, t1.tables)
      && t1.pages == t.pages && Node1(p) in t1.tables
      && MapEffect(c, s, r).0.mem
         == Poke(s1.mem, t1.tables[Node1(p)], p.l1, TableEntry(r.phys, r.flags))
  {
    hide PageOf, Peek, Poke, TableEntry, Install, MapEffect, Represents, FreshFrames, Untouched, Walk, Node1;
    SuccessInstalls(c, s, r);
    WalkKeepsPages(t, s.frames, PageOf(r.virt));
    s1 := InstallWalks(c, s, t, PageOf(r.virt), TableEntry(r.phys, r.flags), r.force);
    GoodRepresents(c, s1, Walk(t, s.frames, PageOf(r.virt)).tree);
  }

  lemma SlotNotOne(n: Node, q: Page)
    requires Admissible(q)
    ensures SlotIn(n, q) != RECURSIVE_INDEX
  {
  }

  /** The store of a request with an index 1, as an admissible page sees it. */
  lemma StoreSeen(m: Memory, root: Word, t: Tree, p: Page, w: Word, v: VAddr)
    requires Represents(m, root, t) && !Admissible(p) && Node1(p) in t.tables && AddrOf(w) != 0
    requires Admissible(PageOf(v))
    ensures var m' := Poke(m, t.tables[Node1(p)], p.l1, w);
      Translate(m', root, v) ==
        if p.l1 != RECURSIVE_INDEX && Below(LeakNode(p), PageOf(v)) then WalkFrom(m', LeakNode(p), AddrOf(w), PageOf(v))
        else Translate(m, root, v)
  {
    hide PageOf, Peek, Poke, AddrOf, Represents, Translate, WalkFrom, Node1, LeakNode;
    NodeSteps(p);
    RootIsTable(m, root, t);
    var q, n := PageOf(v), Node1(p);
    TranslateIsWalk(m, root, v);
    TranslateIsWalk(Poke(m, t.tables[n], p.l1, w), root, v);
    if p.l1 != RECURSIVE_INDEX {
      BelowChild(n, p.l1, q);
      if Below(n, q) && SlotIn(n, q) == p.l1 {
        StoreInTheWay(m, root, t, n, p.l1, w, Root, q);
      } else {
        StoreAside(m, root, t, n, p.l1, w, Root, q);
      }
    } else {
      SlotNotOne(n, q);
      StoreAside(m, root, t, n, p.l1, w, Root, q);
    }
  }

  lemma SameTreeSameTranslation(m: Memory, m1: Memory, root: Word, t: Tree, t1: Tree, v: VAddr)
    requires Represents(m, root, t) && Represents(m1, root, t1) && t1.pages == t.pages && Admissible(PageOf(v))
    ensures Translate(m1, root, v) == Translate(m, root, v)
  {
    hide PageOf, Translate, AddrOf, Represents;
    TranslateReadsLeaf(m, root, t, v);
    TranslateReadsLeaf(m1, root, t1, v);
  }

  /** A successful request for a page with an index 1 leaves an admissible address alone, unless its
      last index is not 1 and the address lies below the table the page shows: then the data page
      has taken the place of that table, and the walk goes on in the data. */
  lemma SelfSlotRequest(c: Setting, s: State, t: Tree, r: Request, v: VAddr)
    requires c.links.Repaired? && Good(c, s, t) && RootSlotReady(s.mem, c.root, PageOf(r.virt)) && PageAddr(r.phys)
    requires !Admissible(PageOf(r.virt)) && Admissible(PageOf(v)) && MapEffect(c, s, r).1 == NoError
    ensures var m' := MapEffect(c, s, r).0.mem;
      var p := PageOf(r.virt);
      Translate(m', c.root, v) ==
        if p.l1 != RECURSIVE_INDEX && Below(LeakNode(p), PageOf(v))
        then WalkFrom(m', LeakNode(p), r.phys, PageOf(v))
        else Translate(s.mem, c.root, v)
  {
    hide PageOf, Peek, Poke, AddrOf, TableEntry, Represents, Translate, WalkFrom, Node1, LeakNode, MapEffect, Walk,
      FreshFrames, Untouched;
    var p := PageOf(r.virt);
    EntryFacts(r.phys, r.flags);
    assert r.phys != 0;
    GoodRepresents(c, s, t);
    var s1 := StoreOfRequest(c, s, t, r);
    var t1 := Walk(t, s.frames, p).tree;
    StoreSeen(s1.mem, c.root, t1, p, TableEntry(r.phys, r.flags), v);
    SameTreeSameTranslation(s.mem, s1.mem, c.root, t, t1, v);
  }

  lemma StepFrames(g: Outcome, n: Node, i: Index, w: Word)
    requires i == RECURSIVE_INDEX || !n.T1?
    requires w !in g.tree.tables.Values && w !in g.frames && w != 0
    ensures w !in WalkStep(g, n, i).tree.tables.Values && w !in WalkStep(g, n, i).frames
  {
  }

  lemma WalkFrames(t: Tree, frames: seq<Word>, p: Page, w: Word)
    requires w !in t.tables.Values && w !in frames && w != 0
    ensures w !in Walk(t, frames, p).tree.tables.Values
  {
    hide Grow, Node3, Node2;
    NodeSteps(p);
    var g3 := WalkStep(Outcome(t, frames, NoError), Root, p.l4);
    var g2 := WalkStep(g3, Node3(p), p.l3);
    StepFrames(Outcome(t, frames, NoError), Root, p.l4, w);
    StepFrames(g3, Node3(p), p.l3, w);
    StepFrames(g2, Node2(p), p.l2, w);
  }

  lemma EmptyFrameEndsWalk(m: Memory, k: Node, f: Word, q: Page)
    requires !k.Root? && forall i :: Peek(m, f, i) == 0
    ensures WalkFrom(m, k, f, q) == 0
  {
    hide Peek, AddrOf;
    ZeroEntry();
  }

  /** The data page of a request: zeroed, and no table. */
  ghost predicate FreshData(s: State, t: Tree, phys: Word) {
    PageAddr(phys) && phys !in t.tables.Values && phys !in s.frames && forall i :: Peek(s.mem, phys, i) == 0
  }

  lemma DataStaysZero(c: Setting, s: State, t: Tree, r: Request, i: Index)
    requires c.links.Repaired? && Good(c, s, t) && RootSlotReady(s.mem, c.root, PageOf(r.virt))
    requires MapEffect(c, s, r).1 == NoError && FreshData(s, t, r.phys)
    ensures Peek(MapEffect(c, s, r).0.mem, r.phys, i) == 0
  {
    assert r.phys != 0;
    hide PageOf, PageAddr, Peek, Poke, TableEntry, MapEffect, Represents, FreshFrames, Walk, Node1;
    var p := PageOf(r.virt);
    var s1 := StoreOfRequest(c, s, t, r);
    var t1 := Walk(t, s.frames, p).tree;
    WalkFrames(t, s.frames, p, r.phys);
    assert t1.tables[Node1(p)] in t1.tables.Values;
    PeekPoke(s1.mem, t1.tables[Node1(p)], p.l1, TableEntry(r.phys, r.flags), r.phys, i);
  }

  /** The leaf entries that a request for a page with an index 1 unhooks: those below the table
      that the page shows. */
  ghost predicate MappedBelow(t: Tree, p: Page, q: Page)
    requires !Admissible(p)
  {
    q in t.pages && AddrOf(t.pages[q]) != 0 && Below(LeakNode(p), q)
  }

  lemma BelowIsLost(c: Setting, s: State, t: Tree, r: Request, v: VAddr)
    requires c.links.Repaired? && Good(c, s, t) && RootSlotReady(s.mem, c.root, PageOf(r.virt))
    requires FreshData(s, t, r.phys)
    requires !Admissible(PageOf(r.virt)) && MapEffect(c, s, r).1 == NoError
    requires Admissible(PageOf(v)) && PageOf(r.virt).l1 != RECURSIVE_INDEX && Below(LeakNode(PageOf(r.virt)), PageOf(v))
    ensures Translate(MapEffect(c, s, r).0.mem, c.root, v) == 0
  {
    assert PageAddr(r.phys);
    hide PageOf, Peek, AddrOf, Translate, MapEffect, WalkFrom, Good, Node1, Below, PageAddr;
    SelfSlotRequest(c, s, t, r, v);
    forall i: Index
      ensures Peek(MapEffect(c, s, r).0.mem, r.phys, i) == 0
    {
      DataStaysZero(c, s, t, r, i);
    }
    EmptyFrameEndsWalk(MapEffect(c, s, r).0.mem, LeakNode(PageOf(r.virt)), r.phys, PageOf(v));
  }

  lemma MappedIsAdmissible(t: Tree, root: Word, q: Page)
    requires IsTree(t, root) && q in t.pages
    ensures Admissible(q)
  {
    hide IsTree;
    if !Admissible(q) {
      NotMapped(t, root, q);
    }
  }

  /** A successful request for a page with an index 1 leaves all admissible translations alone
      exactly when its last index is 1, too, or nothing is mapped below the table it shows.  (The
      data page is fresh; with other contents the walk goes on in the data.) */
  lemma SelfSlotRequestHarmlessExactly(c: Setting, s: State, t: Tree, r: Request)
    requires c.links.Repaired? && Good(c, s, t) && RootSlotReady(s.mem, c.root, PageOf(r.virt))
    requires FreshData(s, t, r.phys)
    requires !Admissible(PageOf(r.virt)) && MapEffect(c, s, r).1 == NoError
    ensures (forall v :: Admissible(PageOf(v)) ==>
        Translate(MapEffect(c, s, r).0.mem, c.root, v) == Translate(s.mem, c.root, v))
      <==> PageOf(r.virt).l1 == RECURSIVE_INDEX || forall q :: !MappedBelow(t, PageOf(r.virt), q)
  {
    assert PageAddr(r.phys);
    hide PageOf, AddrOf, Peek, Translate, MapEffect, WalkFrom, LeakNode, Below, FreshFrames, ModeReady, PageAddr,
      RootSlotReady, AddressOf;
    hide FreshData;
    var p := PageOf(r.virt);
    var m' := MapEffect(c, s, r).0.mem;
    GoodRepresents(c, s, t);
    ZeroEntry();
    if q :| p.l1 != RECURSIVE_INDEX && MappedBelow(t, p, q) {
      var v := AddressOf(q);
      SplitOfAddress(q);
      RepresentsIsTree(s.mem, c.root, t);
      MappedIsAdmissible(t, c.root, q);
      TranslateReadsLeaf(s.mem, c.root, t, v);
      BelowIsLost(c, s, t, r, v);
    } else {
      forall v | Admissible(PageOf(v))
        ensures Translate(m', c.root, v) == Translate(s.mem, c.root, v)
      {
        SelfSlotRequest(c, s, t, r, v);
        if p.l1 != RECURSIVE_INDEX && Below(LeakNode(p), PageOf(v)) {
          BelowIsLost(c, s, t, r, v);
          TranslateReadsLeaf(s.mem, c.root, t, v);
          assert !MappedBelow(t, p, PageOf(v));
        }
      }
    }
  }

  lemma WalkInPlace(t: Tree, frames: seq<Word>, root: Word, p: Page, q: Page)
    requires IsTree(t, root) && TableOf(q) in t.tables && p == Page(q.l4, 1, q.l3, q.l2) && Admissible(q)
    ensures Node1(p) == T2(q.l4, q.l3) && LeakNode(p) == TableOf(q)
    ensures Walk(t, frames, p) == Outcome(t, frames, NoError)
  {
    hide IsTree;
    AncestorsExist(t, root, q);
  }

  /** One forced request takes away the mappings of a whole L1 table: for every mapped page q, the
      page with the indices (l4, 1, l3, l2) of q can be requested at any time without a frame, the
      request succeeds, and neither q nor any other page of its L1 table translates any more. */
  lemma ForcedRequestUnhooks(c: Setting, s: State, t: Tree, r: Request, q: Page, v: VAddr)
    requires c.links.Repaired? && Good(c, s, t) && FreshData(s, t, r.phys) && q in t.pages
    requires r.force && PassesCanonicalTest(r.virt) && PageOf(r.virt) == Page(q.l4, 1, q.l3, q.l2)
    requires Admissible(PageOf(v)) && TableOf(PageOf(v)) == TableOf(q)
    ensures MapEffect(c, s, r).1 == NoError && MapEffect(c, s, r).0.frames == s.frames
    ensures Translate(MapEffect(c, s, r).0.mem, c.root, v) == 0
  {
    hide PageOf, Translate, PassesCanonicalTest, TableEntry, FreshFrames, ModeReady, Install, FreshData, Walk, Node1,
      LeakNode, Peek;
    var p := PageOf(r.virt);
    GoodRepresents(c, s, t);
    RepresentsIsTree(s.mem, c.root, t);
    MappedIsAdmissible(t, c.root, q);
    WalkInPlace(t, s.frames, c.root, p, q);
    var s1 := InstallWalks(c, s, t, p, TableEntry(r.phys, r.flags), r.force);
    BelowIsLost(c, s, t, r, v);
  }

  /** A fresh data page stays fresh while other pages are mapped. */
  lemma FreshDataStays(c: Setting, s: State, t: Tree, r: Request, data: Word)
    requires c.links.Repaired? && Good(c, s, t) && Admissible(PageOf(r.virt)) && FreshData(s, t, data)
    ensures FreshData(MapEffect(c, s, r).0, TreeMap(t, s.frames, r).tree, data)
  {
    assert data != 0;
    hide PageOf, MapEffect, TreeMap, Good, PageAddr, Peek;
    MapRefines(c, s, t, r);
    MapAccounted(t, s.frames, r);
    MapTouchesOnlyTables(c, s, t, r);
  }

  lemma ThreeFramesSuffice(t: Tree, frames: seq<Word>, r: Request)
    requires PassesCanonicalTest(r.virt) && PageOf(r.virt) !in t.pages && Supplies(frames, 3)
    ensures TreeMap(t, frames, r).error == NoError
  {
    hide PageOf, PassesCanonicalTest, AddrOf, TableEntry, GrowPath;
    ZeroEntry();
    PathKeepsPages(t, frames, PageOf(r.virt));
    PathProgress(t, frames, PageOf(r.virt));
  }

  lemma FirstMapping(c: Setting, s: State, r: Request)
    requires c.links.Repaired? && Start(c, s) && Supplies(s.frames, 3) && PageAddr(r.phys)
    requires PassesCanonicalTest(r.virt) && Admissible(PageOf(r.virt))
    ensures var (s1, error) := MapEffect(c, s, r);
      var t1 := TreeMap(EmptyTree(c.root), s.frames, r).tree;
      && error == NoError && Good(c, s1, t1) && PageOf(r.virt) in t1.pages
      && Translate(s1.mem, c.root, r.virt) == r.phys
  {
    hide PageOf, PassesCanonicalTest, MapEffect, TreeMap, Translate, TableEntry, AddrOf, Start, Good, PageAddr,
      Supplies;
    var t := EmptyTree(c.root);
    StartIsEmptyTree(c, s);
    MapRefines(c, s, t, r);
    EntryFacts(r.phys, r.flags);
    ThreeFramesSuffice(t, s.frames, r);
    PagesAfterMap(t, s.frames, r);
    EntryAddress(r.phys, r.flags);
    MapPageUpdatesTranslation(c, s, t, r, r.virt);
  }

  /** A concrete run: a page is mapped, then one with an index 1; both calls succeed and the first
      page is gone. */
  lemma SelfSlotCounterexample()
    ensures var c := Setting(0x1000, Repaired, true);
      var s := State(map[], [0x2000, 0x3000, 0x4000]);
      var r := Request(AddressOf(Page(2, 3, 4, 5)), 0x9000, PRESENT | WRITE_BIT, true);
      var r' := Request(AddressOf(Page(2, 1, 3, 4)), 0xA000, PRESENT | WRITE_BIT, true);
      var (s1, error1) := MapEffect(c, s, r);
      var (s2, error2) := MapEffect(c, s1, r');
      && error1 == NoError && error2 == NoError
      && Translate(s1.mem, c.root, r.virt) == 0x9000 && Translate(s2.mem, c.root, r.virt) == 0
  {
    assert PageAddr(0x9000) && PageAddr(0xA000);
    hide MapEffect, Translate, AddressOf, PassesCanonicalTest, PageOf, TreeMap, Good, Canonical, PageAddr, Start;
    var c := Setting(0x1000, Repaired, true);
    var s := State(map[], [0x2000, 0x3000, 0x4000]);
    var r := Request(AddressOf(Page(2, 3, 4, 5)), 0x9000, PRESENT | WRITE_BIT, true);
    var r' := Request(AddressOf(Page(2, 1, 3, 4)), 0xA000, PRESENT | WRITE_BIT, true);
    SplitOfAddress(Page(2, 3, 4, 5));
    SplitOfAddress(Page(2, 1, 3, 4));
    CanonicalTestExactly(r.virt);
    CanonicalTestExactly(r'.virt);
    StartIsPossible();
    StartIsEmptyTree(c, s);
    RootValue(0x1000);
    assert FreshData(s, EmptyTree(0x1000), 0xA000);
    hide FreshData;
    FirstMapping(c, s, r);
    FreshDataStays(c, s, EmptyTree(0x1000), r, 0xA000);
    var s1 := MapEffect(c, s, r).0;
    var t1 := TreeMap(EmptyTree(0x1000), s.frames, r).tree;
    ForcedRequestUnhooks(c, s1, t1, r', Page(2, 3, 4, 5), r.virt);
  }
}
