/**
 `mapPage` refines an update of the abstract tree.

 `Grow` and `TreeMap` say what a call does to the tree of tables and to the map of pages,
 with no memory in sight; the lemmas show that the words in memory follow, for the repaired
 parent links and in both modes.  With paging disabled, tables are reached by physical
 pointer and cleared when new.  With paging enabled they are reached through the recursive
 window and, as the clearing is still to be written, the allocator must hand out zeroed frames.
 */
module Refinement {
  import opened PageEntry
  import opened VirtualAddress
  import opened PhysicalMemory
  import opened PageTables
  import opened PageTree
  import opened RecursiveWindow

  datatype Outcome = Outcome(tree: Tree, frames: seq<Word>, error: PageMapError)

  /** Make sure the child exists, taking a frame for it if need be. */
  function Grow(t: Tree, frames: seq<Word>, n: Node, i: Index): Outcome
    requires !n.T1?
  {
    if Child(n, i) in t.tables then Outcome(t, frames, NoError)
    else if NextFrame(frames) == 0 then Outcome(t, LaterFrames(frames), AllocFailed)
    else Outcome(WithTable(t, Child(n, i), NextFrame(frames)), LaterFrames(frames), NoError)
  }

  function Then(g: Outcome, n: Node, i: Index): Outcome
    requires !n.T1?
  {
    if g.error != NoError then g else Grow(g.tree, g.frames, n, i)
  }

  /** The tables on the way to a page, as far as the allocator supplies them. */
  function GrowPath(t: Tree, frames: seq<Word>, p: Page): Outcome {
    Then(Then(Grow(t, frames, Root, p.l4), T3(p.l4), p.l3), T2(p.l4, p.l3), p.l2)
  }

  function Finish(g: Outcome, p: Page, entry: Word, force: bool): Outcome {
    if g.error != NoError then g
    else if p in g.tree.pages && !force then g.(error := EntryExists)
    else g.(tree := WithLeaf(g.tree, p, entry))
  }

  function TreeInstall(t: Tree, frames: seq<Word>, p: Page, entry: Word, force: bool): Outcome {
    Finish(GrowPath(t, frames, p), p, entry, force)
  }

  function TreeMap(t: Tree, frames: seq<Word>, r: Request): Outcome {
    var p := PageOf(r.virt);
    if !PassesCanonicalTest(r.virt) then Outcome(t, frames, InvalidVirtAddress)
    else if !r.force && AddrOf(LeafOf(t.pages, p)) != 0 then Outcome(t, frames, EntryExists)
    else TreeInstall(t, frames, p, TableEntry(r.phys, r.flags), r.force)
  }

  /** The allocator's contract: usable frames, never one twice, never one in use. */
  ghost predicate FreshFrames(frames: seq<Word>, tables: map<Node, Word>) {
    && (forall i :: 0 <= i < |frames| && frames[i] != 0 ==> PageAddr(frames[i]) && frames[i] !in tables.Values)
    && (forall i, j :: 0 <= i < j < |frames| && frames[i] != 0 ==> frames[i] != frames[j])
  }

  ghost predicate ZeroedFrames(m: Memory, frames: seq<Word>) {
    forall k, i :: 0 <= k < |frames| && frames[k] != 0 ==> Peek(m, frames[k], i) == 0
  }

  /** What the mode in use relies on. */
  ghost predicate ModeReady(c: Setting, s: State) {
    c.pagingDisabledNow || (WindowReady(s.mem, c.root) && ZeroedFrames(s.mem, s.frames))
  }

  /** What holds between two calls. */
  ghost predicate Good(c: Setting, s: State, t: Tree) {
    Represents(s.mem, c.root, t) && FreshFrames(s.frames, t.tables) && ModeReady(c, s)
  }

  lemma LaterFramesFresh(frames: seq<Word>, tables: map<Node, Word>, n: Node)
    requires FreshFrames(frames, tables)
    ensures FreshFrames(LaterFrames(frames), tables)
    ensures NextFrame(frames) != 0 ==> FreshFrames(LaterFrames(frames), tables[n := NextFrame(frames)])
  {
    hide PageAddr;
    if frames != [] && frames[0] != 0 {
      var later := LaterFrames(frames);
      var tables' := tables[n := frames[0]];
      assert forall w :: w in tables'.Values ==> w in tables.Values || w == frames[0];
      forall i | 0 <= i < |later| && later[i] != 0
        ensures PageAddr(later[i]) && later[i] !in tables'.Values
      {
        assert later[i] == frames[i + 1];
      }
    }
  }

  // ---------------------------------------------------------------------
  // A new table, in either mode
  // ---------------------------------------------------------------------

  lemma PeekClear(m: Memory, f: Word, b: Word, i: Index)
    ensures Peek(ClearTable(m, f), b, i) == if b == f then 0 else Peek(m, b, i)
  {
  }

  /** Linking the new table does not disturb the links above it. */
  lemma LinkingKeepsPath(m: Memory, t: Tree, n: Node, slot: Index, w: Word)
    requires Root in t.tables && n in t.tables && Injective(t.tables) && LinkedDownTo(m, t, n)
    ensures LinkedDownTo(Poke(m, t.tables[n], slot, w), t, n)
  {
    hide Peek, Poke, Link;
    match n
    case Root =>
    case T3(a) =>
      PeekPoke(m, t.tables[n], slot, w, t.tables[Root], a);
    case T2(a, b) =>
      PeekPoke(m, t.tables[n], slot, w, t.tables[Root], a);
      PeekPoke(m, t.tables[n], slot, w, t.tables[T3(a)], b);
    case T1(_, _, _) =>
  }

  /** With paging disabled a new table is linked from wherever it is told. */
  lemma NewTableAnywhere(c: Setting, m: Memory, f: Word, linkInto: Word, slot: Index, window: Page)
    requires c.pagingDisabledNow && PageAddr(f) && f != linkInto
    ensures HungAs(m, NewTable(c, m, f, linkInto, slot, window), f, linkInto, slot)
  {
    hide Peek, Poke, Link, AddrOf, PageAddr, ClearTable;
    LinkFacts(f);
    var cleared := ClearTable(m, f);
    var linked := Poke(cleared, linkInto, slot, Link(f));
    forall b, i
      ensures Peek(NewTable(c, m, f, linkInto, slot, window), b, i) ==
        if b == f then (if i == RECURSIVE_INDEX then Link(f) else 0)
        else if b == linkInto && i == slot then Link(f)
        else Peek(m, b, i)
    {
      PeekClear(m, f, b, i);
      PeekPoke(cleared, linkInto, slot, Link(f), b, i);
      PeekPoke(linked, f, RECURSIVE_INDEX, Link(f), b, i);
    }
  }

  lemma PokeKeepsSelfMap(m: Memory, root: Word, a: Word, slot: Index, w: Word)
    requires SelfMapped(m, root) && slot != RECURSIVE_INDEX
    ensures SelfMapped(Poke(m, a, slot, w), root)
    ensures WindowReady(m, root) ==> WindowReady(Poke(m, a, slot, w), root)
  {
    hide AddrOf, HasHw, Peek, Poke, Writable;
    PeekPoke(m, a, slot, w, root, RECURSIVE_INDEX);
  }

  /** Both arms of the `pagingDisabledNow` test find the new table. */
  lemma NewTablePointer(c: Setting, m: Memory, t: Tree, n: Node, slot: Index, f: Word)
    requires Represents(m, c.root, t) && CanHang(t, n, slot, f)
    requires c.pagingDisabledNow || SelfMapped(m, c.root)
    ensures TablePointer(c, Poke(m, t.tables[n], slot, Link(f)), Link(f), WindowOf(n, slot)) == f
    ensures WindowReady(m, c.root) ==> StoreAllowed(c, Poke(m, t.tables[n], slot, Link(f)), WindowOf(n, slot))
  {
    hide Peek, Poke, Link, AddrOf, PageAddr, HardwareWalk, SelfMapped, Expected, ParentsExist, LeavesAttached;
    LinkFacts(f);
    if !c.pagingDisabledNow {
      RepresentedIsLinked(m, c.root, t, n);
      LinkingKeepsPath(m, t, n, slot, Link(f));
      PokeKeepsSelfMap(m, c.root, t.tables[n], slot, Link(f));
      PeekPoke(m, t.tables[n], slot, Link(f), t.tables[n], slot);
      WindowPointer(c, Poke(m, t.tables[n], slot, Link(f)), t, n, slot, f);
    }
  }

  lemma ClearedRepresents(m: Memory, root: Word, t: Tree, f: Word)
    requires Represents(m, root, t) && f !in t.tables.Values
    ensures Represents(ClearTable(m, f), root, t)
  {
    hide Peek, Link, Expected, PageAddr, ClearTable, Injective, ParentsExist, LeavesAttached;
    forall n, i | n in t.tables && !(n.Root? && i == RECURSIVE_INDEX)
      ensures Peek(ClearTable(m, f), t.tables[n], i) == Expected(t, n, i)
    {
      PeekClear(m, f, t.tables[n], i);
    }
  }

  function NewTableWord(c: Setting, m: Memory, f: Word, parent: Word, slot: Index, b: Word, i: Index): Word {
    if (b == f && i == RECURSIVE_INDEX) || (b == parent && i == slot) then Link(f)
    else if b == f && c.pagingDisabledNow then 0
    else Peek(m, b, i)
  }

  lemma PeekNewTable(c: Setting, m: Memory, t: Tree, n: Node, slot: Index, f: Word, b: Word, i: Index)
    requires Represents(m, c.root, t) && CanHang(t, n, slot, f)
    requires c.pagingDisabledNow || SelfMapped(m, c.root)
    ensures Peek(NewTable(c, m, f, t.tables[n], slot, WindowOf(n, slot)), b, i)
         == NewTableWord(c, m, f, t.tables[n], slot, b, i)
  {
    hide Peek, Poke, Link, AddrOf, PageAddr, TablePointer, ClearTable, SelfMapped, Represents, WindowOf;
    var cleared := if c.pagingDisabledNow then ClearTable(m, f) else m;
    if c.pagingDisabledNow {
      ClearedRepresents(m, c.root, t, f);
    }
    NewTablePointer(c, cleared, t, n, slot, f);
    PeekClear(m, f, b, i);
    PeekPoke(cleared, t.tables[n], slot, Link(f), b, i);
    PeekPoke(Poke(cleared, t.tables[n], slot, Link(f)), f, RECURSIVE_INDEX, Link(f), b, i);
  }

  lemma HungExactly(c: Setting, m: Memory, m': Memory, f: Word, parent: Word, slot: Index)
    requires forall b, i :: Peek(m', b, i) == NewTableWord(c, m, f, parent, slot, b, i)
    requires f != parent
    ensures HungAs(m, m', f, parent, slot)
      <==> c.pagingDisabledNow || forall i :: i != RECURSIVE_INDEX ==> Peek(m, f, i) == 0
  {
    hide Peek, Link;
    if HungAs(m, m', f, parent, slot) && !c.pagingDisabledNow {
      forall i | i != RECURSIVE_INDEX
        ensures Peek(m, f, i) == 0
      {
        assert Peek(m', f, i) == 0;
      }
    }
  }

  /** New tables are cleared in one mode only: in the other a new table is empty but for its
      self slot exactly when the frame held zeros in all other slots. */
  lemma NewTableHangsExactly(c: Setting, m: Memory, t: Tree, n: Node, slot: Index, f: Word)
    requires Represents(m, c.root, t) && CanHang(t, n, slot, f)
    requires c.pagingDisabledNow || SelfMapped(m, c.root)
    ensures HungAs(m, NewTable(c, m, f, t.tables[n], slot, WindowOf(n, slot)), f, t.tables[n], slot)
      <==> c.pagingDisabledNow || forall i :: i != RECURSIVE_INDEX ==> Peek(m, f, i) == 0
  {
    hide Peek, Link, PageAddr, NewTable, NewTableWord, HungAs, SelfMapped, Represents, WindowOf;
    var m' := NewTable(c, m, f, t.tables[n], slot, WindowOf(n, slot));
    forall b, i
      ensures Peek(m', b, i) == NewTableWord(c, m, f, t.tables[n], slot, b, i)
    {
      PeekNewTable(c, m, t, n, slot, f, b, i);
    }
    assert t.tables[n] in t.tables.Values;
    HungExactly(c, m, m', f, t.tables[n], slot);
  }

  lemma HangKeepsReady(c: Setting, s: State, m': Memory, t: Tree, n: Node, slot: Index)
    requires FreshFrames(s.frames, t.tables) && ModeReady(c, s)
    requires s.frames != [] && Root in t.tables && t.tables[Root] == c.root
    requires CanHang(t, n, slot, s.frames[0]) && HungAs(s.mem, m', s.frames[0], t.tables[n], slot)
    ensures ModeReady(c, State(m', LaterFrames(s.frames)))
  {
    hide Peek, Link, AddrOf, PageAddr, HasHw;
    var later := LaterFrames(s.frames);
    forall k, i | !c.pagingDisabledNow && 0 <= k < |later| && later[k] != 0
      ensures Peek(m', later[k], i) == 0
    {
      assert later[k] == s.frames[k + 1] && Peek(s.mem, s.frames[k + 1], i) == 0;
    }
  }

  /** Both arms of the `pagingDisabledNow` test find a table that is already linked. */
  lemma ExistingPointer(c: Setting, m: Memory, t: Tree, n: Node, i: Index)
    requires Represents(m, c.root, t) && n in t.tables && !n.T1? && i != RECURSIVE_INDEX
    requires c.pagingDisabledNow || SelfMapped(m, c.root)
    requires Child(n, i) in t.tables
    ensures TablePointer(c, m, Link(t.tables[Child(n, i)]), WindowOf(n, i)) == t.tables[Child(n, i)]
    ensures WindowReady(m, c.root) ==> StoreAllowed(c, m, WindowOf(n, i))
  {
    hide Peek, Link, AddrOf, PageAddr, HardwareWalk, SelfMapped, Expected, ParentsExist, LeavesAttached;
    ReadLink(m, c.root, t, n, i);
    if !c.pagingDisabledNow {
      RepresentedIsLinked(m, c.root, t, n);
      WindowPointer(c, m, t, n, i, t.tables[Child(n, i)]);
    }
  }

  lemma RootIsTable(m: Memory, root: Word, t: Tree)
    requires Represents(m, root, t)
    ensures Root in t.tables && t.tables[Root] == root
  {
  }

  lemma EnsureRefines(c: Setting, s: State, t: Tree, n: Node, i: Index)
    requires Good(c, s, t)
    requires n in t.tables && !n.T1? && i != RECURSIVE_INDEX
    ensures var (s', e) := EnsureTable(c, s, t.tables[n], i, t.tables[n], WindowOf(n, i));
      var g := Grow(t, s.frames, n, i);
      && s'.frames == g.frames && Good(c, s', g.tree)
      && (e == 0 <==> g.error != NoError)
      && (e != 0 ==>
            (Child(n, i) in g.tree.tables &&
             TablePointer(c, s'.mem, e, WindowOf(n, i)) == g.tree.tables[Child(n, i)]))
  {
    hide Link, PageAddr, Peek, NewTable, AddrOf, HardwareWalk, IsTree, TablePointer, WindowOf, HungAs, SelfMapped;
    ReadLink(s.mem, c.root, t, n, i);
    LaterFramesFresh(s.frames, t.tables, Child(n, i));
    RootIsTable(s.mem, c.root, t);
    var f := NextFrame(s.frames);
    if Child(n, i) in t.tables {
      ExistingPointer(c, s.mem, t, n, i);
    } else if f != 0 {
      assert f == s.frames[0];
      var m' := NewTable(c, s.mem, f, t.tables[n], i, WindowOf(n, i));
      LinkFacts(f);
      NewTableHangsExactly(c, s.mem, t, n, i, f);
      HangRepresents(s.mem, m', c.root, t, n, i, f);
      HangKeepsReady(c, s, m', t, n, i);
      ExistingPointer(c, m', WithTable(t, Child(n, i), f), n, i);
    }
  }

  lemma LeafKeepsReady(c: Setting, s: State, t: Tree, p: Page, entry: Word)
    requires FreshFrames(s.frames, t.tables) && ModeReady(c, s)
    requires TableOf(p) in t.tables && p.l1 != RECURSIVE_INDEX
    ensures ModeReady(c, State(Poke(s.mem, t.tables[TableOf(p)], p.l1, entry), s.frames))
  {
    hide Peek, Poke, PageAddr, SelfMapped;
    if !c.pagingDisabledNow {
      PokeKeepsSelfMap(s.mem, c.root, t.tables[TableOf(p)], p.l1, entry);
      forall k, i | 0 <= k < |s.frames| && s.frames[k] != 0
        ensures Peek(Poke(s.mem, t.tables[TableOf(p)], p.l1, entry), s.frames[k], i) == 0
      {
        PeekPoke(s.mem, t.tables[TableOf(p)], p.l1, entry, s.frames[k], i);
      }
    }
  }

  lemma WriteLeafRefines(c: Setting, s: State, t: Tree, p: Page, entry: Word, force: bool)
    requires Good(c, s, t) && TableOf(p) in t.tables && p.l1 != RECURSIVE_INDEX
    ensures var (s', error) := WriteLeaf(s, t.tables[TableOf(p)], p.l1, entry, force);
      if p in t.pages && !force then s' == s && error == EntryExists
      else s'.frames == s.frames && error == NoError && Good(c, s', WithLeaf(t, p, entry))
  {
    hide PageAddr, Link, Peek, Poke, Injective, ProperFrames, ParentsExist, FreshFrames, ModeReady;
    assert Peek(s.mem, t.tables[TableOf(p)], p.l1) == Expected(t, TableOf(p), p.l1);
    LeafRepresents(s.mem, c.root, t, p, entry);
    LeafKeepsReady(c, s, t, p, entry);
  }

  lemma NoWindowNeeded(c: Setting, m: Memory, window: Page)
    requires c.pagingDisabledNow
    ensures StoreAllowed(c, m, window)
  {
  }

  /** With paging enabled, the stores through the window are permitted: those into tables that
      exist, and the one into the self slot of a new table. */
  lemma WindowStoresAllowed(c: Setting, s: State, t: Tree, n: Node, i: Index)
    requires Good(c, s, t) && n in t.tables && !n.T1? && i != RECURSIVE_INDEX
    ensures Child(n, i) in t.tables ==> StoreAllowed(c, s.mem, WindowOf(n, i))
    ensures Child(n, i) !in t.tables && NextFrame(s.frames) != 0 ==>
      StoreAllowed(c, Poke(s.mem, t.tables[n], i, Link(NextFrame(s.frames))), WindowOf(n, i))
  {
    hide Peek, Poke, Link, PageAddr, StoreAllowed, IsTree, HardwareWalk, SelfMapped, Writable;
    if c.pagingDisabledNow {
      NoWindowNeeded(c, s.mem, WindowOf(n, i));
      NoWindowNeeded(c, Poke(s.mem, t.tables[n], i, Link(NextFrame(s.frames))), WindowOf(n, i));
    } else if Child(n, i) in t.tables {
      ExistingPointer(c, s.mem, t, n, i);
    } else if NextFrame(s.frames) != 0 {
      assert NextFrame(s.frames) == s.frames[0];
      NewTablePointer(c, s.mem, t, n, i, s.frames[0]);
    }
  }

  /** The state and result of a memory-level step agree with those of a tree-level step. */
  ghost predicate Agree(c: Setting, r: (State, PageMapError), g: Outcome) {
    r.0.frames == g.frames && r.1 == g.error && Good(c, r.0, g.tree)
  }

  lemma InstallInL2Refines(c: Setting, s: State, t: Tree, p: Page, entry: Word, force: bool)
    requires c.links.Repaired? && Good(c, s, t) && Admissible(p) && T2(p.l4, p.l3) in t.tables
    ensures Agree(c, InstallInL2(c, s, t.tables[T2(p.l4, p.l3)], p, entry, force),
                  Finish(Grow(t, s.frames, T2(p.l4, p.l3), p.l2), p, entry, force))
  {
    hide Link, Peek, Represents, FreshFrames, ModeReady, EnsureTable, TablePointer, WriteLeaf;
    var n := T2(p.l4, p.l3);
    EnsureRefines(c, s, t, n, p.l2);
    var (s1, e1) := EnsureTable(c, s, t.tables[n], p.l2, t.tables[n], WindowL1(p));
    if e1 != 0 {
      WriteLeafRefines(c, s1, Grow(t, s.frames, n, p.l2).tree, p, entry, force);
    }
  }

  lemma InstallInL3Refines(c: Setting, s: State, t: Tree, p: Page, entry: Word, force: bool)
    requires c.links.Repaired? && Good(c, s, t) && Admissible(p) && T3(p.l4) in t.tables
    ensures Agree(c, InstallInL3(c, s, t.tables[T3(p.l4)], p, entry, force),
                  Finish(Then(Grow(t, s.frames, T3(p.l4), p.l3), T2(p.l4, p.l3), p.l2), p, entry, force))
  {
    hide Link, Peek, Represents, FreshFrames, ModeReady, EnsureTable, TablePointer, InstallInL2;
    var n := T3(p.l4);
    EnsureRefines(c, s, t, n, p.l3);
    var (s2, e2) := EnsureTable(c, s, t.tables[n], p.l3, t.tables[n], WindowL2(p));
    if e2 != 0 {
      InstallInL2Refines(c, s2, Grow(t, s.frames, n, p.l3).tree, p, entry, force);
    }
  }

  lemma InstallRefines(c: Setting, s: State, t: Tree, p: Page, entry: Word, force: bool)
    requires c.links.Repaired? && Good(c, s, t) && Admissible(p)
    ensures Agree(c, Install(c, s, p, entry, force), TreeInstall(t, s.frames, p, entry, force))
  {
    hide Link, Peek, Represents, FreshFrames, ModeReady, EnsureTable, TablePointer, InstallInL3;
    assert Root in t.tables && t.tables[Root] == c.root by {
      RootIsTable(s.mem, c.root, t);
    }
    EnsureRefines(c, s, t, Root, p.l4);
    var (s3, e3) := EnsureTable(c, s, c.root, p.l4, c.root, WindowL3(p));
    if e3 != 0 {
      InstallInL3Refines(c, s3, Grow(t, s.frames, Root, p.l4).tree, p, entry, force);
    }
  }

  /** One `mapPage` call, whatever its outcome, does to memory what `TreeMap` does to the tree. */
  lemma MapRefines(c: Setting, s: State, t: Tree, r: Request)
    requires c.links.Repaired? && Good(c, s, t) && Admissible(PageOf(r.virt))
    ensures Agree(c, MapEffect(c, s, r), TreeMap(t, s.frames, r))
  {
    hide PageOf, PassesCanonicalTest, Translate, AddrOf, TableEntry, Install, TreeInstall, Represents, FreshFrames;
    assert Translate(s.mem, c.root, r.virt) == AddrOf(LeafOf(t.pages, PageOf(r.virt))) by {
      TranslateReadsLeaf(s.mem, c.root, t, r.virt);
    }
    InstallRefines(c, s, t, PageOf(r.virt), TableEntry(r.phys, r.flags), r.force);
  }

  lemma SuccessInstalls(c: Setting, s: State, r: Request)
    requires MapEffect(c, s, r).1 == NoError
    ensures MapEffect(c, s, r) == Install(c, s, PageOf(r.virt), TableEntry(r.phys, r.flags), r.force)
  {
    hide PassesCanonicalTest, PageOf, Translate, TableEntry, Install;
  }

  // ---------------------------------------------------------------------
  // What one call means for translations
  // ---------------------------------------------------------------------

  lemma GrowKeepsPages(t: Tree, frames: seq<Word>, n: Node, i: Index)
    requires !n.T1?
    ensures Grow(t, frames, n, i).tree.pages == t.pages
    ensures Grow(t, frames, n, i).error in {NoError, AllocFailed}
  {
  }

  lemma PathKeepsPages(t: Tree, frames: seq<Word>, p: Page)
    ensures GrowPath(t, frames, p).tree.pages == t.pages
    ensures GrowPath(t, frames, p).error in {NoError, AllocFailed}
  {
    hide Grow;
    var g3 := Grow(t, frames, Root, p.l4);
    var g2 := Then(g3, T3(p.l4), p.l3);
    GrowKeepsPages(t, frames, Root, p.l4);
    GrowKeepsPages(g3.tree, g3.frames, T3(p.l4), p.l3);
    GrowKeepsPages(g2.tree, g2.frames, T2(p.l4, p.l3), p.l2);
  }

  lemma PagesAfterMap(t: Tree, frames: seq<Word>, r: Request)
    ensures var g := TreeMap(t, frames, r);
      g.tree.pages == if g.error == NoError
                      then WithLeaf(t, PageOf(r.virt), TableEntry(r.phys, r.flags)).pages else t.pages
  {
    hide PageOf, PassesCanonicalTest, AddrOf, TableEntry, GrowPath;
    PathKeepsPages(t, frames, PageOf(r.virt));
  }

  /** The main refinement: a successful call updates the translation of every address on the
      page and of nothing else, whichever tables the other pages share with it; a failed call
      changes no translation, whichever allocation failed. */
  lemma MapPageUpdatesTranslation(c: Setting, s: State, t: Tree, r: Request, v: VAddr)
    requires c.links.Repaired? && Good(c, s, t) && Admissible(PageOf(r.virt))
    requires Admissible(PageOf(v))
    ensures var (s', error) := MapEffect(c, s, r);
      Translate(s'.mem, c.root, v) ==
        if error == NoError && PageOf(v) == PageOf(r.virt) then PagePart(r.phys) else Translate(s.mem, c.root, v)
    // So every whole page below 2^52 is what its virtual page translates to.
    ensures MapEffect(c, s, r).1 == NoError && PageOf(v) == PageOf(r.virt) && r.phys & 0xFFF == 0 && r.phys >> 52 == 0
      ==> Translate(MapEffect(c, s, r).0.mem, c.root, v) == r.phys
  {
    WholePageStays(r.phys);
    hide PagePart;
    hide PageOf, Translate, AddrOf, TableEntry, MapEffect, TreeMap;
    var (s', error) := MapEffect(c, s, r);
    var g := TreeMap(t, s.frames, r);
    MapRefines(c, s, t, r);
    PagesAfterMap(t, s.frames, r);
    EntryAddress(r.phys, r.flags);
    ZeroEntry();
    TranslateReadsLeaf(s.mem, c.root, t, v);
    TranslateReadsLeaf(s'.mem, c.root, g.tree, v);
  }
}
