/**
 What a call does not touch: every word outside the frames of the tables, and the root's own
 recursive slot.  Together with `MapRefines` this determines memory word by word.
 */
module Footprint {
  import opened PageEntry
  import opened VirtualAddress
  import opened PhysicalMemory
  import opened PageTables
  import opened PageTree
  import opened RecursiveWindow
  import opened Refinement

  ghost predicate Untouched(m: Memory, m': Memory, root: Word, tables: map<Node, Word>) {
    forall b, i :: b !in tables.Values || (b == root && i == RECURSIVE_INDEX) ==> Peek(m', b, i) == Peek(m, b, i)
  }

  lemma UntouchedChain(m: Memory, m1: Memory, m2: Memory, root: Word, t1: Tree, t2: Tree)
    requires Untouched(m, m1, root, t1.tables) && Untouched(m1, m2, root, t2.tables)
    requires t1.tables.Values <= t2.tables.Values
    ensures Untouched(m, m2, root, t2.tables)
  {
    hide Peek;
  }

  lemma HangingIsLocal(m: Memory, m': Memory, root: Word, t: Tree, n: Node, slot: Index, f: Word)
    requires IsTree(t, root) && CanHang(t, n, slot, f) && HungAs(m, m', f, t.tables[n], slot)
    ensures var t' := WithTable(t, Child(n, slot), f);
      Untouched(m, m', root, t'.tables) && t.tables.Values <= t'.tables.Values
  {
    hide Peek, Link, PageAddr, ParentsExist, LeavesAttached, Injective;
    var t' := WithTable(t, Child(n, slot), f);
    forall w | w in t.tables.Values
      ensures w in t'.tables.Values
    {
      var k :| k in t.tables && t.tables[k] == w;
      assert t'.tables[k] == w;
    }
    assert t'.tables[Child(n, slot)] == f;
    assert t.tables[n] in t.tables.Values && t.tables[Root] in t.tables.Values;
  }

  lemma NothingTouched(m: Memory, root: Word, tables: map<Node, Word>)
    ensures Untouched(m, m, root, tables)
  {
  }

  lemma EnsureIsLocal(c: Setting, s: State, t: Tree, n: Node, i: Index)
    requires Good(c, s, t) && n in t.tables && !n.T1? && i != RECURSIVE_INDEX
    ensures var (s', e) := EnsureTable(c, s, t.tables[n], i, t.tables[n], WindowOf(n, i));
      var g := Grow(t, s.frames, n, i);
      Untouched(s.mem, s'.mem, c.root, g.tree.tables) && t.tables.Values <= g.tree.tables.Values
  {
    hide Link, PageAddr, Peek, NewTable, AddrOf, IsTree, WindowOf, HungAs, SelfMapped, Untouched;
    ReadLink(s.mem, c.root, t, n, i);
    NothingTouched(s.mem, c.root, t.tables);
    var f := NextFrame(s.frames);
    if Child(n, i) !in t.tables && f != 0 {
      assert f == s.frames[0];
      NewTableHangsExactly(c, s.mem, t, n, i, f);
      HangingIsLocal(s.mem, NewTable(c, s.mem, f, t.tables[n], i, WindowOf(n, i)), c.root, t, n, i, f);
    }
  }

  lemma LeafIsLocal(c: Setting, s: State, t: Tree, p: Page, entry: Word, force: bool)
    requires TableOf(p) in t.tables && p.l1 != RECURSIVE_INDEX
    ensures Untouched(s.mem, WriteLeaf(s, t.tables[TableOf(p)], p.l1, entry, force).0.mem, c.root, t.tables)
  {
    hide Peek, Poke;
    forall b, i | b !in t.tables.Values || (b == c.root && i == RECURSIVE_INDEX)
      ensures Peek(Poke(s.mem, t.tables[TableOf(p)], p.l1, entry), b, i) == Peek(s.mem, b, i)
    {
      PeekPoke(s.mem, t.tables[TableOf(p)], p.l1, entry, b, i);
    }
  }

  lemma InL2IsLocal(c: Setting, s: State, t: Tree, p: Page, entry: Word, force: bool)
    requires c.links.Repaired? && Good(c, s, t) && Admissible(p) && T2(p.l4, p.l3) in t.tables
    ensures var g := Grow(t, s.frames, T2(p.l4, p.l3), p.l2);
      && Untouched(s.mem, InstallInL2(c, s, t.tables[T2(p.l4, p.l3)], p, entry, force).0.mem, c.root, g.tree.tables)
      && t.tables.Values <= g.tree.tables.Values
  {
    hide Link, Peek, Represents, FreshFrames, ModeReady, EnsureTable, TablePointer, WriteLeaf, Untouched;
    var n := T2(p.l4, p.l3);
    EnsureRefines(c, s, t, n, p.l2);
    EnsureIsLocal(c, s, t, n, p.l2);
    var (s1, e1) := EnsureTable(c, s, t.tables[n], p.l2, t.tables[n], WindowL1(p));
    if e1 != 0 {
      var t1 := Grow(t, s.frames, n, p.l2).tree;
      LeafIsLocal(c, s1, t1, p, entry, force);
      UntouchedChain(s.mem, s1.mem, WriteLeaf(s1, t1.tables[TableOf(p)], p.l1, entry, force).0.mem, c.root, t1, t1);
    }
  }

  lemma InL3IsLocal(c: Setting, s: State, t: Tree, p: Page, entry: Word, force: bool)
    requires c.links.Repaired? && Good(c, s, t) && Admissible(p) && T3(p.l4) in t.tables
    ensures var g := Then(Grow(t, s.frames, T3(p.l4), p.l3), T2(p.l4, p.l3), p.l2);
      && Untouched(s.mem, InstallInL3(c, s, t.tables[T3(p.l4)], p, entry, force).0.mem, c.root, g.tree.tables)
      && t.tables.Values <= g.tree.tables.Values
  {
    hide Link, Peek, Represents, FreshFrames, ModeReady, EnsureTable, TablePointer, InstallInL2, Untouched;
    var n := T3(p.l4);
    EnsureRefines(c, s, t, n, p.l3);
    EnsureIsLocal(c, s, t, n, p.l3);
    var (s2, e2) := EnsureTable(c, s, t.tables[n], p.l3, t.tables[n], WindowL2(p));
    if e2 != 0 {
      var g2 := Grow(t, s.frames, n, p.l3);
      InL2IsLocal(c, s2, g2.tree, p, entry, force);
      UntouchedChain(s.mem, s2.mem, InstallInL2(c, s2, g2.tree.tables[T2(p.l4, p.l3)], p, entry, force).0.mem, c.root,
                     g2.tree, Grow(g2.tree, g2.frames, T2(p.l4, p.l3), p.l2).tree);
    }
  }

  lemma InstallIsLocal(c: Setting, s: State, t: Tree, p: Page, entry: Word, force: bool)
    requires c.links.Repaired? && Good(c, s, t) && Admissible(p)
    ensures var g := GrowPath(t, s.frames, p);
      && Untouched(s.mem, Install(c, s, p, entry, force).0.mem, c.root, g.tree.tables)
      && t.tables.Values <= g.tree.tables.Values
  {
    hide Link, Peek, Represents, FreshFrames, ModeReady, EnsureTable, TablePointer, InstallInL3, Untouched;
    assert Root in t.tables && t.tables[Root] == c.root by {
      RootIsTable(s.mem, c.root, t);
    }
    EnsureRefines(c, s, t, Root, p.l4);
    EnsureIsLocal(c, s, t, Root, p.l4);
    var (s3, e3) := EnsureTable(c, s, c.root, p.l4, c.root, WindowL3(p));
    if e3 != 0 {
      var g3 := Grow(t, s.frames, Root, p.l4);
      InL3IsLocal(c, s3, g3.tree, p, entry, force);
      UntouchedChain(s.mem, s3.mem, InstallInL3(c, s3, g3.tree.tables[T3(p.l4)], p, entry, force).0.mem, c.root,
                     g3.tree, GrowPath(t, s.frames, p).tree);
    }
  }

  lemma TablesAfterMap(t: Tree, frames: seq<Word>, r: Request)
    ensures var g := TreeMap(t, frames, r);
      g.tree.tables == t.tables || g.tree.tables == GrowPath(t, frames, PageOf(r.virt)).tree.tables
    ensures !PassesCanonicalTest(r.virt) || (!r.force && AddrOf(LeafOf(t.pages, PageOf(r.virt))) != 0)
      || TreeMap(t, frames, r).tree.tables == GrowPath(t, frames, PageOf(r.virt)).tree.tables
  {
    hide PageOf, PassesCanonicalTest, AddrOf, TableEntry, GrowPath;
  }

  /** A call, whatever its outcome, changes no word outside the frames that are tables afterwards,
      nor the root's recursive slot. */
  lemma MapTouchesOnlyTables(c: Setting, s: State, t: Tree, r: Request)
    requires c.links.Repaired? && Good(c, s, t) && Admissible(PageOf(r.virt))
    ensures Untouched(s.mem, MapEffect(c, s, r).0.mem, c.root, TreeMap(t, s.frames, r).tree.tables)
  {
    hide PageOf, PassesCanonicalTest, Translate, AddrOf, TableEntry, Install, TreeMap, Represents, FreshFrames,
      GrowPath;
    hide Untouched, ModeReady;
    TranslateReadsLeaf(s.mem, c.root, t, r.virt);
    TablesAfterMap(t, s.frames, r);
    NothingTouched(s.mem, c.root, TreeMap(t, s.frames, r).tree.tables);
    InstallIsLocal(c, s, t, PageOf(r.virt), TableEntry(r.phys, r.flags), r.force);
  }

  /** With the recursive slot in place and zeroed frames on offer, the two modes do the same, word
      for word: same error, same frames taken, same memory. */
  lemma ModesAgree(root: Word, s: State, t: Tree, r: Request, b: Word, i: Index)
    requires Good(Setting(root, Repaired, false), s, t) && Good(Setting(root, Repaired, true), s, t)
    requires Admissible(PageOf(r.virt))
    ensures var (s1, error1) := MapEffect(Setting(root, Repaired, false), s, r);
      var (s2, error2) := MapEffect(Setting(root, Repaired, true), s, r);
      && error1 == error2 && s1.frames == s2.frames
      && Peek(s1.mem, b, i) == Peek(s2.mem, b, i)
  {
    hide PageOf, MapEffect, TreeMap, FreshFrames, ModeReady, Peek, IsTree, Expected;
    var on, off := Setting(root, Repaired, false), Setting(root, Repaired, true);
    var t' := TreeMap(t, s.frames, r).tree;
    MapRefines(on, s, t, r);
    MapRefines(off, s, t, r);
    MapTouchesOnlyTables(on, s, t, r);
    MapTouchesOnlyTables(off, s, t, r);
    RootIsTable(MapEffect(on, s, r).0.mem, root, t');
    if b in t'.tables.Values {
      var n :| n in t'.tables && t'.tables[n] == b;
      assert n.Root? && i == RECURSIVE_INDEX ==> b == root;
    }
  }
}
