/**
 The recursive window: with the root's slot 1 pointing at the root itself, the tables show
 up as pages of the virtual address space.  A hardware walk of a window address reaches the
 same table as the physical pointer.
 */
module RecursiveWindow {
  import opened PageEntry
  import opened VirtualAddress
  import opened PhysicalMemory
  import opened PageTables
  import opened PageTree

  ghost predicate SelfMapped(m: Memory, root: Word) {
    HasHw(Peek(m, root, RECURSIVE_INDEX), HW_PRESENT) && AddrOf(Peek(m, root, RECURSIVE_INDEX)) == root
  }

  predicate Present(e: Word) {
    HasHw(e, HW_PRESENT)
  }

  predicate Writable(e: Word) {
    HasHw(e, HW_WRITE_ENABLE)
  }

  /** The window can be read and written: what the mapper needs while paging is enabled. */
  ghost predicate WindowReady(m: Memory, root: Word) {
    SelfMapped(m, root) && Writable(Peek(m, root, RECURSIVE_INDEX))
  }

  lemma FirstHop(m: Memory, root: Word)
    requires SelfMapped(m, root)
    ensures var a := Descend(m, Access(root, true, true, true), RECURSIVE_INDEX);
      a.Access? && a.frame == root && a.write == Writable(Peek(m, root, RECURSIVE_INDEX))
  {
    hide Peek, AddrOf, HasHw;
  }

  lemma Hop(m: Memory, a: Access, i: Index)
    requires a.Access?
    ensures Descend(m, a, i).Access? <==> Present(Peek(m, a.frame, i))
    ensures Descend(m, a, i).Access? ==> Descend(m, a, i).frame == AddrOf(Peek(m, a.frame, i))
    ensures Descend(m, a, i).Access? ==> (Descend(m, a, i).write <==> a.write && Writable(Peek(m, a.frame, i)))
  {
    hide Peek, AddrOf, HasHw;
  }

  lemma ZeroNotPresent()
    ensures !Present(0)
  {
  }

  lemma SelfMappedEntry(m: Memory, root: Word)
    requires SelfMapped(m, root)
    ensures Present(Peek(m, root, RECURSIVE_INDEX)) && AddrOf(Peek(m, root, RECURSIVE_INDEX)) == root
  {
  }

  lemma FaultStays(m: Memory, p: Page)
    ensures Descend(m, Fault, p.l3) == Fault && Descend(m, Fault, p.l2) == Fault
  {
  }

  /** For every memory and all indices: each window page reaches the frame that the direct
      branch takes from the entry, exactly when the entries on the way are present. */
  lemma WindowReachesTables(m: Memory, root: Word, p: Page)
    requires SelfMapped(m, root)
    ensures var e3 := Peek(m, root, p.l4);
      var e2 := Peek(m, AddrOf(e3), p.l3);
      var e1 := Peek(m, AddrOf(e2), p.l2);
      var w3, w2, w1 := HardwareWalk(m, root, WindowL3(p)), HardwareWalk(m, root, WindowL2(p)),
                        HardwareWalk(m, root, WindowL1(p));
      && (w3.Access? <==> Present(e3))
      && (w3.Access? ==> w3.frame == AddrOf(e3))
      && (w2.Access? <==> Present(e3) && Present(e2))
      && (w2.Access? ==> w2.frame == AddrOf(e2))
      && (w1.Access? <==> Present(e3) && Present(e2) && Present(e1))
      && (w1.Access? ==> w1.frame == AddrOf(e1))
    ensures var e3 := Peek(m, root, p.l4);
      var e2 := Peek(m, AddrOf(e3), p.l3);
      var e1 := Peek(m, AddrOf(e2), p.l2);
      var w3, w2, w1 := HardwareWalk(m, root, WindowL3(p)), HardwareWalk(m, root, WindowL2(p)),
                        HardwareWalk(m, root, WindowL1(p));
      var w := Writable(Peek(m, root, RECURSIVE_INDEX));
      && (w3.Access? ==> (w3.write <==> w && Writable(e3)))
      && (w2.Access? ==> (w2.write <==> w && Writable(e3) && Writable(e2)))
      && (w1.Access? ==> (w1.write <==> w && Writable(e3) && Writable(e2) && Writable(e1)))
  {
    hide Peek, AddrOf, Present, Writable, SelfMapped, Descend;
    FirstHop(m, root);
    var r1 := Descend(m, Access(root, true, true, true), RECURSIVE_INDEX);
    Hop(m, r1, RECURSIVE_INDEX);
    SelfMappedEntry(m, root);
    var r2 := Descend(m, r1, RECURSIVE_INDEX);
    Hop(m, r2, RECURSIVE_INDEX);
    var r3 := Descend(m, r2, RECURSIVE_INDEX);
    FaultStays(m, p);
    Hop(m, r3, p.l4);
    Hop(m, r2, p.l4);
    Hop(m, r1, p.l4);
    if Present(Peek(m, root, p.l4)) {
      var a2, a1 := Descend(m, r2, p.l4), Descend(m, r1, p.l4);
      Hop(m, a2, p.l3);
      Hop(m, a1, p.l3);
      if Descend(m, a1, p.l3).Access? {
        Hop(m, Descend(m, a1, p.l3), p.l2);
      }
    }
  }

  /** The address the source forms selects that page; but the sign extension it adds makes the
      address canonical exactly when the top index has its high bit set, which index 1 has not. */
  lemma WindowAddressAsWritten(w: Page)
    ensures PageOf(WindowAddress(w)) == w
    ensures Canonical(WindowAddress(w)) <==> w.l4 & 0x100 != 0
    ensures w.l4 == RECURSIVE_INDEX ==> !Canonical(WindowAddress(w)) && Canonical(Low48(w))
  {
    hide Low48, PageOf, Canonical;
    SplitLow48(w);
    SplitIgnoresExtension(Low48(w));
    ExtendedIsCanonical(w);
  }

  // ---------------------------------------------------------------------
  // Window pointers into a represented tree
  // ---------------------------------------------------------------------

  /** The window page that shows the table below slot `i` of table `n`. */
  function WindowOf(n: Node, i: Index): Page
    requires !n.T1?
  {
    match n
    case Root => Page(RECURSIVE_INDEX, RECURSIVE_INDEX, RECURSIVE_INDEX, i)
    case T3(a) => Page(RECURSIVE_INDEX, RECURSIVE_INDEX, a, i)
    case T2(a, b) => Page(RECURSIVE_INDEX, a, b, i)
  }

  /** The links from the root down to table `n` are in memory. */
  ghost predicate LinkedDownTo(m: Memory, t: Tree, n: Node)
    requires Root in t.tables
  {
    match n
    case Root => true
    case T3(a) => n in t.tables && Peek(m, t.tables[Root], a) == Link(t.tables[n])
    case T2(a, b) =>
      && T3(a) in t.tables && n in t.tables
      && Peek(m, t.tables[Root], a) == Link(t.tables[T3(a)])
      && Peek(m, t.tables[T3(a)], b) == Link(t.tables[n])
    case T1(_, _, _) => false
  }

  lemma LinkPresent(f: Word)
    requires PageAddr(f)
    ensures Present(Link(f)) && Writable(Link(f)) && AddrOf(Link(f)) == f
  {
    LinkFacts(f);
    FlagsRoundTrip(f, PRESENT | WRITE_BIT);
  }

  /** A store through the pointer is permitted: the walk to the window page grants writing. */
  ghost predicate StoreAllowed(c: Setting, m: Memory, window: Page) {
    c.pagingDisabledNow ||
    var a := HardwareWalk(m, c.root, PageOf(WindowAddress(window)));
    a.Access? && a.write
  }

  lemma WindowPointer(c: Setting, m: Memory, t: Tree, n: Node, i: Index, f: Word)
    requires Root in t.tables && t.tables[Root] == c.root && ProperFrames(t.tables)
    requires SelfMapped(m, c.root) && n in t.tables && LinkedDownTo(m, t, n)
    requires PageAddr(f) && Peek(m, t.tables[n], i) == Link(f)
    ensures TablePointer(c, m, Link(f), WindowOf(n, i)) == f
    ensures WindowReady(m, c.root) ==> StoreAllowed(c, m, WindowOf(n, i))
  {
    hide Peek, AddrOf, Link, PageAddr, Present, Writable, HardwareWalk, PageOf, WindowAddress, SelfMapped;
    LinkPresent(f);
    WindowAddressAsWritten(WindowOf(n, i));
    match n
    case Root =>
      WindowReachesTables(m, c.root, Page(i, 0, 0, 0));
    case T3(a) =>
      LinkPresent(t.tables[n]);
      WindowReachesTables(m, c.root, Page(a, i, 0, 0));
    case T2(a, b) =>
      LinkPresent(t.tables[T3(a)]);
      LinkPresent(t.tables[n]);
      WindowReachesTables(m, c.root, Page(a, b, i, 0));
  }

  lemma RepresentedIsLinked(m: Memory, root: Word, t: Tree, n: Node)
    requires Represents(m, root, t) && n in t.tables && !n.T1?
    ensures LinkedDownTo(m, t, n)
  {
    hide Peek, AddrOf, Link, Injective, ProperFrames, LeavesAttached, Expected;
    match n
    case Root =>
    case T3(a) =>
      assert Parent(n) == Root && Child(Root, a) == n;
      ReadLink(m, root, t, Root, a);
    case T2(a, b) =>
      assert Parent(n) == T3(a) && Child(T3(a), b) == n;
      assert Parent(T3(a)) == Root && Child(Root, a) == T3(a);
      ReadLink(m, root, t, Root, a);
      ReadLink(m, root, t, T3(a), b);
  }
}
