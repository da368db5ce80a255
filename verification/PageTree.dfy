/**
 The abstract view of a page-table structure: a tree of tables and a finite map from
 virtual pages to leaf entries; and the proof that the words in memory represent it.
 */
module PageTree {
  import opened PageEntry
  import opened VirtualAddress
  import opened PhysicalMemory
  import opened PageTables

  /** A table, named by the indices that lead to it. */
  datatype Node = Root | T3(l4: Index) | T2(l4: Index, l3: Index) | T1(l4: Index, l3: Index, l2: Index)

  /** `tables` gives the frame of each existing table, `pages` the non-zero leaf entries. */
  datatype Tree = Tree(tables: map<Node, Word>, pages: map<Page, Word>)

  function Child(n: Node, i: Index): Node
    requires !n.T1?
  {
    match n
    case Root => T3(i)
    case T3(a) => T2(a, i)
    case T2(a, b) => T1(a, b, i)
  }

  function Parent(n: Node): Node
    requires !n.Root?
  {
    match n
    case T3(_) => Root
    case T2(a, _) => T3(a)
    case T1(a, b, _) => T2(a, b)
  }

  function LastIndex(n: Node): Index
    requires !n.Root?
  {
    match n
    case T3(i) => i
    case T2(_, i) => i
    case T1(_, _, i) => i
  }

  function TableOf(p: Page): Node {
    T1(p.l4, p.l3, p.l2)
  }

  function LeafOf(pages: map<Page, Word>, p: Page): Word {
    if p in pages then pages[p] else 0
  }

  /** No frame serves two tables. */
  ghost predicate Injective(tables: map<Node, Word>) {
    forall n, k :: n in tables && k in tables && tables[n] == tables[k] ==> n == k
  }

  ghost predicate ProperFrames(tables: map<Node, Word>) {
    forall n :: n in tables ==> PageAddr(tables[n])
  }

  ghost predicate ParentsExist(tables: map<Node, Word>) {
    forall n :: n in tables && !n.Root? ==> Parent(n) in tables && LastIndex(n) != RECURSIVE_INDEX
  }

  ghost predicate LeavesAttached(t: Tree) {
    forall p :: p in t.pages ==> TableOf(p) in t.tables && p.l1 != RECURSIVE_INDEX && t.pages[p] != 0
  }

  /** Every table hangs from its parent, up to the root; leaves live in existing L1 tables. */
  ghost predicate IsTree(t: Tree, root: Word) {
    && Root in t.tables
    && t.tables[Root] == root
    && Injective(t.tables)
    && ProperFrames(t.tables)
    && ParentsExist(t.tables)
    && LeavesAttached(t)
  }

  /** The word that slot `i` of table `n` must hold. */
  function Expected(t: Tree, n: Node, i: Index): Word
    requires n in t.tables
  {
    if i == RECURSIVE_INDEX then Link(t.tables[n])
    else if n.T1? then LeafOf(t.pages, Page(n.l4, n.l3, n.l2, i))
    else if Child(n, i) in t.tables then Link(t.tables[Child(n, i)])
    else 0
  }

  /** The root's own recursive slot is left open: the mapper never touches it. */
  ghost predicate Represents(m: Memory, root: Word, t: Tree) {
    && IsTree(t, root)
    && forall n, i :: n in t.tables && !(n.Root? && i == RECURSIVE_INDEX)
         ==> Peek(m, t.tables[n], i) == Expected(t, n, i)
  }

  // ---------------------------------------------------------------------
  // The two elementary updates
  // ---------------------------------------------------------------------

  function WithTable(t: Tree, n: Node, f: Word): Tree {
    t.(tables := t.tables[n := f])
  }

  function WithLeaf(t: Tree, p: Page, entry: Word): Tree {
    t.(pages := if entry == 0 then t.pages - {p} else t.pages[p := entry])
  }

  /** `m'` is `m` with the frame `f` made a table that is empty but for its self slot, and
      linked from slot `slot` of `parent`. */
  ghost predicate HungAs(m: Memory, m': Memory, f: Word, parent: Word, slot: Index) {
    forall b, i :: Peek(m', b, i) ==
      if b == f then (if i == RECURSIVE_INDEX then Link(f) else 0)
      else if b == parent && i == slot then Link(f)
      else Peek(m, b, i)
  }

  /** Room for a new table: the parent is no L1 table and the child does not exist yet. */
  ghost predicate CanHang(t: Tree, n: Node, slot: Index, f: Word) {
    && n in t.tables && !n.T1? && slot != RECURSIVE_INDEX && Child(n, slot) !in t.tables
    && PageAddr(f) && f !in t.tables.Values
  }

  lemma HangKeepsTree(t: Tree, root: Word, n: Node, slot: Index, f: Word)
    requires IsTree(t, root) && CanHang(t, n, slot, f)
    ensures IsTree(WithTable(t, Child(n, slot), f), root)
  {
    hide PageAddr;
    assert Parent(Child(n, slot)) == n && LastIndex(Child(n, slot)) == slot;
  }

  lemma ExpectedInNewTable(t: Tree, root: Word, n: Node, slot: Index, f: Word, i: Index)
    requires IsTree(t, root) && CanHang(t, n, slot, f)
    ensures Expected(WithTable(t, Child(n, slot), f), Child(n, slot), i) == if i == RECURSIVE_INDEX then Link(f) else 0
  {
    hide PageAddr, Link, Injective, ProperFrames;
    var c := Child(n, slot);
    if c.T1? {
      assert TableOf(Page(c.l4, c.l3, c.l2, i)) == c;
    } else {
      assert Parent(Child(c, i)) == c;
    }
  }

  lemma ExpectedElsewhere(t: Tree, n: Node, slot: Index, f: Word, k: Node, i: Index)
    requires CanHang(t, n, slot, f) && k in t.tables
    ensures Expected(WithTable(t, Child(n, slot), f), k, i) ==
      if k == n && i == slot then Link(f) else Expected(t, k, i)
  {
    hide PageAddr, Link;
    if !k.T1? {
      assert Parent(Child(k, i)) == k && LastIndex(Child(k, i)) == i;
      assert Parent(Child(n, slot)) == n && LastIndex(Child(n, slot)) == slot;
    }
  }

  lemma ExpectedAfterHang(t: Tree, root: Word, n: Node, slot: Index, f: Word, k: Node, i: Index)
    requires IsTree(t, root) && CanHang(t, n, slot, f)
    requires k in t.tables || k == Child(n, slot)
    ensures Expected(WithTable(t, Child(n, slot), f), k, i) ==
      if k == Child(n, slot) then (if i == RECURSIVE_INDEX then Link(f) else 0)
      else if k == n && i == slot then Link(f)
      else Expected(t, k, i)
  {
    hide PageAddr, Link, Injective, ProperFrames, ParentsExist, LeavesAttached, Expected;
    if k == Child(n, slot) {
      ExpectedInNewTable(t, root, n, slot, f, i);
    } else {
      ExpectedElsewhere(t, n, slot, f, k, i);
    }
  }

  lemma HangRepresents(m: Memory, m': Memory, root: Word, t: Tree, n: Node, slot: Index, f: Word)
    requires Represents(m, root, t) && CanHang(t, n, slot, f)
    requires HungAs(m, m', f, t.tables[n], slot)
    ensures Represents(m', root, WithTable(t, Child(n, slot), f))
  {
    hide PageAddr, Link, Peek, Expected, ProperFrames, ParentsExist, LeavesAttached;
    HangKeepsTree(t, root, n, slot, f);
    var t' := WithTable(t, Child(n, slot), f);
    forall k, i | k in t'.tables && !(k.Root? && i == RECURSIVE_INDEX)
      ensures Peek(m', t'.tables[k], i) == Expected(t', k, i)
    {
      ExpectedAfterHang(t, root, n, slot, f, k, i);
    }
  }

  lemma ExpectedAfterLeaf(t: Tree, p: Page, entry: Word, k: Node, i: Index)
    requires k in t.tables && p.l1 != RECURSIVE_INDEX
    ensures Expected(WithLeaf(t, p, entry), k, i) ==
      if k == TableOf(p) && i == p.l1 then entry else Expected(t, k, i)
  {
    hide Link;
  }

  lemma PeekPoke(m: Memory, a: Word, j: Index, w: Word, b: Word, i: Index)
    ensures Peek(Poke(m, a, j, w), b, i) == if b == a && i == j then w else Peek(m, b, i)
  {
  }

  lemma LeafRepresents(m: Memory, root: Word, t: Tree, p: Page, entry: Word)
    requires Represents(m, root, t)
    requires TableOf(p) in t.tables && p.l1 != RECURSIVE_INDEX
    ensures Represents(Poke(m, t.tables[TableOf(p)], p.l1, entry), root, WithLeaf(t, p, entry))
  {
    hide PageAddr, Link, Peek, Poke, Expected, ProperFrames, ParentsExist;
    var t' := WithLeaf(t, p, entry);
    var m' := Poke(m, t.tables[TableOf(p)], p.l1, entry);
    forall k, i | k in t'.tables && !(k.Root? && i == RECURSIVE_INDEX)
      ensures Peek(m', t'.tables[k], i) == Expected(t', k, i)
    {
      ExpectedAfterLeaf(t, p, entry, k, i);
      PeekPoke(m, t.tables[TableOf(p)], p.l1, entry, t.tables[k], i);
    }
  }

  // ---------------------------------------------------------------------
  // Reading the tables
  // ---------------------------------------------------------------------

  lemma ZeroEntry()
    ensures AddrOf(0) == 0
  {
  }

  /** What a walk sees in a slot of a table that is not an L1 table. */
  lemma ReadLink(m: Memory, root: Word, t: Tree, n: Node, i: Index)
    requires Represents(m, root, t) && n in t.tables && !n.T1? && i != RECURSIVE_INDEX
    ensures var e := Peek(m, t.tables[n], i);
      if Child(n, i) in t.tables
      then e == Link(t.tables[Child(n, i)]) && e != 0 && AddrOf(e) == t.tables[Child(n, i)] != 0
      else e == 0 && AddrOf(e) == 0
  {
    hide Link, Peek, AddrOf, Injective, ParentsExist, LeavesAttached;
    assert Peek(m, t.tables[n], i) == Expected(t, n, i);
    if Child(n, i) in t.tables {
      LinkFacts(t.tables[Child(n, i)]);
    } else {
      ZeroEntry();
    }
  }

  // The rest of the walk to a page, from the frame that serves as its L1, L2 or L3 table.
  function From1(m: Memory, f: Word, q: Page): Word {
    AddrOf(Peek(m, f, q.l1))
  }

  function From2(m: Memory, f: Word, q: Page): Word {
    var a := AddrOf(Peek(m, f, q.l2));
    if a == 0 then 0 else From1(m, a, q)
  }

  function From3(m: Memory, f: Word, q: Page): Word {
    var a := AddrOf(Peek(m, f, q.l3));
    if a == 0 then 0 else From2(m, a, q)
  }

  /** The tables on the way to an existing table exist. */
  lemma AncestorsExist(t: Tree, root: Word, p: Page)
    requires IsTree(t, root)
    ensures T1(p.l4, p.l3, p.l2) in t.tables ==> T2(p.l4, p.l3) in t.tables
    ensures T2(p.l4, p.l3) in t.tables ==> T3(p.l4) in t.tables
  {
    hide PageAddr, Injective, ProperFrames, LeavesAttached;
    assert Parent(T1(p.l4, p.l3, p.l2)) == T2(p.l4, p.l3) && Parent(T2(p.l4, p.l3)) == T3(p.l4);
  }

  lemma TableIsNotRoot(m: Memory, root: Word, t: Tree, n: Node)
    requires Represents(m, root, t) && n in t.tables && !n.Root?
    ensures t.tables[n] != root
  {
    hide Peek, Link, PageAddr, ParentsExist, LeavesAttached;
  }

  /** `translateVirtToPhys` looks the page up in the map. */
  lemma TranslateReadsLeaf(m: Memory, root: Word, t: Tree, v: VAddr)
    requires Represents(m, root, t) && Admissible(PageOf(v))
    ensures Translate(m, root, v) == AddrOf(LeafOf(t.pages, PageOf(v)))
  {
    hide PageOf, Peek, AddrOf, Link, ProperFrames, Injective, ParentsExist;
    var p := PageOf(v);
    AncestorsExist(t, root, p);
    ZeroEntry();
    ReadLink(m, root, t, Root, p.l4);
    if T3(p.l4) in t.tables {
      ReadLink(m, root, t, T3(p.l4), p.l3);
      if T2(p.l4, p.l3) in t.tables {
        ReadLink(m, root, t, T2(p.l4, p.l3), p.l2);
        if TableOf(p) in t.tables {
          assert Peek(m, t.tables[TableOf(p)], p.l1) == Expected(t, TableOf(p), p.l1);
        }
      }
    }
  }
}
