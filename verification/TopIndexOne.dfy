/**
 Top index 1 while the root's slot 1 is not a self slot.  `mapPage` never fills that slot for other
 pages, so with a cleared root it is an ordinary slot: below it grows a tree of its own.  This
 file shows that requests for top index 1 do below slot 1 what the same requests with top index 0
 would do below slot 0 of an otherwise empty root, and draws the consequences: both trees stay
 proper, neither disturbs the other, and the run theorem extends to every top index.
 */
module TopIndexOne {
  import opened PageEntry
  import opened VirtualAddress
  import opened PhysicalMemory
  import opened PageTables
  import opened PageTree
  import opened Refinement
  import opened Footprint
  import opened Runs
  import opened SelfSlots
  import opened CallOutcomes

  // ---------------------------------------------------------------------
  // The view of what lies below slot 1
  // ---------------------------------------------------------------------

  /** The memory with the root's slot 1 moved to slot 0, and nothing else in the root. */
  function View(m: Memory, root: Word): Memory {
    Poke(ClearTable(m, root), root, 0, Peek(m, root, RECURSIVE_INDEX))
  }

  /** `ms` shows what lies below slot 1 in `m`; the other slots of the root are those of `m0`. */
  ghost predicate Viewed(m0: Memory, m: Memory, ms: Memory, root: Word) {
    && (forall b, i :: Peek(m, b, i) ==
          if b == root then (if i == RECURSIVE_INDEX then Peek(ms, root, 0) else Peek(m0, root, i))
          else Peek(ms, b, i))
    && (forall i: Index :: i != 0 ==> Peek(ms, root, i) == 0)
  }

  lemma PeekView(m: Memory, root: Word, b: Word, i: Index)
    ensures Peek(View(m, root), b, i) ==
      if b == root then (if i == 0 then Peek(m, root, RECURSIVE_INDEX) else 0) else Peek(m, b, i)
  {
    hide Peek, Poke, ClearTable;
    PeekClear(m, root, b, i);
    PeekPoke(ClearTable(m, root), root, 0, Peek(m, root, RECURSIVE_INDEX), b, i);
  }

  lemma ViewIsViewed(m: Memory, root: Word)
    ensures Viewed(m, m, View(m, root), root)
  {
    hide Peek, View;
    forall b, i
      ensures Peek(View(m, root), b, i) ==
        if b == root then (if i == 0 then Peek(m, root, RECURSIVE_INDEX) else 0) else Peek(m, b, i)
    {
      PeekView(m, root, b, i);
    }
  }

  /** The view of the new memory is the new memory of the view, word for word. */
  lemma ViewAfter(m0: Memory, m: Memory, ms: Memory, root: Word, b: Word, i: Index)
    requires Viewed(m0, m, ms, root)
    ensures Peek(View(m, root), b, i) == Peek(ms, b, i)
  {
    hide Peek, View;
    PeekView(m, root, b, i);
    assert Peek(m, root, RECURSIVE_INDEX) == Peek(ms, root, 0);
    assert b != root ==> Peek(m, b, i) == Peek(ms, b, i);
  }

  lemma SameWord(m0: Memory, m: Memory, ms: Memory, root: Word, b: Word, i: Index)
    requires Viewed(m0, m, ms, root)
    ensures b != root ==> Peek(m, b, i) == Peek(ms, b, i)
    ensures Peek(m, root, RECURSIVE_INDEX) == Peek(ms, root, 0)
  {
    hide Peek;
  }

  lemma SameWordsSameTree(m: Memory, m': Memory, root: Word, t: Tree)
    requires Represents(m, root, t) && forall b, i :: Peek(m', b, i) == Peek(m, b, i)
    ensures Represents(m', root, t)
  {
    hide Peek, IsTree, Expected;
  }

  function Lower(v: VAddr): VAddr {
    v ^ 0x80_0000_0000
  }

  function LowerPage(p: Page): Page {
    p.(l4 := 0)
  }

  lemma LowerSplits(v: VAddr)
    requires PageOf(v).l4 == 1
    ensures PageOf(Lower(v)) == LowerPage(PageOf(v))
    ensures PassesCanonicalTest(Lower(v)) <==> PassesCanonicalTest(v)
  {
  }

  function LowerRequest(r: Request): Request {
    r.(virt := Lower(r.virt))
  }

  // ---------------------------------------------------------------------
  // One call, beside the same call in the view
  // ---------------------------------------------------------------------

  /** Two states side by side. */
  ghost predicate Beside(m0: Memory, c: Setting, s: State, ss: State) {
    s.frames == ss.frames && Viewed(m0, s.mem, ss.mem, c.root)
  }

  lemma HungBeside(m0: Memory, m: Memory, m': Memory, ms: Memory, ms': Memory, root: Word, f: Word, a: Word, i: Index)
    requires Viewed(m0, m, ms, root) && f != root
    requires if a == root then HungAs(m, m', f, root, RECURSIVE_INDEX) && HungAs(ms, ms', f, root, 0)
             else HungAs(m, m', f, a, i) && HungAs(ms, ms', f, a, i)
    ensures Viewed(m0, m', ms', root)
  {
    hide Peek, Link;
  }

  lemma RootBeside(m0: Memory, c: Setting, s: State, ss: State, w: Page, ws: Page)
    requires c.pagingDisabledNow && Beside(m0, c, s, ss)
    requires var f := NextFrame(s.frames); f != 0 ==> PageAddr(f) && f != c.root
    ensures var (s', e) := EnsureTable(c, s, c.root, RECURSIVE_INDEX, c.root, w);
      var (ss', es) := EnsureTable(c, ss, c.root, 0, c.root, ws);
      e == es && Beside(m0, c, s', ss')
  {
    hide Peek, Link, PageAddr, NewTable, HungAs, Viewed;
    var f := NextFrame(s.frames);
    SameWord(m0, s.mem, ss.mem, c.root, c.root, 0);
    if f != 0 {
      NewTableAnywhere(c, s.mem, f, c.root, RECURSIVE_INDEX, w);
      NewTableAnywhere(c, ss.mem, f, c.root, 0, ws);
      HungBeside(m0, s.mem, NewTable(c, s.mem, f, c.root, RECURSIVE_INDEX, w),
                 ss.mem, NewTable(c, ss.mem, f, c.root, 0, ws), c.root, f, c.root, 0);
    }
  }

  lemma TableBeside(m0: Memory, c: Setting, s: State, ss: State, a: Word, i: Index, w: Page, ws: Page)
    requires c.pagingDisabledNow && Beside(m0, c, s, ss) && a != c.root
    requires var f := NextFrame(s.frames); f != 0 ==> PageAddr(f) && f != c.root && f != a
    ensures var (s', e) := EnsureTable(c, s, a, i, a, w);
      var (ss', es) := EnsureTable(c, ss, a, i, a, ws);
      e == es && Beside(m0, c, s', ss')
  {
    hide Peek, Link, PageAddr, NewTable, HungAs, Viewed;
    var f := NextFrame(s.frames);
    SameWord(m0, s.mem, ss.mem, c.root, a, i);
    if f != 0 {
      NewTableAnywhere(c, s.mem, f, a, i, w);
      NewTableAnywhere(c, ss.mem, f, a, i, ws);
      HungBeside(m0, s.mem, NewTable(c, s.mem, f, a, i, w), ss.mem, NewTable(c, ss.mem, f, a, i, ws), c.root, f, a, i);
    }
  }

  lemma PokeBeside(m0: Memory, m: Memory, ms: Memory, root: Word, a: Word, i: Index, w: Word)
    requires Viewed(m0, m, ms, root) && a != root
    ensures Viewed(m0, Poke(m, a, i, w), Poke(ms, a, i, w), root)
  {
    hide Peek, Poke;
    var m', ms' := Poke(m, a, i, w), Poke(ms, a, i, w);
    forall b, j
      ensures Peek(m', b, j) == if b == a && j == i then w else Peek(m, b, j)
    {
      PeekPoke(m, a, i, w, b, j);
    }
    forall b, j
      ensures Peek(ms', b, j) == if b == a && j == i then w else Peek(ms, b, j)
    {
      PeekPoke(ms, a, i, w, b, j);
    }
  }

  lemma LeafBeside(m0: Memory, c: Setting, s: State, ss: State, a: Word, i: Index, entry: Word, force: bool)
    requires Beside(m0, c, s, ss) && a != c.root
    ensures var (s', e) := WriteLeaf(s, a, i, entry, force);
      var (ss', es) := WriteLeaf(ss, a, i, entry, force);
      e == es && Beside(m0, c, s', ss')
  {
    hide Peek, Poke, Viewed;
    SameWord(m0, s.mem, ss.mem, c.root, a, i);
    PokeBeside(m0, s.mem, ss.mem, c.root, a, i, entry);
  }

  /** The frames that the next block meets: the table it works on, and the one it may take. */
  lemma FramesApart(c: Setting, s: State, t: Tree, n: Node)
    requires Good(c, s, t) && n in t.tables
    ensures Root in t.tables && t.tables[Root] == c.root
    ensures !n.Root? ==> t.tables[n] != c.root
    ensures var f := NextFrame(s.frames); f != 0 ==> PageAddr(f) && f != c.root && f != t.tables[n]
  {
    hide Peek, PageAddr, ParentsExist, LeavesAttached;
    assert t.tables[n] in t.tables.Values && t.tables[Root] in t.tables.Values;
    assert s.frames != [] ==> NextFrame(s.frames) == s.frames[0];
  }

  lemma SameSupply(m0: Memory, c: Setting, s: State, ss: State)
    requires Beside(m0, c, s, ss)
    ensures s.frames == ss.frames
  {
  }

  lemma InL2Beside(m0: Memory, c: Setting, s: State, ss: State, u: Tree, p: Page, entry: Word, force: bool)
    requires c.links.Repaired? && c.pagingDisabledNow && Beside(m0, c, s, ss) && Good(c, ss, u)
    requires p.l4 == 1 && Node2(LowerPage(p)) in u.tables
    ensures var a := u.tables[Node2(LowerPage(p))];
      var (s', error) := InstallInL2(c, s, a, p, entry, force);
      var (ss', errors) := InstallInL2(c, ss, a, LowerPage(p), entry, force);
      error == errors && Beside(m0, c, s', ss')
  {
    hide Peek, Link, PageAddr, AddrOf, EnsureTable, WriteLeaf, Good, Beside, Untouched, StepNode, Node3, Node2, Node1,
      Grow;
    var q := LowerPage(p);
    NodeSteps(q);
    var n := Node2(q);
    var a := u.tables[n];
    FramesApart(c, ss, u, n);
    SameSupply(m0, c, s, ss);
    TableBeside(m0, c, s, ss, a, p.l2, WindowL1(p), WindowL1(q));
    EnsureWalks(c, ss, u, n, q.l2, WindowL1(q));
    var (ss1, e1) := EnsureTable(c, ss, a, q.l2, a, WindowL1(q));
    var s1 := EnsureTable(c, s, a, p.l2, a, WindowL1(p)).0;
    if e1 != 0 {
      var u1 := WalkStep(Outcome(u, ss.frames, NoError), n, q.l2).tree;
      FramesApart(c, ss1, u1, Node1(q));
      LeafBeside(m0, c, s1, ss1, u1.tables[Node1(q)], p.l1, entry, force);
    }
  }

  lemma InL3Beside(m0: Memory, c: Setting, s: State, ss: State, u: Tree, p: Page, entry: Word, force: bool)
    requires c.links.Repaired? && c.pagingDisabledNow && Beside(m0, c, s, ss) && Good(c, ss, u)
    requires p.l4 == 1 && Node3(LowerPage(p)) in u.tables
    ensures var a := u.tables[Node3(LowerPage(p))];
      var (s', error) := InstallInL3(c, s, a, p, entry, force);
      var (ss', errors) := InstallInL3(c, ss, a, LowerPage(p), entry, force);
      error == errors && Beside(m0, c, s', ss')
  {
    hide Peek, Link, PageAddr, AddrOf, EnsureTable, WriteLeaf, Good, Beside, Untouched, StepNode, Node3, Node2, Node1,
      Grow, InstallInL2;
    var q := LowerPage(p);
    NodeSteps(q);
    var n := Node3(q);
    var a := u.tables[n];
    FramesApart(c, ss, u, n);
    SameSupply(m0, c, s, ss);
    TableBeside(m0, c, s, ss, a, p.l3, WindowL2(p), WindowL2(q));
    EnsureWalks(c, ss, u, n, q.l3, WindowL2(q));
    var (ss2, e2) := EnsureTable(c, ss, a, q.l3, a, WindowL2(q));
    var s2 := EnsureTable(c, s, a, p.l3, a, WindowL2(p)).0;
    if e2 != 0 {
      InL2Beside(m0, c, s2, ss2, WalkStep(Outcome(u, ss.frames, NoError), n, q.l3).tree, p, entry, force);
    }
  }

  lemma InstallBeside(m0: Memory, c: Setting, s: State, ss: State, u: Tree, p: Page, entry: Word, force: bool)
    requires c.links.Repaired? && c.pagingDisabledNow && Beside(m0, c, s, ss) && Good(c, ss, u) && p.l4 == 1
    ensures var (s', error) := Install(c, s, p, entry, force);
      var (ss', errors) := Install(c, ss, LowerPage(p), entry, force);
      error == errors && Beside(m0, c, s', ss')
  {
    hide Peek, Link, PageAddr, AddrOf, EnsureTable, WriteLeaf, Good, Beside, Untouched, StepNode, Node3, Node2, Node1,
      Grow, InstallInL3;
    var q := LowerPage(p);
    NodeSteps(q);
    PointerL3(c, ss, u, q, 0);
    FramesApart(c, ss, u, Root);
    SameSupply(m0, c, s, ss);
    RootBeside(m0, c, s, ss, WindowL3(p), WindowL3(q));
    EnsureWalks(c, ss, u, Root, q.l4, WindowL3(q));
    var (ss3, e3) := EnsureTable(c, ss, c.root, q.l4, c.root, WindowL3(q));
    var s3 := EnsureTable(c, s, c.root, p.l4, c.root, WindowL3(p)).0;
    if e3 != 0 {
      InL3Beside(m0, c, s3, ss3, WalkStep(Outcome(u, ss.frames, NoError), Root, q.l4).tree, p, entry, force);
    }
  }

  lemma NodeApart(m: Memory, root: Word, u: Tree, n: Node)
    requires Represents(m, root, u) && !n.Root?
    ensures FrameOf(u, n) != 0 ==> FrameOf(u, n) != root
  {
    hide Represents;
    if n in u.tables {
      TableIsNotRoot(m, root, u, n);
    }
  }

  /** An address with top index 1 translates as its counterpart does in the view. */
  lemma TranslateBeside(m0: Memory, m: Memory, ms: Memory, root: Word, u: Tree, v: VAddr)
    requires Viewed(m0, m, ms, root) && Represents(ms, root, u) && PageOf(v).l4 == 1
    ensures Translate(m, root, v) == Translate(ms, root, Lower(v))
  {
    hide PageOf, Peek, AddrOf, Lower, Viewed, Represents, StepNode, Node3, Node2, Node1;
    var p := PageOf(v);
    var q := LowerPage(p);
    LowerSplits(v);
    assert PageOf(Lower(v)) == q && q.l4 == 0;
    Reads(ms, root, u, q);
    NodeSteps(q);
    SameWord(m0, m, ms, root, root, 0);
    NodeApart(ms, root, u, Node3(q));
    NodeApart(ms, root, u, Node2(q));
    NodeApart(ms, root, u, Node1(q));
    SameWord(m0, m, ms, root, FrameOf(u, Node3(q)), p.l3);
    SameWord(m0, m, ms, root, FrameOf(u, Node2(q)), p.l2);
    SameWord(m0, m, ms, root, FrameOf(u, Node1(q)), p.l1);
  }

  lemma MapBeside(c: Setting, s: State, u: Tree, r: Request)
    requires c.links.Repaired? && c.pagingDisabledNow && PageOf(r.virt).l4 == 1
    requires Good(c, State(View(s.mem, c.root), s.frames), u)
    ensures var (s', error) := MapEffect(c, s, r);
      var (ss', errors) := MapEffect(c, State(View(s.mem, c.root), s.frames), LowerRequest(r));
      error == errors && Beside(s.mem, c, s', ss')
  {
    hide PageOf, PassesCanonicalTest, Translate, Install, TableEntry, View, Viewed, Represents, FreshFrames, Lower;
    var ss := State(View(s.mem, c.root), s.frames);
    LowerSplits(r.virt);
    ViewIsViewed(s.mem, c.root);
    TranslateBeside(s.mem, s.mem, ss.mem, c.root, u, r.virt);
    InstallBeside(s.mem, c, s, ss, u, PageOf(r.virt), TableEntry(r.phys, r.flags), r.force);
  }

  // ---------------------------------------------------------------------
  // Two trees
  // ---------------------------------------------------------------------

  /** Slot 1 of the root leads to a tree of its own, `u`, named with top index 0 in place of 1;
      `t` is the tree below the other slots.  They share the root and no other frame. */
  ghost predicate TwoTrees(c: Setting, s: State, t: Tree, u: Tree) {
    && c.links.Repaired? && c.pagingDisabledNow
    && Good(c, s, t) && Good(c, State(View(s.mem, c.root), s.frames), u)
    && forall w :: w in t.tables.Values && w in u.tables.Values ==> w == c.root
  }

  /** A cleared root, slot 1 included, is the start. */
  lemma StartIsTwoTrees(c: Setting, s: State)
    requires c.links.Repaired? && c.pagingDisabledNow && Start(c, s) && Peek(s.mem, c.root, RECURSIVE_INDEX) == 0
    ensures TwoTrees(c, s, EmptyTree(c.root), EmptyTree(c.root))
  {
    hide Peek, View, PageAddr, Good;
    StartIsEmptyTree(c, s);
    RootValue(c.root);
    forall i: Index
      ensures Peek(View(s.mem, c.root), c.root, i) == 0
    {
      PeekView(s.mem, c.root, c.root, i);
    }
    StartIsEmptyTree(c, State(View(s.mem, c.root), s.frames));
  }

  lemma FreshSuffix(frames: seq<Word>, later: seq<Word>, tables: map<Node, Word>)
    requires |later| <= |frames| && later == frames[|frames| - |later|..] && FreshFrames(frames, tables)
    ensures FreshFrames(later, tables)
  {
    hide PageAddr;
    var k := |frames| - |later|;
    assert forall i :: 0 <= i < |later| ==> later[i] == frames[k + i];
  }

  lemma TakenIsFresh(frames: seq<Word>, later: seq<Word>, tables: map<Node, Word>, w: Word)
    requires |later| <= |frames| && FreshFrames(frames, tables) && w in Taken(frames, later)
    ensures w !in tables.Values
  {
    hide PageAddr;
  }

  lemma SameTablesSameTree(m: Memory, m': Memory, root: Word, t: Tree)
    requires Represents(m, root, t)
    requires forall n, i :: n in t.tables && !(n.Root? && i == RECURSIVE_INDEX) ==>
      Peek(m', t.tables[n], i) == Peek(m, t.tables[n], i)
    ensures Represents(m', root, t)
  {
    hide Peek, IsTree, Expected;
  }

  /** In the view, a call for any page touches only the frames on its way. */
  lemma ViewTouches(c: Setting, ss: State, u: Tree, r: Request, b: Word, i: Index)
    requires c.links.Repaired? && c.pagingDisabledNow && Good(c, ss, u) && PageOf(r.virt).l4 != RECURSIVE_INDEX
    requires b !in u.tables.Values && b !in ss.frames && b != 0
    ensures Peek(MapEffect(c, ss, r).0.mem, b, i) == Peek(ss.mem, b, i)
  {
    hide PageOf, PassesCanonicalTest, Translate, Install, TableEntry, Peek, Poke, Good, Walk, Node1;
    var q, entry := PageOf(r.virt), TableEntry(r.phys, r.flags);
    WalkFrames(u, ss.frames, q, b);
    var s1 := InstallWalks(c, ss, u, q, entry, r.force);
    var g := Walk(u, ss.frames, q);
    if g.error == NoError {
      assert g.tree.tables[Node1(q)] in g.tree.tables.Values;
      PeekPoke(s1.mem, g.tree.tables[Node1(q)], q.l1, entry, b, i);
    }
  }

  lemma OtherFrame(s: State, t: Tree, n: Node)
    requires FreshFrames(s.frames, t.tables) && n in t.tables && t.tables[n] != 0
    ensures t.tables[n] !in s.frames
  {
    hide PageAddr;
    assert t.tables[n] in t.tables.Values;
  }

  lemma RootSlotStays(m0: Memory, m: Memory, ms: Memory, root: Word, i: Index)
    requires Viewed(m0, m, ms, root) && i != RECURSIVE_INDEX
    ensures Peek(m, root, i) == Peek(m0, root, i)
  {
    hide Peek;
  }

  /** A request with top index 1, whatever its other indices and its outcome, does not touch the
      other tree: every admissible address translates as before. */
  lemma OtherTreeStays(c: Setting, s: State, t: Tree, u: Tree, r: Request)
    requires TwoTrees(c, s, t, u) && PageOf(r.virt).l4 == 1
    ensures Represents(MapEffect(c, s, r).0.mem, c.root, t)
  {
    hide PageOf, MapEffect, Peek, View, Represents, ModeReady, Viewed, Lower;
    var ss := State(View(s.mem, c.root), s.frames);
    var m', ms' := MapEffect(c, s, r).0.mem, MapEffect(c, ss, LowerRequest(r)).0.mem;
    MapBeside(c, s, u, r);
    LowerSplits(r.virt);
    RootIsTable(s.mem, c.root, t);
    FramesNotZero(s.mem, c.root, t);
    forall n, i | n in t.tables && !(n.Root? && i == RECURSIVE_INDEX)
      ensures Peek(m', t.tables[n], i) == Peek(s.mem, t.tables[n], i)
    {
      if n.Root? {
        RootSlotStays(s.mem, m', ms', c.root, i);
      } else {
        TableIsNotRoot(s.mem, c.root, t, n);
        OtherFrame(s, t, n);
        ViewTouches(c, ss, u, LowerRequest(r), t.tables[n], i);
        SameWord(s.mem, m', ms', c.root, t.tables[n], i);
        PeekView(s.mem, c.root, t.tables[n], i);
      }
    }
    SameTablesSameTree(s.mem, m', c.root, t);
  }

  /** Pages whose indices below the top one avoid the self slots. */
  predicate InnerAdmissible(p: Page) {
    p.l3 != 1 && p.l2 != 1 && p.l1 != 1
  }

  /** Frames stay apart when one of two trees grows. */
  lemma GrowthStaysApart(c: Setting, frames: seq<Word>, t: Tree, u: Tree, u': Tree, later: seq<Word>)
    requires FreshFrames(frames, t.tables) && Accounted(u, frames, u', later)
    requires forall w :: w in t.tables.Values && w in u.tables.Values ==> w == c.root
    ensures FreshFrames(later, t.tables)
    ensures forall w :: w in t.tables.Values && w in u'.tables.Values ==> w == c.root
  {
    hide FreshFrames, Taken;
    FreshSuffix(frames, later, t.tables);
    forall w | w in t.tables.Values && w in u'.tables.Values
      ensures w == c.root
    {
      if w in Taken(frames, later) {
        TakenIsFresh(frames, later, t.tables, w);
      }
    }
  }

  lemma GoodView(c: Setting, m0: Memory, s: State, ss: State, u: Tree)
    requires c.pagingDisabledNow && Beside(m0, c, s, ss) && Good(c, ss, u)
    ensures Good(c, State(View(s.mem, c.root), s.frames), u)
  {
    hide Peek, View, Viewed, Represents, FreshFrames;
    forall b, i
      ensures Peek(View(s.mem, c.root), b, i) == Peek(ss.mem, b, i)
    {
      ViewAfter(m0, s.mem, ss.mem, c.root, b, i);
    }
    SameWordsSameTree(ss.mem, View(s.mem, c.root), c.root, u);
  }

  /** The two trees after a call. */
  function StepT(t: Tree, frames: seq<Word>, r: Request): Tree {
    if PageOf(r.virt).l4 == 1 then t else TreeMap(t, frames, r).tree
  }

  function StepU(u: Tree, frames: seq<Word>, r: Request): Tree {
    if PageOf(r.virt).l4 == 1 then TreeMap(u, frames, LowerRequest(r)).tree else u
  }

  /** With top index 1: the lower tree follows `TreeMap`, the other one stays. */
  lemma TopOneRequest(c: Setting, s: State, t: Tree, u: Tree, r: Request)
    requires TwoTrees(c, s, t, u) && InnerAdmissible(PageOf(r.virt)) && PageOf(r.virt).l4 == 1
    ensures var (s', error) := MapEffect(c, s, r);
      var g := TreeMap(u, s.frames, LowerRequest(r));
      error == g.error && s'.frames == g.frames && TwoTrees(c, s', t, g.tree)
  {
    hide PageOf, MapEffect, TreeMap, View, Represents, FreshFrames, Lower, Accounted, Viewed;
    var ss := State(View(s.mem, c.root), s.frames);
    var (s', error) := MapEffect(c, s, r);
    var g := TreeMap(u, s.frames, LowerRequest(r));
    LowerSplits(r.virt);
    MapBeside(c, s, u, r);
    MapRefines(c, ss, u, LowerRequest(r));
    MapAccounted(u, s.frames, LowerRequest(r));
    GrowthStaysApart(c, s.frames, t, u, g.tree, g.frames);
    OtherTreeStays(c, s, t, u, r);
    GoodView(c, s.mem, s', MapEffect(c, ss, LowerRequest(r)).0, g.tree);
  }

  lemma TopOneSucceedsExactly(c: Setting, s: State, t: Tree, u: Tree, r: Request)
    requires TwoTrees(c, s, t, u) && InnerAdmissible(PageOf(r.virt)) && PageOf(r.virt).l4 == 1
    ensures MapEffect(c, s, r).1 == NoError <==>
      var q := LowerPage(PageOf(r.virt));
      PassesCanonicalTest(r.virt) && (r.force || q !in u.pages) && Supplies(s.frames, Missing(u, q))
  {
    hide PageOf, MapEffect, View, Good, Lower, Supplies, Missing, PassesCanonicalTest;
    LowerSplits(r.virt);
    MapBeside(c, s, u, r);
    SucceedsExactly(c, State(View(s.mem, c.root), s.frames), u, LowerRequest(r));
  }

  lemma ViewWordStays(m: Memory, m': Memory, root: Word, tables: map<Node, Word>, b: Word, i: Index)
    requires Untouched(m, m', root, tables) && (b in tables.Values ==> b == root)
    ensures Peek(View(m', root), b, i) == Peek(View(m, root), b, i)
  {
    hide Peek, View;
    PeekView(m, root, b, i);
    PeekView(m', root, b, i);
    assert Peek(m', root, RECURSIVE_INDEX) == Peek(m, root, RECURSIVE_INDEX);
  }

  /** With another top index: the other way round. */
  lemma OrdinaryRequest(c: Setting, s: State, t: Tree, u: Tree, r: Request)
    requires TwoTrees(c, s, t, u) && Admissible(PageOf(r.virt))
    ensures var (s', error) := MapEffect(c, s, r);
      var g := TreeMap(t, s.frames, r);
      error == g.error && s'.frames == g.frames && TwoTrees(c, s', g.tree, u)
  {
    hide PageOf, MapEffect, TreeMap, View, Represents, FreshFrames, Accounted, Untouched, Peek;
    var s' := MapEffect(c, s, r).0;
    var g := TreeMap(t, s.frames, r);
    MapRefines(c, s, t, r);
    MapTouchesOnlyTables(c, s, t, r);
    MapAccounted(t, s.frames, r);
    assert forall w :: w in u.tables.Values && w in t.tables.Values ==> w == c.root;
    GrowthStaysApart(c, s.frames, u, t, g.tree, g.frames);
    RootIsTable(View(s.mem, c.root), c.root, u);
    forall n, i | n in u.tables && !(n.Root? && i == RECURSIVE_INDEX)
      ensures Peek(View(s'.mem, c.root), u.tables[n], i) == Peek(View(s.mem, c.root), u.tables[n], i)
    {
      ViewWordStays(s.mem, s'.mem, c.root, g.tree.tables, u.tables[n], i);
    }
    SameTablesSameTree(View(s.mem, c.root), View(s'.mem, c.root), c.root, u);
  }

  lemma TwoTreesStep(c: Setting, s: State, t: Tree, u: Tree, r: Request)
    requires TwoTrees(c, s, t, u) && InnerAdmissible(PageOf(r.virt))
    ensures TwoTrees(c, MapEffect(c, s, r).0, StepT(t, s.frames, r), StepU(u, s.frames, r))
  {
    hide PageOf, MapEffect, TreeMap, TwoTrees;
    if PageOf(r.virt).l4 == 1 {
      TopOneRequest(c, s, t, u, r);
    } else {
      OrdinaryRequest(c, s, t, u, r);
    }
  }

  /** Neither tree changed means neither translation changed. */
  lemma SameTreesTranslate(c: Setting, s: State, s': State, t: Tree, u: Tree, v: VAddr)
    requires InnerAdmissible(PageOf(v))
    requires PageOf(v).l4 != 1 ==> Represents(s.mem, c.root, t) && Represents(s'.mem, c.root, t)
    requires PageOf(v).l4 == 1 ==>
      Represents(View(s.mem, c.root), c.root, u) && Represents(View(s'.mem, c.root), c.root, u)
    ensures Translate(s'.mem, c.root, v) == Translate(s.mem, c.root, v)
  {
    hide PageOf, Translate, View, Represents, Viewed, Lower, AddrOf;
    if PageOf(v).l4 != 1 {
      TranslateReadsLeaf(s.mem, c.root, t, v);
      TranslateReadsLeaf(s'.mem, c.root, t, v);
    } else {
      LowerSplits(v);
      ViewIsViewed(s.mem, c.root);
      ViewIsViewed(s'.mem, c.root);
      TranslateBeside(s.mem, s.mem, View(s.mem, c.root), c.root, u, v);
      TranslateBeside(s'.mem, s'.mem, View(s'.mem, c.root), c.root, u, v);
      TranslateReadsLeaf(View(s.mem, c.root), c.root, u, Lower(v));
      TranslateReadsLeaf(View(s'.mem, c.root), c.root, u, Lower(v));
    }
  }

  lemma LowerIsOneToOne(p: Page, q: Page)
    requires p.l4 == q.l4
    ensures LowerPage(p) == LowerPage(q) <==> p == q
  {
  }

  lemma TopOneTranslates(c: Setting, s: State, t: Tree, u: Tree, r: Request, v: VAddr)
    requires TwoTrees(c, s, t, u) && InnerAdmissible(PageOf(r.virt)) && PageOf(r.virt).l4 == 1
    requires InnerAdmissible(PageOf(v)) && PageOf(v).l4 == 1
    ensures var (s', error) := MapEffect(c, s, r);
      Translate(s'.mem, c.root, v) ==
        if error == NoError && PageOf(v) == PageOf(r.virt) then PagePart(r.phys) else Translate(s.mem, c.root, v)
  {
    hide PageOf, Translate, View, Represents, FreshFrames, Viewed, Lower, PagePart, MapEffect;
    var ss := State(View(s.mem, c.root), s.frames);
    var s' := MapEffect(c, s, r).0;
    var ss' := MapEffect(c, ss, LowerRequest(r)).0;
    LowerSplits(r.virt);
    LowerSplits(v);
    ViewIsViewed(s.mem, c.root);
    TranslateBeside(s.mem, s.mem, ss.mem, c.root, u, v);
    MapBeside(c, s, u, r);
    MapRefines(c, ss, u, LowerRequest(r));
    TranslateBeside(s.mem, s'.mem, ss'.mem, c.root, TreeMap(u, s.frames, LowerRequest(r)).tree, v);
    MapPageUpdatesTranslation(c, ss, u, LowerRequest(r), Lower(v));
    LowerIsOneToOne(PageOf(v), PageOf(r.virt));
  }

  /** One call, with any top index: it updates the translation of its own page and of no other. */
  lemma StepTranslates(c: Setting, s: State, t: Tree, u: Tree, r: Request, v: VAddr)
    requires TwoTrees(c, s, t, u) && InnerAdmissible(PageOf(r.virt)) && InnerAdmissible(PageOf(v))
    ensures var (s', error) := MapEffect(c, s, r);
      Translate(s'.mem, c.root, v) ==
        if error == NoError && PageOf(v) == PageOf(r.virt) then PagePart(r.phys) else Translate(s.mem, c.root, v)
  {
    hide PageOf, Translate, View, Represents, FreshFrames, PagePart, MapEffect, TreeMap, Lower;
    var s' := MapEffect(c, s, r).0;
    TwoTreesStep(c, s, t, u, r);
    if PageOf(r.virt).l4 == 1 && PageOf(v).l4 == 1 {
      TopOneTranslates(c, s, t, u, r, v);
    } else if PageOf(r.virt).l4 != 1 && PageOf(v).l4 != 1 {
      MapPageUpdatesTranslation(c, s, t, r, v);
    } else {
      SameTreesTranslate(c, s, s', t, u, v);
    }
  }

  // ---------------------------------------------------------------------
  // Runs with every top index
  // ---------------------------------------------------------------------

  predicate InnerRequest(r: Request) {
    InnerAdmissible(PageOf(r.virt)) && PageAddr(r.phys)
  }

  lemma {:induction false} TwoTreesRun(c: Setting, s: State, t: Tree, u: Tree, reqs: seq<Request>, v: VAddr,
                                       before: Option<Request>)
    requires TwoTrees(c, s, t, u) && InnerAdmissible(PageOf(v))
    requires forall i :: 0 <= i < |reqs| ==> InnerRequest(reqs[i])
    requires Translate(s.mem, c.root, v) == RequestedFrame(before)
    ensures var (s', errors) := Run(c, s, reqs);
      |errors| == |reqs| &&
      Translate(s'.mem, c.root, v) == RequestedFrame(LastRequest(reqs, errors, PageOf(v), before))
    decreases |reqs|
  {
    hide PageOf, Translate, MapEffect, TwoTrees, InnerAdmissible, StepT, StepU, PageAddr, PagePart;
    if reqs != [] {
      var r := reqs[0];
      assert InnerRequest(r);
      var (s1, error) := MapEffect(c, s, r);
      var now := if error == NoError && PageOf(r.virt) == PageOf(v) then Some(r) else before;
      StepTranslates(c, s, t, u, r, v);
      PagePartOfPage(r.phys);
      TwoTreesStep(c, s, t, u, r);
      assert forall i :: 0 <= i < |reqs[1..]| ==> reqs[1..][i] == reqs[i + 1];
      TwoTreesRun(c, s1, StepT(t, s.frames, r), StepU(u, s.frames, r), reqs[1..], v, now);
      var errors := Run(c, s1, reqs[1..]).1;
      assert ([error] + errors)[1..] == errors;
    }
  }

  lemma NothingTranslates(c: Setting, s: State, v: VAddr)
    requires Start(c, s) && Peek(s.mem, c.root, RECURSIVE_INDEX) == 0
    ensures Translate(s.mem, c.root, v) == 0
  {
    hide PageOf, Peek, AddrOf, PageAddr;
    ZeroEntry();
    assert Peek(s.mem, c.root, PageOf(v).l4) == 0;
  }

  /** From a cleared root, slot 1 included, with paging disabled: after every run of requests with
      any top index, every address whose inner indices differ from 1 translates as the history of
      successful calls says. */
  lemma RunFromClearedRoot(c: Setting, s: State, reqs: seq<Request>, v: VAddr)
    requires c.links.Repaired? && c.pagingDisabledNow && Start(c, s) && Peek(s.mem, c.root, RECURSIVE_INDEX) == 0
    requires InnerAdmissible(PageOf(v)) && forall i :: 0 <= i < |reqs| ==> InnerRequest(reqs[i])
    ensures var (s', errors) := Run(c, s, reqs);
      |errors| == |reqs| &&
      Translate(s'.mem, c.root, v) == RequestedFrame(LastRequest(reqs, errors, PageOf(v), None))
  {
    hide PageOf, TwoTrees, InnerAdmissible, Start, Peek;
    StartIsTwoTrees(c, s);
    NothingTranslates(c, s, v);
    TwoTreesRun(c, s, EmptyTree(c.root), EmptyTree(c.root), reqs, v, None);
  }

  /** Addresses with top index 1 and a further index 1 show tables of the lower tree. */
  lemma TopOneSelfSlot(c: Setting, s: State, t: Tree, u: Tree, v: VAddr)
    requires TwoTrees(c, s, t, u) && PageOf(v).l4 == 1 && !InnerAdmissible(PageOf(v))
    ensures Translate(s.mem, c.root, v) == FrameOf(u, LeakNode(LowerPage(PageOf(v))))
  {
    hide PageOf, Translate, View, Represents, FreshFrames, Viewed, Lower, LeakNode, FrameOf;
    LowerSplits(v);
    ViewIsViewed(s.mem, c.root);
    TranslateBeside(s.mem, s.mem, View(s.mem, c.root), c.root, u, v);
    SelfSlotTranslates(View(s.mem, c.root), c.root, u, Lower(v));
  }
}
