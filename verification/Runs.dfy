/**
 Whole runs of `mapPage` calls: what the tables translate to at the end, which frames were
 taken for tables, and what a failed allocation leaves behind.
 */
module Runs {
  import opened PageEntry
  import opened VirtualAddress
  import opened PhysicalMemory
  import opened PageTables
  import opened PageTree
  import opened Refinement
  import opened RecursiveWindow

  function Run(c: Setting, s: State, reqs: seq<Request>): (State, seq<PageMapError>)
    decreases |reqs|
  {
    if reqs == [] then (s, [])
    else
      var (s1, error) := MapEffect(c, s, reqs[0]);
      var (s', errors) := Run(c, s1, reqs[1..]);
      (s', [error] + errors)
  }

  datatype TreeRun = TreeRun(tree: Tree, frames: seq<Word>, errors: seq<PageMapError>)

  function RunTree(t: Tree, frames: seq<Word>, reqs: seq<Request>): TreeRun
    decreases |reqs|
  {
    if reqs == [] then TreeRun(t, frames, [])
    else
      var g := TreeMap(t, frames, reqs[0]);
      var r := RunTree(g.tree, g.frames, reqs[1..]);
      r.(errors := [g.error] + r.errors)
  }

  predicate AdmissibleRequest(r: Request) {
    Admissible(PageOf(r.virt)) && PageAddr(r.phys)
  }

  predicate AdmissibleRun(reqs: seq<Request>) {
    forall i :: 0 <= i < |reqs| ==> AdmissibleRequest(reqs[i])
  }

  // ---------------------------------------------------------------------
  // The start: a zeroed root
  // ---------------------------------------------------------------------

  /** A cleared root table; its recursive slot may already be filled in. */
  ghost predicate ZeroedRoot(m: Memory, root: Word) {
    PageAddr(root) && forall i: Index :: i != RECURSIVE_INDEX ==> Peek(m, root, i) == 0
  }

  function EmptyTree(root: Word): Tree {
    Tree(map[Root := root], map[])
  }

  /** Ready for the first call. */
  ghost predicate Start(c: Setting, s: State) {
    ZeroedRoot(s.mem, c.root) && FreshFrames(s.frames, EmptyTree(c.root).tables) && ModeReady(c, s)
  }

  lemma ZeroedRootIsEmptyTree(m: Memory, root: Word)
    requires ZeroedRoot(m, root)
    ensures Represents(m, root, EmptyTree(root))
  {
    hide PageAddr, Peek, Link;
  }

  lemma StartIsEmptyTree(c: Setting, s: State)
    requires Start(c, s)
    ensures Good(c, s, EmptyTree(c.root))
  {
    hide PageAddr, Peek, Link, FreshFrames, ModeReady;
    ZeroedRootIsEmptyTree(s.mem, c.root);
  }

  /** Both modes can start. */
  lemma StartIsPossible()
    ensures Start(Setting(0x1000, Repaired, true), State(map[], [0x2000, 0x3000, 0x4000]))
    ensures Start(Setting(0x1000, Repaired, false),
                  State(map[Slot(0x1000, RECURSIVE_INDEX) := Link(0x1000)], [0x2000, 0x3000, 0x4000]))
  {
    LinkPresent(0x1000);
    assert forall w :: w in EmptyTree(0x1000).tables.Values ==> w == 0x1000;
  }

  // ---------------------------------------------------------------------
  // Every run refines
  // ---------------------------------------------------------------------

  lemma StepRefines(c: Setting, s: State, t: Tree, r: Request)
    requires c.links.Repaired? && Good(c, s, t) && AdmissibleRequest(r)
    ensures Agree(c, MapEffect(c, s, r), TreeMap(t, s.frames, r))
  {
    hide MapEffect, TreeMap, Good, PageOf, PageAddr;
    MapRefines(c, s, t, r);
  }

  lemma {:induction false} RunRefines(c: Setting, s: State, t: Tree, reqs: seq<Request>)
    requires c.links.Repaired? && Good(c, s, t) && AdmissibleRun(reqs)
    ensures var (s', errors) := Run(c, s, reqs);
      var r := RunTree(t, s.frames, reqs);
      s'.frames == r.frames && errors == r.errors && Good(c, s', r.tree)
    decreases |reqs|
  {
    hide MapEffect, TreeMap, Good, AdmissibleRequest;
    if reqs != [] {
      assert AdmissibleRequest(reqs[0]);
      StepRefines(c, s, t, reqs[0]);
      var g := TreeMap(t, s.frames, reqs[0]);
      assert forall i :: 0 <= i < |reqs[1..]| ==> reqs[1..][i] == reqs[i + 1];
      RunRefines(c, MapEffect(c, s, reqs[0]).0, g.tree, reqs[1..]);
    }
  }

  datatype Option<T> = None | Some(value: T)

  /** Reference semantics: the last successful request for a page decides. */
  function LastRequest(reqs: seq<Request>, errors: seq<PageMapError>, p: Page, before: Option<Request>): Option<Request>
    requires |reqs| == |errors|
  {
    if reqs == [] then before
    else
      var now := if errors[0] == NoError && PageOf(reqs[0].virt) == p then Some(reqs[0]) else before;
      LastRequest(reqs[1..], errors[1..], p, now)
  }

  function RequestedLeaf(o: Option<Request>): Word {
    match o
    case None => 0
    case Some(r) => TableEntry(r.phys, r.flags)
  }

  lemma {:induction false} RunLeaves(t: Tree, frames: seq<Word>, reqs: seq<Request>, p: Page, before: Option<Request>)
    requires LeafOf(t.pages, p) == RequestedLeaf(before)
    ensures var r := RunTree(t, frames, reqs);
      |r.errors| == |reqs| && LeafOf(r.tree.pages, p) == RequestedLeaf(LastRequest(reqs, r.errors, p, before))
    decreases |reqs|
  {
    hide TreeMap, PageOf, TableEntry;
    if reqs != [] {
      var g := TreeMap(t, frames, reqs[0]);
      var now := if g.error == NoError && PageOf(reqs[0].virt) == p then Some(reqs[0]) else before;
      PagesAfterMap(t, frames, reqs[0]);
      RunLeaves(g.tree, g.frames, reqs[1..], p, now);
      var r := RunTree(g.tree, g.frames, reqs[1..]);
      assert ([g.error] + r.errors)[1..] == r.errors;
    }
  }

  function RequestedFrame(o: Option<Request>): Word {
    match o
    case None => 0
    case Some(r) => r.phys
  }

  lemma {:induction false} LastRequestIsAdmissible(reqs: seq<Request>, errors: seq<PageMapError>, p: Page,
                                                   before: Option<Request>)
    requires |reqs| == |errors| && AdmissibleRun(reqs) && (before.Some? ==> PageAddr(before.value.phys))
    ensures LastRequest(reqs, errors, p, before).Some? ==> PageAddr(LastRequest(reqs, errors, p, before).value.phys)
  {
    hide PageOf, PageAddr;
    if reqs != [] {
      assert AdmissibleRequest(reqs[0]);
      assert forall i :: 0 <= i < |reqs[1..]| ==> reqs[1..][i] == reqs[i + 1];
      var now := if errors[0] == NoError && PageOf(reqs[0].virt) == p then Some(reqs[0]) else before;
      LastRequestIsAdmissible(reqs[1..], errors[1..], p, now);
    }
  }

  lemma LeafAddress(o: Option<Request>)
    requires o.Some? ==> PageAddr(o.value.phys)
    ensures AddrOf(RequestedLeaf(o)) == RequestedFrame(o)
  {
    hide TableEntry, AddrOf;
    ZeroEntry();
    if o.Some? {
      EntryFacts(o.value.phys, o.value.flags);
    }
  }

  lemma NothingRequested(root: Word, p: Page)
    ensures LeafOf(EmptyTree(root).pages, p) == RequestedLeaf(None)
  {
  }

  /** From a zeroed root, every run translates every admissible address as the history of
      successful calls says. */
  lemma RunFromZeroedRoot(c: Setting, s: State, reqs: seq<Request>, v: VAddr)
    requires c.links.Repaired? && Start(c, s) && AdmissibleRun(reqs) && Admissible(PageOf(v))
    ensures var (s', errors) := Run(c, s, reqs);
      |errors| == |reqs| &&
      Translate(s'.mem, c.root, v) == RequestedFrame(LastRequest(reqs, errors, PageOf(v), None))
  {
    hide Start, MapEffect, TreeMap, Translate, RequestedLeaf, RequestedFrame, Represents, FreshFrames, ModeReady,
      PageOf, AddrOf;
    var t := EmptyTree(c.root);
    StartIsEmptyTree(c, s);
    RunRefines(c, s, t, reqs);
    var r := RunTree(t, s.frames, reqs);
    NothingRequested(c.root, PageOf(v));
    RunLeaves(t, s.frames, reqs, PageOf(v), None);
    TranslateReadsLeaf(Run(c, s, reqs).0.mem, c.root, r.tree, v);
    LastRequestIsAdmissible(reqs, r.errors, PageOf(v), None);
    LeafAddress(LastRequest(reqs, r.errors, PageOf(v), None));
  }

  lemma GoodRepresents(c: Setting, s: State, t: Tree)
    requires Good(c, s, t)
    ensures Represents(s.mem, c.root, t)
  {
  }

  // ---------------------------------------------------------------------
  // Frames
  // ---------------------------------------------------------------------

  /** The usable answers among those the allocator has given. */
  function Taken(frames: seq<Word>, later: seq<Word>): set<Word>
    requires |later| <= |frames|
  {
    set i | 0 <= i < |frames| - |later| && frames[i] != 0 :: frames[i]
  }

  ghost predicate Accounted(t: Tree, frames: seq<Word>, t': Tree, later: seq<Word>) {
    && |later| <= |frames|
    && later == frames[|frames| - |later|..]
    && t'.tables.Values == t.tables.Values + Taken(frames, later)
  }

  lemma AccountedChain(t0: Tree, f0: seq<Word>, t1: Tree, f1: seq<Word>, t2: Tree, f2: seq<Word>)
    requires Accounted(t0, f0, t1, f1) && Accounted(t1, f1, t2, f2)
    ensures Accounted(t0, f0, t2, f2)
  {
    var a, b := |f0| - |f1|, |f1| - |f2|;
    assert forall i :: 0 <= i < |f1| ==> f1[i] == f0[a + i];
    assert Taken(f0, f2) == Taken(f0, f1) + Taken(f1, f2) by {
      forall w | w in Taken(f0, f2)
        ensures w in Taken(f0, f1) + Taken(f1, f2)
      {
        var i :| 0 <= i < |f0| - |f2| && f0[i] != 0 && f0[i] == w;
        assert i < a || f1[i - a] == w;
      }
      forall w | w in Taken(f1, f2)
        ensures w in Taken(f0, f2)
      {
        var i :| 0 <= i < b && f1[i] != 0 && f1[i] == w;
        assert f0[a + i] == w;
      }
    }
  }

  lemma OneTaken(frames: seq<Word>)
    requires frames != []
    ensures Taken(frames, LaterFrames(frames)) == if frames[0] != 0 then {frames[0]} else {}
  {
  }

  lemma ValuesWithTable(tables: map<Node, Word>, n: Node, f: Word)
    requires n !in tables
    ensures tables[n := f].Values == tables.Values + {f}
  {
    var tables' := tables[n := f];
    assert tables'[n] == f;
    forall w | w in tables.Values
      ensures w in tables'.Values
    {
      var k :| k in tables && tables[k] == w;
      assert tables'[k] == w;
    }
  }

  lemma NothingTaken(t: Tree, frames: seq<Word>)
    ensures Accounted(t, frames, t, frames)
  {
    assert Taken(frames, frames) == {};
    assert t.tables.Values + {} == t.tables.Values;
    assert frames[0..] == frames;
  }

  lemma GrowAccounted(t: Tree, frames: seq<Word>, n: Node, i: Index)
    requires !n.T1?
    ensures var g := Grow(t, frames, n, i); Accounted(t, frames, g.tree, g.frames)
  {
    hide Taken;
    NothingTaken(t, frames);
    if Child(n, i) !in t.tables && frames != [] {
      OneTaken(frames);
      if frames[0] != 0 {
        ValuesWithTable(t.tables, Child(n, i), frames[0]);
      } else {
        assert t.tables.Values + {} == t.tables.Values;
      }
    }
  }

  lemma PathAccounted(t: Tree, frames: seq<Word>, p: Page)
    ensures var g := GrowPath(t, frames, p); Accounted(t, frames, g.tree, g.frames)
  {
    hide Grow, Accounted;
    var g3 := Grow(t, frames, Root, p.l4);
    GrowAccounted(t, frames, Root, p.l4);
    if g3.error == NoError {
      var g2 := Grow(g3.tree, g3.frames, T3(p.l4), p.l3);
      GrowAccounted(g3.tree, g3.frames, T3(p.l4), p.l3);
      AccountedChain(t, frames, g3.tree, g3.frames, g2.tree, g2.frames);
      if g2.error == NoError {
        var g1 := Grow(g2.tree, g2.frames, T2(p.l4, p.l3), p.l2);
        GrowAccounted(g2.tree, g2.frames, T2(p.l4, p.l3), p.l2);
        AccountedChain(t, frames, g2.tree, g2.frames, g1.tree, g1.frames);
      }
    }
  }

  lemma PagesDoNotCount(t: Tree, frames: seq<Word>, r: Request)
    ensures var g := TreeMap(t, frames, r);
      var h := GrowPath(t, frames, PageOf(r.virt));
      (g.tree.tables, g.frames) == (h.tree.tables, h.frames) || (g.tree, g.frames) == (t, frames)
  {
    hide PageOf, PassesCanonicalTest, AddrOf, TableEntry, GrowPath;
  }

  lemma MapAccounted(t: Tree, frames: seq<Word>, r: Request)
    ensures var g := TreeMap(t, frames, r); Accounted(t, frames, g.tree, g.frames)
  {
    hide PageOf, PassesCanonicalTest, TreeMap, GrowPath, Taken;
    NothingTaken(t, frames);
    PathAccounted(t, frames, PageOf(r.virt));
    PagesDoNotCount(t, frames, r);
  }

  /** Every frame taken becomes exactly one table, for all outcomes of all calls: none is lost
      and no table sits on any other frame. */
  lemma {:induction false} RunAccounted(t: Tree, frames: seq<Word>, reqs: seq<Request>)
    ensures var r := RunTree(t, frames, reqs); Accounted(t, frames, r.tree, r.frames)
    decreases |reqs|
  {
    hide TreeMap, Accounted;
    NothingTaken(t, frames);
    if reqs != [] {
      var g := TreeMap(t, frames, reqs[0]);
      MapAccounted(t, frames, reqs[0]);
      RunAccounted(g.tree, g.frames, reqs[1..]);
      var r := RunTree(g.tree, g.frames, reqs[1..]);
      AccountedChain(t, frames, g.tree, g.frames, r.tree, r.frames);
    }
  }

  lemma RepresentsIsTree(m: Memory, root: Word, t: Tree)
    requires Represents(m, root, t)
    ensures IsTree(t, root)
  {
  }

  lemma RootValue(root: Word)
    ensures EmptyTree(root).tables.Values == {root}
  {
    assert EmptyTree(root).tables[Root] == root;
  }

  /** From a zeroed root every run, with whatever failures, leaves a proper tree in memory: each
      table hangs from one parent, no frame serves twice, and the frames of the tables are the
      root and exactly the frames taken. */
  lemma EveryRunKeepsATree(c: Setting, s: State, reqs: seq<Request>)
    requires c.links.Repaired? && Start(c, s) && AdmissibleRun(reqs)
    ensures var s' := Run(c, s, reqs).0;
      var t' := RunTree(EmptyTree(c.root), s.frames, reqs).tree;
      && IsTree(t', c.root) && Represents(s'.mem, c.root, t')
      && |s'.frames| <= |s.frames|
      && t'.tables.Values == {c.root} + Taken(s.frames, s'.frames)
  {
    hide Start, MapEffect, TreeMap, Represents, FreshFrames, ModeReady, AdmissibleRequest, Taken, IsTree;
    StartIsEmptyTree(c, s);
    RunRefines(c, s, EmptyTree(c.root), reqs);
    RunAccounted(EmptyTree(c.root), s.frames, reqs);
    RepresentsIsTree(Run(c, s, reqs).0.mem, c.root, RunTree(EmptyTree(c.root), s.frames, reqs).tree);
    RootValue(c.root);
  }

  /** How many tables a page still lacks. */
  function Missing(t: Tree, p: Page): nat {
    (if T3(p.l4) in t.tables then 0 else 1)
    + (if T2(p.l4, p.l3) in t.tables then 0 else 1)
    + (if TableOf(p) in t.tables then 0 else 1)
  }

  /** The next `k` answers of the allocator are all usable. */
  predicate Supplies(frames: seq<Word>, k: nat) {
    k <= |frames| && forall i :: 0 <= i < k ==> frames[i] != 0
  }

  /** The result `g` of growing a path that needed `k` frames. */
  ghost predicate Progress(t: Tree, frames: seq<Word>, g: Outcome, k: nat) {
    && (g.error == NoError <==> Supplies(frames, k))
    && (g.error != NoError ==> g.error == AllocFailed)
    && (g.error == NoError ==> (g.frames == frames[k..] && |g.tree.tables| == |t.tables| + k))
  }

  lemma SuppliesOneMore(frames: seq<Word>, k: nat)
    ensures Supplies(frames, k + 1) <==> Supplies(frames, k) && NextFrame(frames[k..]) != 0
    ensures Supplies(frames, k + 1) ==> LaterFrames(frames[k..]) == frames[k + 1..]
  {
  }

  lemma GrowFacts(t: Tree, frames: seq<Word>, n: Node, i: Index)
    requires !n.T1?
    ensures var g := Grow(t, frames, n, i);
      if Child(n, i) in t.tables then g == Outcome(t, frames, NoError)
      else if NextFrame(frames) == 0 then g.error == AllocFailed
      else g.error == NoError && g.frames == LaterFrames(frames) && |g.tree.tables| == |t.tables| + 1
  {
  }

  lemma GrowAddsOnlyChild(t: Tree, frames: seq<Word>, n: Node, i: Index, k: Node)
    requires !n.T1?
    ensures var g := Grow(t, frames, n, i);
      && (k in g.tree.tables ==> k in t.tables || k == Child(n, i))
      && (k in t.tables ==> k in g.tree.tables)
  {
  }

  lemma ThenProgress(t: Tree, frames: seq<Word>, g: Outcome, k: nat, n: Node, i: Index)
    requires Progress(t, frames, g, k) && !n.T1?
    requires Child(n, i) in g.tree.tables <==> Child(n, i) in t.tables
    ensures Child(n, i) in t.tables ==> Progress(t, frames, Then(g, n, i), k)
    ensures Child(n, i) !in t.tables ==> Progress(t, frames, Then(g, n, i), k + 1)
  {
    hide Grow, Supplies, NextFrame, LaterFrames;
    SuppliesOneMore(frames, k);
    GrowFacts(g.tree, g.frames, n, i);
  }

  lemma NoProgress(t: Tree, frames: seq<Word>)
    ensures Progress(t, frames, Outcome(t, frames, NoError), 0)
  {
  }

  lemma PathProgress(t: Tree, frames: seq<Word>, p: Page)
    ensures Progress(t, frames, GrowPath(t, frames, p), Missing(t, p))
  {
    hide Grow, Progress, Supplies;
    var g3 := Grow(t, frames, Root, p.l4);
    var g2 := Then(g3, T3(p.l4), p.l3);
    var k3 := if T3(p.l4) in t.tables then 0 else 1;
    var k2 := if T2(p.l4, p.l3) in t.tables then k3 else k3 + 1;
    NoProgress(t, frames);
    ThenProgress(t, frames, Outcome(t, frames, NoError), 0, Root, p.l4);
    GrowAddsOnlyChild(t, frames, Root, p.l4, T2(p.l4, p.l3));
    ThenProgress(t, frames, g3, k3, T3(p.l4), p.l3);
    GrowAddsOnlyChild(t, frames, Root, p.l4, TableOf(p));
    GrowAddsOnlyChild(g3.tree, g3.frames, T3(p.l4), p.l3, TableOf(p));
    ThenProgress(t, frames, g2, k2, T2(p.l4, p.l3), p.l2);
  }

  lemma PathAddsOnlyPath(t: Tree, frames: seq<Word>, p: Page, k: Node)
    ensures k in GrowPath(t, frames, p).tree.tables ==>
      k in t.tables || k == T3(p.l4) || k == T2(p.l4, p.l3) || k == TableOf(p)
  {
    hide Grow;
    var g3 := Grow(t, frames, Root, p.l4);
    var g2 := Then(g3, T3(p.l4), p.l3);
    GrowAddsOnlyChild(t, frames, Root, p.l4, k);
    GrowAddsOnlyChild(g3.tree, g3.frames, T3(p.l4), p.l3, k);
    GrowAddsOnlyChild(g2.tree, g2.frames, T2(p.l4, p.l3), p.l2, k);
  }

  /** A call fails for want of a frame exactly when it gets to the tables and the allocator
      does not supply one frame for each table the page lacks. */
  lemma AllocFailedExactly(c: Setting, s: State, t: Tree, r: Request)
    requires c.links.Repaired? && Good(c, s, t) && Admissible(PageOf(r.virt))
    ensures MapEffect(c, s, r).1 == AllocFailed <==>
      && PassesCanonicalTest(r.virt)
      && (r.force || Translate(s.mem, c.root, r.virt) == 0)
      && !Supplies(s.frames, Missing(t, PageOf(r.virt)))
  {
    hide PageOf, PassesCanonicalTest, AddrOf, TableEntry, MapEffect, GrowPath, FreshFrames, Translate, Supplies,
      Missing, Represents;
    GoodRepresents(c, s, t);
    MapRefines(c, s, t, r);
    TranslateReadsLeaf(s.mem, c.root, t, r.virt);
    PathProgress(t, s.frames, PageOf(r.virt));
  }

  // ---------------------------------------------------------------------
  // How many frames
  // ---------------------------------------------------------------------

  // The distinct index prefixes of a set of pages, each written as the table it names.
  function L3Prefixes(pages: set<Page>): set<Node> { set p | p in pages :: T3(p.l4) }
  function L2Prefixes(pages: set<Page>): set<Node> { set p | p in pages :: T2(p.l4, p.l3) }
  function L1Prefixes(pages: set<Page>): set<Node> { set p | p in pages :: TableOf(p) }

  function Prefixes(pages: set<Page>): set<Node> {
    L3Prefixes(pages) + L2Prefixes(pages) + L1Prefixes(pages)
  }

  /** No table without a mapped page below it. */
  ghost predicate Covered(t: Tree) {
    forall n :: n in t.tables ==> n == Root || n in Prefixes(t.pages.Keys)
  }

  lemma PrefixesGrow(pages: set<Page>, p: Page, n: Node)
    ensures n in Prefixes(pages) ==> n in Prefixes(pages + {p})
    ensures n == T3(p.l4) || n == T2(p.l4, p.l3) || n == TableOf(p) ==> n in Prefixes(pages + {p})
  {
  }

  lemma PathKeepsCovered(t: Tree, frames: seq<Word>, p: Page, t': Tree)
    requires Covered(t)
    requires t'.tables == GrowPath(t, frames, p).tree.tables && t'.pages.Keys == t.pages.Keys + {p}
    ensures Covered(t')
  {
    hide GrowPath, Prefixes;
    forall n | n in t'.tables
      ensures n == Root || n in Prefixes(t'.pages.Keys)
    {
      PathAddsOnlyPath(t, frames, p, n);
      PrefixesGrow(t.pages.Keys, p, n);
    }
  }

  lemma SuccessGrowsPath(t: Tree, frames: seq<Word>, r: Request)
    requires TreeMap(t, frames, r).error == NoError
    ensures var g := TreeMap(t, frames, r);
      var h := GrowPath(t, frames, PageOf(r.virt));
      h.error == NoError && g.tree.tables == h.tree.tables && g.frames == h.frames
  {
    hide PageOf, PassesCanonicalTest, AddrOf, TableEntry, GrowPath;
  }

  lemma MapCounts(t: Tree, frames: seq<Word>, r: Request)
    requires Covered(t) && AdmissibleRequest(r) && TreeMap(t, frames, r).error == NoError
    ensures var g := TreeMap(t, frames, r);
      Covered(g.tree) && |g.tree.tables| - |t.tables| == |frames| - |g.frames|
  {
    hide PageOf, AddrOf, TableEntry, GrowPath, PageAddr, Missing, TreeMap, Covered;
    var p := PageOf(r.virt);
    SuccessGrowsPath(t, frames, r);
    PathProgress(t, frames, p);
    PagesAfterMap(t, frames, r);
    EntryFacts(r.phys, r.flags);
    assert TreeMap(t, frames, r).tree.pages.Keys == t.pages.Keys + {p};
    PathKeepsCovered(t, frames, p, TreeMap(t, frames, r).tree);
  }

  lemma {:induction false} RunCounts(t: Tree, frames: seq<Word>, reqs: seq<Request>)
    requires Covered(t) && AdmissibleRun(reqs)
    requires forall e :: e in RunTree(t, frames, reqs).errors ==> e == NoError
    ensures var r := RunTree(t, frames, reqs);
      Covered(r.tree) && |r.tree.tables| - |t.tables| == |frames| - |r.frames|
    decreases |reqs|
  {
    hide TreeMap, Covered, AdmissibleRequest;
    if reqs != [] {
      var g := TreeMap(t, frames, reqs[0]);
      var r := RunTree(g.tree, g.frames, reqs[1..]);
      assert RunTree(t, frames, reqs).errors == [g.error] + r.errors;
      assert g.error in RunTree(t, frames, reqs).errors;
      assert forall e :: e in r.errors ==> e in RunTree(t, frames, reqs).errors;
      assert forall i :: 0 <= i < |reqs[1..]| ==> reqs[1..][i] == reqs[i + 1];
      assert AdmissibleRequest(reqs[0]);
      MapCounts(t, frames, reqs[0]);
      RunCounts(g.tree, g.frames, reqs[1..]);
    }
  }

  lemma TablesArePrefixes(t: Tree, root: Word)
    requires IsTree(t, root) && Covered(t)
    ensures t.tables.Keys == {Root} + Prefixes(t.pages.Keys)
  {
    hide PageAddr, Injective, ProperFrames, ParentsExist;
    forall n | n in Prefixes(t.pages.Keys)
      ensures n in t.tables
    {
      if n in L3Prefixes(t.pages.Keys) {
        var p :| p in t.pages.Keys && T3(p.l4) == n;
        AncestorsExist(t, root, p);
      } else if n in L2Prefixes(t.pages.Keys) {
        var p :| p in t.pages.Keys && T2(p.l4, p.l3) == n;
        AncestorsExist(t, root, p);
      }
    }
  }

  function Image<A, B>(s: set<A>, f: A -> B): set<B> {
    set x | x in s :: f(x)
  }

  lemma {:induction false} ImageNotLarger<A, B>(s: set<A>, f: A -> B)
    ensures |Image(s, f)| <= |s|
  {
    if s != {} {
      var y :| y in s;
      ImageNotLarger(s - {y}, f);
      assert Image(s, f) == Image(s - {y}, f) + {f(y)};
    }
  }

  lemma PrefixCounts(pages: set<Page>)
    ensures |Prefixes(pages)| == |L3Prefixes(pages)| + |L2Prefixes(pages)| + |L1Prefixes(pages)|
  {
    var a, b, c := L3Prefixes(pages), L2Prefixes(pages), L1Prefixes(pages);
    assert a !! b && (a + b) !! c;
    assert |a + b| == |a| + |b|;
    assert |(a + b) + c| == |a + b| + |c|;
  }

  lemma PrefixesAtMost(pages: set<Page>)
    ensures |L3Prefixes(pages)| <= |pages| && |L2Prefixes(pages)| <= |pages| && |L1Prefixes(pages)| <= |pages|
  {
    var f3, f2, f1 := (p: Page) => T3(p.l4), (p: Page) => T2(p.l4, p.l3), (p: Page) => TableOf(p);
    ImageNotLarger(pages, f3);
    ImageNotLarger(pages, f2);
    ImageNotLarger(pages, f1);
    assert L3Prefixes(pages) == Image(pages, f3);
    assert L2Prefixes(pages) == Image(pages, f2);
    assert L1Prefixes(pages) == Image(pages, f1);
  }

  /** The pages a run asks for. */
  function RequestedPages(reqs: seq<Request>): set<Page>
    decreases |reqs|
  {
    if reqs == [] then {} else {PageOf(reqs[0].virt)} + RequestedPages(reqs[1..])
  }

  lemma {:induction false} MappedPages(t: Tree, frames: seq<Word>, reqs: seq<Request>)
    requires AdmissibleRun(reqs) && forall e :: e in RunTree(t, frames, reqs).errors ==> e == NoError
    ensures RunTree(t, frames, reqs).tree.pages.Keys == t.pages.Keys + RequestedPages(reqs)
    decreases |reqs|
  {
    hide TreeMap, PageOf, PageAddr;
    if reqs != [] {
      var g := TreeMap(t, frames, reqs[0]);
      var r := RunTree(g.tree, g.frames, reqs[1..]);
      assert RunTree(t, frames, reqs).errors == [g.error] + r.errors;
      assert g.error in RunTree(t, frames, reqs).errors;
      assert forall e :: e in r.errors ==> e in RunTree(t, frames, reqs).errors;
      assert forall i :: 0 <= i < |reqs[1..]| ==> reqs[1..][i] == reqs[i + 1];
      assert AdmissibleRequest(reqs[0]);
      MappedPages(g.tree, g.frames, reqs[1..]);
      PagesAfterMap(t, frames, reqs[0]);
      EntryFacts(reqs[0].phys, reqs[0].flags);
      assert g.tree.pages.Keys == t.pages.Keys + {PageOf(reqs[0].virt)};
    }
  }

  lemma RootIsNoPrefix(pages: set<Page>)
    ensures Root !in Prefixes(pages)
  {
    assert Root !in L3Prefixes(pages) && Root !in L2Prefixes(pages) && Root !in L1Prefixes(pages);
  }

  /** After successful calls only, from a zeroed root, the frames taken are as many as the
      distinct one-, two- and three-index prefixes of the mapped pages: at most three a page. */
  lemma FramesTaken(c: Setting, s: State, reqs: seq<Request>)
    requires c.links.Repaired? && Start(c, s)
    requires AdmissibleRun(reqs) && forall e :: e in Run(c, s, reqs).1 ==> e == NoError
    ensures var pages := RequestedPages(reqs);
      && |s.frames| - |Run(c, s, reqs).0.frames|
         == |L3Prefixes(pages)| + |L2Prefixes(pages)| + |L1Prefixes(pages)| <= 3 * |pages|
  {
    hide MapEffect, TreeMap, Prefixes, L3Prefixes, L2Prefixes, L1Prefixes, Start, AdmissibleRequest, IsTree;
    var t := EmptyTree(c.root);
    var pages := RequestedPages(reqs);
    var t' := RunTree(t, s.frames, reqs).tree;
    StartIsEmptyTree(c, s);
    RunRefines(c, s, t, reqs);
    RunCounts(t, s.frames, reqs);
    MappedPages(t, s.frames, reqs);
    assert t'.pages.Keys == pages;
    TablesArePrefixes(t', c.root);
    RootIsNoPrefix(pages);
    assert |t'.tables.Keys| == 1 + |Prefixes(pages)|;
    PrefixCounts(pages);
    PrefixesAtMost(pages);
  }
}
