/**
 When a call succeeds, when it fails and with which error, and what follows: mappings that are
 never forced are write-once, and a failed allocation can be retried.
 */
module CallOutcomes {
  import opened PageEntry
  import opened VirtualAddress
  import opened PhysicalMemory
  import opened PageTables
  import opened PageTree
  import opened Refinement
  import opened Runs
  import opened Rights

  /** Every leaf carries a non-zero physical page. */
  ghost predicate LeavesPointSomewhere(t: Tree) {
    forall p :: p in t.pages ==> AddrOf(t.pages[p]) != 0
  }

  lemma MapKeepsLeaves(t: Tree, frames: seq<Word>, r: Request)
    requires LeavesPointSomewhere(t) && PageAddr(r.phys)
    ensures LeavesPointSomewhere(TreeMap(t, frames, r).tree)
  {
    assert r.phys != 0;
    hide PageOf, TreeMap, AddrOf, TableEntry, PageAddr;
    PagesAfterMap(t, frames, r);
    EntryFacts(r.phys, r.flags);
  }

  /** It holds of the empty tree, so every run from a zeroed root keeps it. */
  lemma {:induction false} RunKeepsLeaves(t: Tree, frames: seq<Word>, reqs: seq<Request>)
    requires LeavesPointSomewhere(t) && forall i :: 0 <= i < |reqs| ==> PageAddr(reqs[i].phys)
    ensures LeavesPointSomewhere(RunTree(t, frames, reqs).tree)
    decreases |reqs|
  {
    hide TreeMap, LeavesPointSomewhere, PageAddr;
    if reqs != [] {
      var g := TreeMap(t, frames, reqs[0]);
      MapKeepsLeaves(t, frames, reqs[0]);
      assert forall i :: 0 <= i < |reqs[1..]| ==> reqs[1..][i] == reqs[i + 1];
      RunKeepsLeaves(g.tree, g.frames, reqs[1..]);
    }
  }

  lemma PathInPlace(t: Tree, frames: seq<Word>, root: Word, p: Page)
    requires IsTree(t, root) && TableOf(p) in t.tables
    ensures GrowPath(t, frames, p) == Outcome(t, frames, NoError)
  {
    hide IsTree;
    AncestorsExist(t, root, p);
  }

  lemma TreeEntryExists(t: Tree, frames: seq<Word>, root: Word, r: Request)
    requires IsTree(t, root) && LeavesPointSomewhere(t)
    ensures var g := TreeMap(t, frames, r);
      && (g.error == EntryExists <==> PassesCanonicalTest(r.virt) && !r.force && PageOf(r.virt) in t.pages)
      && (g.error == EntryExists ==> g.tree == t && g.frames == frames)
  {
    hide PageOf, PassesCanonicalTest, AddrOf, TableEntry, GrowPath, ProperFrames, Injective;
    var p := PageOf(r.virt);
    ZeroEntry();
    PathKeepsPages(t, frames, p);
    if p in t.pages {
      PathInPlace(t, frames, root, p);
    }
  }

  /** `EntryExists` is returned exactly when the page is mapped already and the write is not
      forced, and then neither memory nor the allocator is touched. */
  lemma EntryExistsExactly(c: Setting, s: State, t: Tree, r: Request)
    requires c.links.Repaired? && Good(c, s, t) && LeavesPointSomewhere(t) && Admissible(PageOf(r.virt))
    ensures var (s', error) := MapEffect(c, s, r);
      && (error == EntryExists <==>
            PassesCanonicalTest(r.virt) && !r.force && Translate(s.mem, c.root, r.virt) != 0)
      && (error == EntryExists ==> s' == s)
  {
    hide PageOf, PassesCanonicalTest, AddrOf, TableEntry, Install, TreeMap, FreshFrames, Translate;
    ZeroEntry();
    TranslateReadsLeaf(s.mem, c.root, t, r.virt);
    TreeEntryExists(t, s.frames, c.root, r);
    MapRefines(c, s, t, r);
  }

  /** So in every state that a run from a zeroed root reaches: the error is returned exactly when
      the page is mapped already and the write is not forced, and then nothing is touched. */
  lemma EntryExistsInRuns(c: Setting, s: State, reqs: seq<Request>, r: Request)
    requires c.links.Repaired? && Start(c, s) && AdmissibleRun(reqs) && Admissible(PageOf(r.virt))
    ensures var s1 := Run(c, s, reqs).0;
      var (s2, error) := MapEffect(c, s1, r);
      && (error == EntryExists <==>
            PassesCanonicalTest(r.virt) && !r.force && Translate(s1.mem, c.root, r.virt) != 0)
      && (error == EntryExists ==> s2 == s1)
  {
    hide PageOf, PassesCanonicalTest, MapEffect, Translate, Start, Good, PageAddr;
    var t := EmptyTree(c.root);
    StartIsEmptyTree(c, s);
    RunRefines(c, s, t, reqs);
    assert forall i :: 0 <= i < |reqs| ==> AdmissibleRequest(reqs[i]);
    RunKeepsLeaves(t, s.frames, reqs);
    EntryExistsExactly(c, Run(c, s, reqs).0, RunTree(t, s.frames, reqs).tree, r);
  }

  /** `InvalidVirtAddress` is returned exactly when the upper sixteen bits are neither all zeros nor
      all ones, and then nothing is touched. */
  lemma RejectedExactly(c: Setting, s: State, r: Request)
    ensures var (s', error) := MapEffect(c, s, r);
      && (error == InvalidVirtAddress <==> r.virt >> 48 != 0 && r.virt >> 48 != 0xFFFF)
      && (error == InvalidVirtAddress ==> s' == s)
  {
    hide PageOf, Translate, EnsureTable, TablePointer, TableEntry;
  }

  // ---------------------------------------------------------------------
  // Success
  // ---------------------------------------------------------------------

  lemma TreeSucceedsExactly(t: Tree, frames: seq<Word>, root: Word, r: Request)
    requires IsTree(t, root)
    ensures TreeMap(t, frames, r).error == NoError <==>
      && PassesCanonicalTest(r.virt)
      && (r.force || PageOf(r.virt) !in t.pages)
      && Supplies(frames, Missing(t, PageOf(r.virt)))
  {
    hide PageOf, PassesCanonicalTest, AddrOf, TableEntry, GrowPath, Supplies, Missing, IsTree;
    var p := PageOf(r.virt);
    ZeroEntry();
    PathKeepsPages(t, frames, p);
    PathProgress(t, frames, p);
  }

  /** A call succeeds exactly when the address passes the test, the page is free or the write is
      forced, and the allocator supplies one frame for each table the page lacks. */
  lemma SucceedsExactly(c: Setting, s: State, t: Tree, r: Request)
    requires c.links.Repaired? && Good(c, s, t) && Admissible(PageOf(r.virt))
    ensures MapEffect(c, s, r).1 == NoError <==>
      && PassesCanonicalTest(r.virt)
      && (r.force || PageOf(r.virt) !in t.pages)
      && Supplies(s.frames, Missing(t, PageOf(r.virt)))
  {
    hide PageOf, PassesCanonicalTest, MapEffect, TreeMap, FreshFrames, ModeReady, Supplies, Missing, IsTree;
    RepresentsIsTree(s.mem, c.root, t);
    TreeSucceedsExactly(t, s.frames, c.root, r);
    MapRefines(c, s, t, r);
  }

  // ---------------------------------------------------------------------
  // Failed allocations
  // ---------------------------------------------------------------------

  lemma TreeAllocFailure(t: Tree, frames: seq<Word>, root: Word, r: Request)
    requires IsTree(t, root) && TreeMap(t, frames, r).error == AllocFailed
    ensures PassesCanonicalTest(r.virt)
    ensures PageOf(r.virt) !in t.pages
    ensures TreeMap(t, frames, r).tree.pages == t.pages
  {
    hide PageOf, PassesCanonicalTest, AddrOf, TableEntry, GrowPath, ProperFrames, Injective;
    var p := PageOf(r.virt);
    PathKeepsPages(t, frames, p);
    if p in t.pages {
      PathInPlace(t, frames, root, p);
    }
  }

  /** After a failed allocation the call can be repeated, and succeeds exactly when the allocator
      supplies one frame for each table still missing. */
  lemma RetrySucceedsExactly(c: Setting, s: State, t: Tree, r: Request, later: seq<Word>)
    requires c.links.Repaired? && Good(c, s, t) && AdmissibleRequest(r)
    requires MapEffect(c, s, r).1 == AllocFailed
    requires var t1 := TreeMap(t, s.frames, r).tree;
      FreshFrames(later, t1.tables) && ModeReady(c, State(MapEffect(c, s, r).0.mem, later))
    ensures var t1 := TreeMap(t, s.frames, r).tree;
      && Good(c, State(MapEffect(c, s, r).0.mem, later), t1)
      && (MapEffect(c, State(MapEffect(c, s, r).0.mem, later), r).1 == NoError
          <==> Supplies(later, Missing(t1, PageOf(r.virt))))
  {
    hide PageOf, PassesCanonicalTest, MapEffect, TreeMap, FreshFrames, ModeReady, Supplies, Missing, PageAddr, IsTree;
    RepresentsIsTree(s.mem, c.root, t);
    StepRefines(c, s, t, r);
    TreeAllocFailure(t, s.frames, c.root, r);
    SucceedsExactly(c, State(MapEffect(c, s, r).0.mem, later), TreeMap(t, s.frames, r).tree, r);
  }

  /** The call that failed, made with another allocator in the first place. */
  lemma DirectSucceedsExactly(c: Setting, s: State, t: Tree, r: Request, other: seq<Word>)
    requires c.links.Repaired? && Good(c, s, t) && AdmissibleRequest(r)
    requires MapEffect(c, s, r).1 == AllocFailed
    requires FreshFrames(other, t.tables) && ModeReady(c, State(s.mem, other))
    ensures MapEffect(c, State(s.mem, other), r).1 == NoError <==> Supplies(other, Missing(t, PageOf(r.virt)))
  {
    hide PageOf, PassesCanonicalTest, MapEffect, TreeMap, FreshFrames, ModeReady, Supplies, Missing, PageAddr, IsTree;
    RepresentsIsTree(s.mem, c.root, t);
    StepRefines(c, s, t, r);
    TreeAllocFailure(t, s.frames, c.root, r);
    SucceedsExactly(c, State(s.mem, other), t, r);
  }

  /** `AllocFailed` at any of the three points leaves every admissible translation as it was.  A
      repetition with an allocator that supplies the missing frames succeeds, and then every
      admissible address translates as after one uninterrupted call. */
  lemma RetryAfterAllocFailure(c: Setting, s: State, t: Tree, r: Request,
                               later: seq<Word>, uninterrupted: seq<Word>, v: VAddr)
    requires c.links.Repaired? && Good(c, s, t) && AdmissibleRequest(r) && Admissible(PageOf(v))
    requires MapEffect(c, s, r).1 == AllocFailed
    requires FreshFrames(later, TreeMap(t, s.frames, r).tree.tables) && FreshFrames(uninterrupted, t.tables)
    requires ModeReady(c, State(MapEffect(c, s, r).0.mem, later)) && ModeReady(c, State(s.mem, uninterrupted))
    requires Supplies(later, Missing(TreeMap(t, s.frames, r).tree, PageOf(r.virt)))
    requires Supplies(uninterrupted, Missing(t, PageOf(r.virt)))
    ensures var failed := MapEffect(c, s, r).0;
      var retried := MapEffect(c, State(failed.mem, later), r);
      var direct := MapEffect(c, State(s.mem, uninterrupted), r);
      && Translate(failed.mem, c.root, v) == Translate(s.mem, c.root, v)
      && retried.1 == NoError && direct.1 == NoError
      && Translate(retried.0.mem, c.root, v) == Translate(direct.0.mem, c.root, v)
      && Translate(retried.0.mem, c.root, v) ==
         (if PageOf(v) == PageOf(r.virt) then r.phys else Translate(s.mem, c.root, v))
  {
    hide PageOf, MapEffect, TreeMap, Translate, PageAddr, Represents, FreshFrames, Supplies, Missing, ModeReady;
    var failed := MapEffect(c, s, r).0;
    var t1 := TreeMap(t, s.frames, r).tree;
    RetrySucceedsExactly(c, s, t, r, later);
    DirectSucceedsExactly(c, s, t, r, uninterrupted);
    EntryAddress(r.phys, r.flags);
    MapPageUpdatesTranslation(c, s, t, r, v);
    MapPageUpdatesTranslation(c, State(failed.mem, later), t1, r, v);
    MapPageUpdatesTranslation(c, State(s.mem, uninterrupted), t, r, v);
  }

  // ---------------------------------------------------------------------
  // Write-once runs
  // ---------------------------------------------------------------------

  /** A call that is not forced keeps every leaf entry, word for word. */
  lemma UnforcedKeepsLeaf(t: Tree, frames: seq<Word>, r: Request, q: Page)
    requires !r.force && q in t.pages
    ensures var g := TreeMap(t, frames, r);
      q in g.tree.pages && g.tree.pages[q] == t.pages[q]
  {
    hide PageOf, PassesCanonicalTest, AddrOf, TableEntry, GrowPath;
    PathKeepsPages(t, frames, PageOf(r.virt));
  }

  lemma {:induction false} UnforcedRunKeepsLeaf(t: Tree, frames: seq<Word>, reqs: seq<Request>, q: Page)
    requires q in t.pages && forall i :: 0 <= i < |reqs| ==> !reqs[i].force
    ensures var t' := RunTree(t, frames, reqs).tree;
      q in t'.pages && t'.pages[q] == t.pages[q]
    decreases |reqs|
  {
    hide TreeMap;
    if reqs != [] {
      var g := TreeMap(t, frames, reqs[0]);
      UnforcedKeepsLeaf(t, frames, reqs[0], q);
      assert forall i :: 0 <= i < |reqs[1..]| ==> reqs[1..][i] == reqs[i + 1];
      UnforcedRunKeepsLeaf(g.tree, g.frames, reqs[1..], q);
    }
  }

  /** Without forced writes a mapping, once made, is never changed or lost: the leaf entry stays,
      and with it what `translateVirtToPhys` and the processor make of the page, rights included. */
  lemma MappingsAreWriteOnce(c: Setting, s: State, t: Tree, reqs: seq<Request>, v: VAddr)
    requires c.links.Repaired? && Good(c, s, t) && AdmissibleRun(reqs)
    requires Admissible(PageOf(v)) && PageOf(v) in t.pages
    requires forall i :: 0 <= i < |reqs| ==> !reqs[i].force
    ensures var m' := Run(c, s, reqs).0.mem;
      var t' := RunTree(t, s.frames, reqs).tree;
      && Represents(m', c.root, t')
      && PageOf(v) in t'.pages && t'.pages[PageOf(v)] == t.pages[PageOf(v)]
      && Translate(m', c.root, v) == Translate(s.mem, c.root, v)
      && HardwareWalk(m', c.root, PageOf(v)) == HardwareWalk(s.mem, c.root, PageOf(v))
  {
    hide PageOf, MapEffect, TreeMap, Translate, HardwareWalk, Represents, FreshFrames, ModeReady, LeafAccess, AddrOf;
    hide AdmissibleRequest;
    RunRefines(c, s, t, reqs);
    UnforcedRunKeepsLeaf(t, s.frames, reqs, PageOf(v));
    var m', t' := Run(c, s, reqs).0.mem, RunTree(t, s.frames, reqs).tree;
    TranslateReadsLeaf(s.mem, c.root, t, v);
    TranslateReadsLeaf(m', c.root, t', v);
    WalkReadsLeaf(s.mem, c.root, t, PageOf(v));
    WalkReadsLeaf(m', c.root, t', PageOf(v));
  }
}
