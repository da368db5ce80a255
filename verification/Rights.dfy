/**
 What the processor grants for a mapped page: the walk combines the rights of all four
 levels, and every table link is writable, supervisor-only and not executable.
 */
module Rights {
  import opened PageEntry
  import opened VirtualAddress
  import opened PhysicalMemory
  import opened PageTables
  import opened PageTree
  import opened Refinement
  import opened RecursiveWindow
  import opened Runs

  /** The access a leaf entry yields below the links that the mapper writes. */
  function LeafAccess(e: Word): Access {
    if !Present(e) then Fault else Access(AddrOf(e), false, HasHw(e, HW_WRITE_ENABLE), false)
  }

  lemma LinkRights(f: Word)
    requires PageAddr(f)
    ensures Present(Link(f)) && AddrOf(Link(f)) == f
    ensures HasHw(Link(f), HW_WRITE_ENABLE) && !HasHw(Link(f), HW_USER) && HasHw(Link(f), HW_EXECUTE_DISABLE)
  {
    hide TableEntry;
    LinkFacts(f);
    FlagsRoundTrip(f, PRESENT | WRITE_BIT);
  }

  lemma ThroughLink(m: Memory, a: Access, i: Index, f: Word)
    requires a.Access? && a.write && PageAddr(f) && Peek(m, a.frame, i) == Link(f)
    ensures Descend(m, a, i) == Access(f, false, true, false)
  {
    hide Peek, AddrOf, HasHw, Link;
    assert Present(Link(f)) <==> HasHw(Link(f), HW_PRESENT);
    LinkRights(f);
  }

  lemma ThroughNothing(m: Memory, a: Access, i: Index)
    requires a.Access? ==> Peek(m, a.frame, i) == 0
    ensures Descend(m, a, i) == Fault
  {
    hide Peek;
  }

  lemma ThroughLeaf(m: Memory, f: Word, i: Index)
    ensures Descend(m, Access(f, false, true, false), i) == LeafAccess(Peek(m, f, i))
  {
    hide Peek, AddrOf, HasHw;
    assert Present(Peek(m, f, i)) <==> HasHw(Peek(m, f, i), HW_PRESENT);
  }

  lemma ZeroLeafFaults()
    ensures LeafAccess(0) == Fault
  {
  }

  lemma FaultThrough(m: Memory, p: Page)
    ensures Descend(m, Fault, p.l3) == Fault && Descend(m, Fault, p.l2) == Fault && Descend(m, Fault, p.l1) == Fault
  {
  }

  /** The hardware walk of an admissible page, in any represented state. */
  lemma WalkReadsLeaf(m: Memory, root: Word, t: Tree, p: Page)
    requires Represents(m, root, t) && Admissible(p)
    ensures HardwareWalk(m, root, p) == LeafAccess(LeafOf(t.pages, p))
  {
    hide Peek, Link, LeafAccess, Descend, PageAddr, Injective, ParentsExist;
    AncestorsExist(t, root, p);
    ZeroLeafFaults();
    var a4 := Access(root, true, true, true);
    var a3 := Descend(m, a4, p.l4);
    var a2 := Descend(m, a3, p.l3);
    var a1 := Descend(m, a2, p.l2);
    ReadLink(m, root, t, Root, p.l4);
    FaultThrough(m, p);
    if T3(p.l4) in t.tables {
      ThroughLink(m, a4, p.l4, t.tables[T3(p.l4)]);
      ReadLink(m, root, t, T3(p.l4), p.l3);
      if T2(p.l4, p.l3) in t.tables {
        ThroughLink(m, a3, p.l3, t.tables[T2(p.l4, p.l3)]);
        ReadLink(m, root, t, T2(p.l4, p.l3), p.l2);
        if TableOf(p) in t.tables {
          ThroughLink(m, a2, p.l2, t.tables[TableOf(p)]);
          assert Peek(m, t.tables[TableOf(p)], p.l1) == Expected(t, TableOf(p), p.l1);
          ThroughLeaf(m, t.tables[TableOf(p)], p.l1);
        } else {
          ThroughNothing(m, a2, p.l2);
        }
      } else {
        ThroughNothing(m, a3, p.l3);
      }
    } else {
      ThroughNothing(m, a4, p.l4);
    }
  }

  // ---------------------------------------------------------------------
  // Rights over whole runs
  // ---------------------------------------------------------------------

  /** What the processor may do with a page, given the request that mapped it: the page is
      writable exactly as asked, and never accessible to user mode nor executable. */
  function Granted(o: Option<Request>): Access {
    match o
    case None => Fault
    case Some(r) =>
      if Has(r.flags, PRESENT) then Access(r.phys, false, Has(r.flags, WRITE_BIT), false) else Fault
  }

  lemma LeafBits(r: Request)
    requires PageAddr(r.phys)
    ensures AddrOf(TableEntry(r.phys, r.flags)) == r.phys
    ensures HasHw(TableEntry(r.phys, r.flags), HW_PRESENT) <==> Has(r.flags, PRESENT)
    ensures HasHw(TableEntry(r.phys, r.flags), HW_WRITE_ENABLE) <==> Has(r.flags, WRITE_BIT)
  {
    hide TableEntry, AddrOf, HasHw, Has;
    EntryFacts(r.phys, r.flags);
    FlagsRoundTrip(r.phys, r.flags);
  }

  lemma LeafGrants(o: Option<Request>)
    requires o.Some? ==> PageAddr(o.value.phys)
    ensures LeafAccess(RequestedLeaf(o)) == Granted(o)
  {
    hide TableEntry, AddrOf, HasHw, Has, PageAddr;
    match o
    case None => ZeroLeafFaults();
    case Some(r) =>
      LeafBits(r);
      assert Present(TableEntry(r.phys, r.flags)) <==> HasHw(TableEntry(r.phys, r.flags), HW_PRESENT);
  }

  /** After any run from a zeroed root, the processor sees, for every admissible page, the frame
      of the last successful request for it, with the rights `Granted` says. */
  lemma HardwareSeesLastRequest(c: Setting, s: State, reqs: seq<Request>, p: Page)
    requires c.links.Repaired? && Start(c, s) && AdmissibleRun(reqs) && Admissible(p)
    ensures var (s', errors) := Run(c, s, reqs);
      |errors| == |reqs| &&
      HardwareWalk(s'.mem, c.root, p) == Granted(LastRequest(reqs, errors, p, None))
  {
    hide Start, MapEffect, TreeMap, HardwareWalk, LeafAccess, RequestedLeaf, Granted, Represents, FreshFrames,
      ModeReady;
    var t := EmptyTree(c.root);
    StartIsEmptyTree(c, s);
    RunRefines(c, s, t, reqs);
    var r := RunTree(t, s.frames, reqs);
    NothingRequested(c.root, p);
    RunLeaves(t, s.frames, reqs, p, None);
    WalkReadsLeaf(Run(c, s, reqs).0.mem, c.root, r.tree, p);
    LastRequestIsAdmissible(reqs, r.errors, p, None);
    LeafGrants(LastRequest(reqs, r.errors, p, None));
  }

  /** The rights a request names. */
  function Requested(r: Request): Access {
    if Has(r.flags, PRESENT)
    then Access(r.phys, Has(r.flags, USER_MODE_ACCESSIBLE), Has(r.flags, WRITE_BIT), Has(r.flags, EXECUTE_BIT))
    else Fault
  }

  predicate NoMoreThan(a: Access, b: Access) {
    a.Access? ==>
      (b.Access? && a.frame == b.frame && (a.user ==> b.user) && (a.write ==> b.write) && (a.execute ==> b.execute))
  }

  /** Never more rights than requested, the same write permission, and all of the requested
      rights exactly when a present page asks for neither user access nor execution. */
  lemma GrantedAgainstRequested(r: Request)
    ensures NoMoreThan(Granted(Some(r)), Requested(r))
    ensures Granted(Some(r)).Access? <==> Requested(r).Access?
    ensures Granted(Some(r)).Access? ==> Granted(Some(r)).write == Requested(r).write
    ensures Granted(Some(r)) == Requested(r) <==>
      (Has(r.flags, PRESENT) ==> !Has(r.flags, USER_MODE_ACCESSIBLE) && !Has(r.flags, EXECUTE_BIT))
  {
    hide Has;
  }

  /** A mapping without the present flag: `translateVirtToPhys` reports it, the processor does
      not.  The two agree on a mapped page exactly when the flag was requested. */
  lemma TranslateAgainstHardware(m: Memory, root: Word, t: Tree, v: VAddr)
    requires Represents(m, root, t) && Admissible(PageOf(v)) && Translate(m, root, v) != 0
    ensures var a := HardwareWalk(m, root, PageOf(v));
      (a.Access? && a.frame == Translate(m, root, v)) <==> Present(LeafOf(t.pages, PageOf(v)))
  {
    hide PageOf, AddrOf, Present, Translate, HardwareWalk, Represents;
    WalkReadsLeaf(m, root, t, PageOf(v));
    TranslateReadsLeaf(m, root, t, v);
  }
}
