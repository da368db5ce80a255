/**
 `mapPage` and `translateVirtToPhys` of the x86_64 paging controller.

 The controller is a class whose methods update page-table words in place.  Beside it
 stands the effect of one call as a function of the old state; the theorems are about
 that function.  The physical frame allocator is a callback with hidden state, so it is
 modelled by the sequence of its future answers; 0 (or running out) means failure.
 */
module PageTables {
  import opened PageEntry
  import opened VirtualAddress
  import opened PhysicalMemory

  datatype PageMapError = NoError | EntryExists | InvalidVirtAddress | AllocFailed

  /** Where the link of a new L2 or L1 table is stored: in the root, as the source has it,
      or in the table above it (the repair). */
  datatype Links = AsWritten | Repaired

  datatype Setting = Setting(root: Word, links: Links, pagingDisabledNow: bool)

  datatype State = State(mem: Memory, frames: seq<Word>)

  function NextFrame(frames: seq<Word>): Word {
    if frames == [] then 0 else frames[0]
  }

  function LaterFrames(frames: seq<Word>): seq<Word> {
    if frames == [] then [] else frames[1..]
  }

  // Pages of the recursive window that show the L3, L2 and L1 table of an address.
  function WindowL3(p: Page): Page { Page(RECURSIVE_INDEX, RECURSIVE_INDEX, RECURSIVE_INDEX, p.l4) }
  function WindowL2(p: Page): Page { Page(RECURSIVE_INDEX, RECURSIVE_INDEX, p.l4, p.l3) }
  function WindowL1(p: Page): Page { Page(RECURSIVE_INDEX, p.l4, p.l3, p.l2) }

  /** The address the source computes for a page of the window. */
  function WindowAddress(w: Page): VAddr {
    SIGN_EXTENSION | Low48(w)
  }

  /** Both arms of each `pagingDisabledNow` test: the physical pointer, or the frame behind
      the window address (judged on its low 48 bits; a fault yields no table, written 0). */
  function TablePointer(c: Setting, m: Memory, entry: Word, window: Page): Word {
    if c.pagingDisabledNow then AddrOf(entry)
    else
      var a := HardwareWalk(m, c.root, PageOf(WindowAddress(window)));
      if a.Fault? then 0 else a.frame
  }

  function Translate(m: Memory, root: Word, v: VAddr): Word {
    var p := PageOf(v);
    var l3 := AddrOf(Peek(m, root, p.l4));
    if l3 == 0 then 0
    else
      var l2 := AddrOf(Peek(m, l3, p.l3));
      if l2 == 0 then 0
      else
        var l1 := AddrOf(Peek(m, l2, p.l2));
        if l1 == 0 then 0 else AddrOf(Peek(m, l1, p.l1))
  }

  /** Memory after a new table `f` is cleared, linked and given its self slot. */
  function NewTable(c: Setting, m: Memory, f: Word, linkInto: Word, slot: Index, window: Page): Memory {
    var cleared := if c.pagingDisabledNow then ClearTable(m, f) else m;
    var linked := Poke(cleared, linkInto, slot, Link(f));
    Poke(linked, TablePointer(c, linked, Link(f), window), RECURSIVE_INDEX, Link(f))
  }

  /** One "table missing? allocate it" block; an entry of 0 stands for `AllocFailed`. */
  function EnsureTable(c: Setting, s: State, parent: Word, slot: Index, linkInto: Word, window: Page)
    : (State, Word)
  {
    var e := Peek(s.mem, parent, slot);
    var f := NextFrame(s.frames);
    if e != 0 then (s, e)
    else if f == 0 then (State(s.mem, LaterFrames(s.frames)), 0)
    else (State(NewTable(c, s.mem, f, linkInto, slot, window), LaterFrames(s.frames)), Link(f))
  }

  function LinkTarget(c: Setting, table: Word): Word {
    if c.links.AsWritten? then c.root else table
  }

  function WriteLeaf(s: State, l1: Word, slot: Index, entry: Word, force: bool): (State, PageMapError) {
    if Peek(s.mem, l1, slot) != 0 && !force then (s, EntryExists)
    else (State(Poke(s.mem, l1, slot, entry), s.frames), NoError)
  }

  function InstallInL2(c: Setting, s: State, l2: Word, p: Page, entry: Word, force: bool): (State, PageMapError) {
    var (s1, e1) := EnsureTable(c, s, l2, p.l2, LinkTarget(c, l2), WindowL1(p));
    if e1 == 0 then (s1, AllocFailed)
    else WriteLeaf(s1, TablePointer(c, s1.mem, e1, WindowL1(p)), p.l1, entry, force)
  }

  function InstallInL3(c: Setting, s: State, l3: Word, p: Page, entry: Word, force: bool): (State, PageMapError) {
    var (s2, e2) := EnsureTable(c, s, l3, p.l3, LinkTarget(c, l3), WindowL2(p));
    if e2 == 0 then (s2, AllocFailed)
    else InstallInL2(c, s2, TablePointer(c, s2.mem, e2, WindowL2(p)), p, entry, force)
  }

  /** The part of `mapPage` behind the early returns, one function a level: the entry of the
      L3 table is looked up or made, then that of the L2 table, the L1 table, and the leaf. */
  function Install(c: Setting, s: State, p: Page, entry: Word, force: bool): (State, PageMapError) {
    var (s3, e3) := EnsureTable(c, s, c.root, p.l4, c.root, WindowL3(p));
    if e3 == 0 then (s3, AllocFailed)
    else InstallInL3(c, s3, TablePointer(c, s3.mem, e3, WindowL3(p)), p, entry, force)
  }

  datatype Request = Request(virt: VAddr, phys: Word, flags: PageFlags, force: bool)

  /** The effect of one `mapPage` call. */
  function MapEffect(c: Setting, s: State, r: Request): (State, PageMapError) {
    if !PassesCanonicalTest(r.virt) then (s, InvalidVirtAddress)
    else if !r.force && Translate(s.mem, c.root, r.virt) != 0 then (s, EntryExists)
    else Install(c, s, PageOf(r.virt), TableEntry(r.phys, r.flags), r.force)
  }

  class PagingController {
    const setting: Setting
    var mem: Memory
    var frames: seq<Word>

    constructor (setting: Setting, mem: Memory, frames: seq<Word>)
      ensures this.setting == setting && this.mem == mem && this.frames == frames
    {
      this.setting := setting;
      this.mem := mem;
      this.frames := frames;
    }

    method AllocateFrame() returns (f: Word)
      modifies this`frames
      ensures f == NextFrame(old(frames)) && frames == LaterFrames(old(frames))
    {
      if frames == [] {
        f := 0;
      } else {
        f := frames[0];
        frames := frames[1..];
      }
    }

    method ZeroFrame(f: Word)
      modifies this`mem
      ensures mem == ClearTable(old(mem), f)
    {
      mem := map s | s in mem && s.table != f :: mem[s];
    }

    method Store(table: Word, i: Index, w: Word)
      modifies this`mem
      ensures mem == Poke(old(mem), table, i, w)
    {
      mem := mem[Slot(table, i) := w];
    }

    method TranslateVirtToPhys(virtAddress: VAddr) returns (phys: Word)
      ensures phys == Translate(mem, setting.root, virtAddress)
    {
      var p := PageOf(virtAddress);
      var l3PhysAddr := AddrOf(Peek(mem, setting.root, p.l4));
      if l3PhysAddr == 0 {
        return 0;
      }
      var l2PhysAddr := AddrOf(Peek(mem, l3PhysAddr, p.l3));
      if l2PhysAddr == 0 {
        return 0;
      }
      var l1PhysAddr := AddrOf(Peek(mem, l2PhysAddr, p.l2));
      if l1PhysAddr == 0 {
        return 0;
      }
      return AddrOf(Peek(mem, l1PhysAddr, p.l1));
    }

    /** The block that `mapPage` repeats for each of its three levels of tables: look the entry
        up and, when it is zero, allocate a frame, clear it, link it and self-link it.  Returns
        0 when the allocator fails. */
    method EnsureTableAt(parent: Word, slot: Index, linkInto: Word, window: Page) returns (entry: Word)
      modifies this`mem, this`frames
      ensures (State(mem, frames), entry)
           == EnsureTable(setting, old(State(mem, frames)), parent, slot, linkInto, window)
    {
      hide AddrOf, TableEntry, Link, TablePointer, ClearTable, Poke, Peek;
      entry := Peek(mem, parent, slot);
      if entry == 0 {
        var physAddr := AllocateFrame();
        if physAddr == 0 {
          return;
        }
        if setting.pagingDisabledNow {
          ZeroFrame(physAddr);
        }
        entry := Link(physAddr);
        Store(linkInto, slot, entry);
        var newTable := TablePointer(setting, mem, entry, window);
        Store(newTable, RECURSIVE_INDEX, entry);
      }
    }

    method InstallPage(p: Page, entry: Word, forceWrite: bool) returns (error: PageMapError)
      modifies this`mem, this`frames
      ensures (State(mem, frames), error) == Install(setting, old(State(mem, frames)), p, entry, forceWrite)
    {
      hide TablePointer, Peek, Poke, EnsureTable;
      var root := setting.root;
      var entryForL3 := EnsureTableAt(root, p.l4, root, WindowL3(p));
      if entryForL3 == 0 {
        return AllocFailed;
      }
      var l3Table := TablePointer(setting, mem, entryForL3, WindowL3(p));

      // As written the link goes to rootPageTable->entries[l3Idx].
      var l2Link := LinkTarget(setting, l3Table);
      var entryForL2 := EnsureTableAt(l3Table, p.l3, l2Link, WindowL2(p));
      if entryForL2 == 0 {
        return AllocFailed;
      }
      var l2Table := TablePointer(setting, mem, entryForL2, WindowL2(p));

      // As written the link goes to rootPageTable->entries[l2Idx].
      var l1Link := LinkTarget(setting, l2Table);
      var entryForL1 := EnsureTableAt(l2Table, p.l2, l1Link, WindowL1(p));
      if entryForL1 == 0 {
        return AllocFailed;
      }
      var l1Table := TablePointer(setting, mem, entryForL1, WindowL1(p));

      if Peek(mem, l1Table, p.l1) != 0 && !forceWrite {
        return EntryExists;
      }
      Store(l1Table, p.l1, entry);
      return NoError;
    }

    method MapPage(virtAddress: VAddr, physAddress: Word, flags: PageFlags, forceWrite: bool)
      returns (error: PageMapError)
      modifies this`mem, this`frames
      ensures (State(mem, frames), error)
           == MapEffect(setting, old(State(mem, frames)), Request(virtAddress, physAddress, flags, forceWrite))
    {
      hide PageOf, Translate, Install, TableEntry;
      if !PassesCanonicalTest(virtAddress) {
        return InvalidVirtAddress;
      }
      if !forceWrite {
        var phys := TranslateVirtToPhys(virtAddress);
        if phys != 0 {
          return EntryExists;
        }
      }
      error := InstallPage(PageOf(virtAddress), TableEntry(physAddress, flags), forceWrite);
    }
  }

  /** Whatever the frame, a link has its present bit set. */
  lemma NonZeroLink(f: Word)
    ensures Link(f) != 0
  {
  }
}
