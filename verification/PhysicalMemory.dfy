/**
 Physical memory as the page-table code sees it: 64-bit words addressed by a table frame
 and one of its 512 slots.  A slot that is not stored holds zero.
 */
module PhysicalMemory {
  import opened PageEntry
  import opened VirtualAddress

  datatype Slot = Slot(table: Word, index: Index)
  type Memory = map<Slot, Word>

  function Peek(m: Memory, table: Word, i: Index): Word {
    if Slot(table, i) in m then m[Slot(table, i)] else 0
  }

  function Poke(m: Memory, table: Word, i: Index, w: Word): Memory {
    m[Slot(table, i) := w]
  }

  /** The effect of clearing the 4096 bytes of a frame. */
  function ClearTable(m: Memory, table: Word): Memory {
    map s | s in m && s.table != table :: m[s]
  }

  // What the processor finds when it translates an address.
  datatype Access = Fault | Access(frame: Word, user: bool, write: bool, execute: bool)

  /** One level of the hardware walk: rights are the conjunction over the levels
      (section 5.6 of the AMD64 Architecture Programmer's Manual, Volume 2). */
  function Descend(m: Memory, a: Access, i: Index): Access {
    if a.Fault? then Fault
    else
      var e := Peek(m, a.frame, i);
      if !HasHw(e, HW_PRESENT) then Fault
      else Access(AddrOf(e),
                  a.user && HasHw(e, HW_USER),
                  a.write && HasHw(e, HW_WRITE_ENABLE),
                  a.execute && !HasHw(e, HW_EXECUTE_DISABLE))
  }

  /** The bits of an entry that decide, one by one. */
  lemma DescendExactly(m: Memory, a: Access, i: Index)
    requires a.Access?
    ensures var e := Peek(m, a.frame, i);
      var b := Descend(m, a, i);
      && (b.Fault? <==> e & 0x1 == 0)
      && (b.Access? ==> b.frame == ((e >> 12) & 0xFF_FFFF_FFFF) << 12)
      && (b.Access? ==> (b.write <==> a.write && e & 0x2 != 0))
      && (b.Access? ==> (b.user <==> a.user && e & 0x4 != 0))
      && (b.Access? ==> (b.execute <==> a.execute && e >> 63 == 0))
  {
    hide Peek;
    AddressField(Peek(m, a.frame, i));
  }

  /** The four-level walk from the table register `cr3`. */
  function HardwareWalk(m: Memory, cr3: Word, p: Page): Access {
    Descend(m, Descend(m, Descend(m, Descend(m,
      Access(cr3, true, true, true), p.l4), p.l3), p.l2), p.l1)
  }
}
