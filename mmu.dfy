/**
 * The memory-management unit as the simulator runs it: a page table, a frame
 * pool and a FIFO cursor updated in place, and the TLB it owns. Each method
 * does to its arrays exactly what the corresponding Paging function describes;
 * the invariants the engine keeps are proved about those functions.
 */
module Mmu {
  import opened Arch
  import opened Trace
  import opened Tlb
  import opened Paging

  class MMU {
    /** Frame pool: EMPTY or the VPN resident in each frame. */
    const physicalMem: array<int>
    const pageTable: array<Pte>
    const tlBuffer: TLB
    /** The FIFO cursor: the next frame to be (re)assigned. */
    var physicalMemIterator: nat
    /** The objects the methods change besides this one. */
    ghost const Repr: set<object>

    ghost predicate Valid()
      reads this, physicalMem, pageTable, tlBuffer, tlBuffer.buffer
    {
      && Repr == {physicalMem, pageTable, tlBuffer, tlBuffer.buffer}
      && tlBuffer.Valid() && !tlBuffer.cacheError
      && physicalMem.Length == MAX_PHYSICAL_PAGES && pageTable.Length == TOTAL_SUPPORTED_PAGES
      && Shape(State())
    }

    /** The state as a value. */
    ghost function State(): Machine
      reads this, physicalMem, pageTable, tlBuffer, tlBuffer.buffer
    {
      Machine(pageTable[..], physicalMem[..], physicalMemIterator, tlBuffer.State())
    }

    /** Every page absent, every frame empty (-1), both cursors at 0. */
    constructor ()
      ensures Valid() && fresh(Repr)
      ensures State() == Init()
    {
      var frames := new int[MAX_PHYSICAL_PAGES];
      for i := 0 to frames.Length
        invariant forall j :: 0 <= j < i ==> frames[j] == EMPTY
      {
        frames[i] := EMPTY;
      }
      var table := new Pte[TOTAL_SUPPORTED_PAGES](_ => CLEAR_PTE);
      var tlb := new TLB();
      pageTable, physicalMem, tlBuffer := table, frames, tlb;
      physicalMemIterator := 0;
      Repr := {frames, table, tlb, tlb.buffer};
      new;
      assert pageTable[..] == Init().pageTable;
      assert physicalMem[..] == Init().physicalMem;
    }

    /** The diagnostic dump of the page table: the present entries in index order, or a note that there are none. */
    method ReadPT() returns (events: seq<Event>)
      ensures events == PageTableDump(pageTable[..])
    {
      ghost var pt := pageTable[..];
      events := [PageTableHeader];
      var foundPresentPage := false;
      for i := 0 to pageTable.Length
        invariant events + PresentRows(pt, i) == [PageTableHeader] + PresentRows(pt, 0)
        invariant |events| >= 1 && (foundPresentPage <==> |events| > 1)
      {
        if pageTable[i].present {
          foundPresentPage := true;
          events := events + [PageTableRow(i, pageTable[i].dirty, pageTable[i].pfn)];
        }
        assert pt[i] == pageTable[i];
      }
      if !foundPresentPage {
        events := events + [NoPresentPages];
      }
    }

    /** The diagnostic dump of the TLB: every row in index order. */
    method ReadMMU() returns (events: seq<Event>)
      requires Valid()
      ensures events == [MmuHeader] + TlbRows(tlBuffer.buffer[..])
    {
      events := [MmuHeader];
      var size := tlBuffer.GetBufferSize();
      for i := 0 to size
        invariant events == [MmuHeader] + TlbRows(tlBuffer.buffer[..])[..i]
      {
        var line := tlBuffer.ReadBuffer(i);
        events := events + line;
      }
      assert TlbRows(tlBuffer.buffer[..])[..size] == TlbRows(tlBuffer.buffer[..]);
    }

    /** Page fault service: FIFO eviction of the frame under the cursor and installation of va.vpn. */
    method SwapPage(va: VirtualAddress, write: bool) returns (frame: nat, events: seq<Event>)
      requires Valid() && va.vpn < TOTAL_SUPPORTED_PAGES
      modifies this, Repr
      ensures Valid()
      ensures var s := Swap(old(State()), va, write);
        State() == s.next && events == s.trace && frame == s.frame
    {
      ghost var m := State();
      var swappedPage := physicalMem[physicalMemIterator];
      var swappingInPage := va.vpn;
      frame := physicalMemIterator;
      events := [];
      if swappedPage != EMPTY {
        var victim := pageTable[swappedPage];
        events := [Eject(swappedPage, victim.dirty)];
        if victim.dirty {
          events := events + [WriteBack(swappedPage)];
          victim := victim.(dirty := false);
        }
        pageTable[swappedPage] := victim.(present := false, pfn := 0);
      }
      assert events == if swappedPage == EMPTY then []
        else [Eject(swappedPage, m.pageTable[swappedPage].dirty)] + (if m.pageTable[swappedPage].dirty then [WriteBack(swappedPage)] else []);
      assert pageTable[..] == if swappedPage == EMPTY then m.pageTable
        else m.pageTable[swappedPage := m.pageTable[swappedPage].(dirty := false, present := false, pfn := 0)];
      ghost var s := Swap(m, va, write);
      physicalMem[physicalMemIterator] := swappingInPage;
      pageTable[swappingInPage] := pageTable[swappingInPage].(present := true, pfn := physicalMemIterator);
      assert pageTable[..] == s.next.pageTable && physicalMem[..] == s.next.physicalMem;
      tlBuffer.WriteToBuffer(physicalMemIterator, swappingInPage);
      events := events + [Assign(va.vpn, va.offset, physicalMemIterator),
                          SwapIn(va.vpn, va.offset, physicalMemIterator, write)];
      physicalMemIterator := physicalMemIterator + 1;
      if physicalMemIterator >= MAX_PHYSICAL_PAGES {
        physicalMemIterator := 0;
      }
      assert State() == s.next;
    }

    /** Page-table translation; faulted is the paging flag (a fault or an out-of-range page). */
    method TranslateVA(va: VirtualAddress, write: bool) returns (frame: nat, faulted: bool, events: seq<Event>)
      requires Valid()
      modifies this, Repr
      ensures Valid()
      ensures var s := Translate(old(State()), va, write);
        State() == s.next && events == s.trace && frame == s.frame && faulted == s.faulted
    {
      if va.vpn >= pageTable.Length {
        return 0, true, [];
      }
      if pageTable[va.vpn].present {
        return pageTable[va.vpn].pfn, false, [];
      }
      var swapEvents;
      frame, swapEvents := SwapPage(va, write);
      events := [PageFault(va.vpn, va.Value())] + swapEvents;
      faulted := true;
    }

    /** A read access: TLB first, then the page table. */
    method ReadVA(addr: Addr) returns (events: seq<Event>)
      requires Valid()
      modifies this, Repr
      ensures Valid()
      ensures State() == Read(old(State()), addr).next
      ensures events == Read(old(State()), addr).trace
    {
      ghost var m := State();
      events := [ReadRequest(addr)];
      var va := Split(addr);
      var frameNumber := tlBuffer.FetchPageBuffer(va.vpn);
      var miss := tlBuffer.GetCacheError();
      assert State() == m;
      if !miss {
        events := events + [Translated(va.vpn, addr, frameNumber, Plain)];
        return;
      }
      var faulted, translateEvents;
      frameNumber, faulted, translateEvents := TranslateVA(va, false);
      events := events + translateEvents;
      if !faulted {
        events := events + [Translated(va.vpn, va.offset, frameNumber, Plain)];
      }
    }

    /** A write access: as a read, with the dirty-bit note; the page ends dirty on every path. */
    method WriteVA(addr: Addr) returns (events: seq<Event>)
      requires Valid()
      modifies this, Repr
      ensures Valid()
      ensures State() == Write(old(State()), addr).next
      ensures events == Write(old(State()), addr).trace
    {
      ghost var m := State();
      events := [WriteRequest(addr)];
      var va := Split(addr);
      var frameNumber := tlBuffer.FetchPageBuffer(va.vpn);
      var miss := tlBuffer.GetCacheError();
      assert State() == m;
      if !miss {
        events := events + [Translated(va.vpn, addr, frameNumber, WriteMark(pageTable[va.vpn].dirty))];
        pageTable[va.vpn] := pageTable[va.vpn].(dirty := true);
        assert State() == Write(m, addr).next;
        return;
      }
      var faulted, translateEvents;
      frameNumber, faulted, translateEvents := TranslateVA(va, true);
      events := events + translateEvents;
      if !faulted {
        events := events + [Translated(va.vpn, va.offset, frameNumber, WriteMark(pageTable[va.vpn].dirty))];
      }
      pageTable[va.vpn] := pageTable[va.vpn].(dirty := true);
      assert State() == Write(m, addr).next;
    }
  }
}
