/**
 * The address-translation engine as values: the page table, the frame pool,
 * the FIFO cursor and the TLB, and what each access does to them and prints.
 * Class MMU performs these steps in place; the lemmas here state what the
 * engine guarantees.
 */
module Paging {
  import opened Wrappers
  import opened Arch
  import opened Trace
  import opened Tlb

  /** A page-table entry (the unused referenced, valid and rw bits are not modelled). */
  datatype Pte = Pte(dirty: bool, present: bool, pfn: nat)

  const CLEAR_PTE := Pte(false, false, 0)

  /** A frame-pool slot holding no page. */
  const EMPTY: int := -1

  /** The engine's state: page table, frame pool (EMPTY or the resident VPN), FIFO cursor, TLB. */
  datatype Machine = Machine(pageTable: seq<Pte>, physicalMem: seq<int>, cursor: nat, tlb: TlbState)

  /**
   * The result of one operation: the new state, the trace it emits, the frame
   * it resolved to, and whether it raised the paging flag (a fault, or an
   * out-of-range page number).
   */
  datatype Step = Step(next: Machine, trace: seq<Event>, frame: nat, faulted: bool)

  /** The state the constructor builds: no page present, every frame empty, both cursors 0. */
  function Init(): (m: Machine)
    ensures Shape(m)
    ensures forall v :: 0 <= v < |m.pageTable| ==> !m.pageTable[v].present && !m.pageTable[v].dirty
    ensures forall f :: 0 <= f < |m.physicalMem| ==> m.physicalMem[f] == EMPTY
    ensures m.cursor == 0 && m.tlb == InitTlb()
  {
    Machine(seq(TOTAL_SUPPORTED_PAGES, _ => CLEAR_PTE), seq(MAX_PHYSICAL_PAGES, _ => EMPTY), 0, InitTlb())
  }

  /** Sizes and index ranges. */
  predicate Shape(m: Machine)
  {
    && |m.pageTable| == TOTAL_SUPPORTED_PAGES
    && |m.physicalMem| == MAX_PHYSICAL_PAGES
    && m.cursor < MAX_PHYSICAL_PAGES
    && WellFormed(m.tlb)
    && forall f :: 0 <= f < MAX_PHYSICAL_PAGES ==> m.physicalMem[f] == EMPTY || 0 <= m.physicalMem[f] < TOTAL_SUPPORTED_PAGES
  }

  /**
   * Frame pool and page table describe the same mapping in both directions,
   * only present pages are dirty, and every in-use TLB row names the page
   * that really occupies its frame, one row per frame.
   */
  predicate Consistent(m: Machine)
  {
    && Shape(m)
    && (forall f :: 0 <= f < MAX_PHYSICAL_PAGES && m.physicalMem[f] != EMPTY ==>
          m.pageTable[m.physicalMem[f]].present && m.pageTable[m.physicalMem[f]].pfn == f)
    && (forall v :: 0 <= v < TOTAL_SUPPORTED_PAGES && m.pageTable[v].present ==>
          m.pageTable[v].pfn < MAX_PHYSICAL_PAGES && m.physicalMem[m.pageTable[v].pfn] == v)
    && (forall v :: 0 <= v < TOTAL_SUPPORTED_PAGES && m.pageTable[v].dirty ==> m.pageTable[v].present)
    && (forall i :: 0 <= i < MAX_PHYSICAL_PAGES && m.tlb.rows[i].inUse ==>
          m.tlb.rows[i].pfn < MAX_PHYSICAL_PAGES && m.physicalMem[m.tlb.rows[i].pfn] == m.tlb.rows[i].vpn)
    && FramesDistinct(m.tlb.rows)
  }

  /**
   * The TLB and the frame pool fill in lockstep: while frames 0..cursor-1 are
   * being filled for the first time, exactly TLB rows 0..cursor-1 are in use,
   * row i for frame i, and both cursors agree; once every frame is full, every
   * row is in use for its own frame and the TLB cursor rests at 0.
   */
  predicate Lockstep(m: Machine)
    requires Shape(m)
  {
    || (&& m.tlb.cursor == m.cursor
        && forall f :: 0 <= f < MAX_PHYSICAL_PAGES ==>
             && (m.physicalMem[f] != EMPTY <==> f < m.cursor)
             && (m.tlb.rows[f].inUse <==> f < m.cursor)
             && (m.tlb.rows[f].inUse ==> m.tlb.rows[f].pfn == f))
    || (&& m.tlb.cursor == 0
        && forall f :: 0 <= f < MAX_PHYSICAL_PAGES ==>
             m.physicalMem[f] != EMPTY && m.tlb.rows[f].inUse && m.tlb.rows[f].pfn == f)
  }

  /** What holds of every state the engine reaches from construction. */
  predicate Invariant(m: Machine)
  {
    Consistent(m) && Lockstep(m)
  }

  /**
   * FIFO replacement of the frame under the cursor by page va.vpn: the resident
   * page, if any, is ejected (and written back if dirty), the new page is
   * installed in the page table, the frame pool and the TLB, and the cursor advances.
   */
  function Swap(m: Machine, va: VirtualAddress, write: bool): (s: Step)
    requires Shape(m) && va.vpn < TOTAL_SUPPORTED_PAGES
    ensures Shape(s.next)
  {
    var victim := m.physicalMem[m.cursor];
    var table :=
      if victim == EMPTY then m.pageTable
      else m.pageTable[victim := m.pageTable[victim].(dirty := false, present := false, pfn := 0)];
    var ejected :=
      if victim == EMPTY then []
      else [Eject(victim, m.pageTable[victim].dirty)] + (if m.pageTable[victim].dirty then [WriteBack(victim)] else []);
    var table' := table[va.vpn := table[va.vpn].(present := true, pfn := m.cursor)];
    Step(Machine(table', m.physicalMem[m.cursor := va.vpn], NextSlot(m.cursor), Install(m.tlb, m.cursor, va.vpn)),
         ejected + [Assign(va.vpn, va.offset, m.cursor), SwapIn(va.vpn, va.offset, m.cursor, write)],
         m.cursor, true)
  }

  /** Page-table translation: range check, then a hit, or a page fault resolved by Swap. */
  function Translate(m: Machine, va: VirtualAddress, write: bool): (s: Step)
    requires Shape(m)
    ensures Shape(s.next)
  {
    if va.vpn >= |m.pageTable| then Step(m, [], 0, true)
    else if m.pageTable[va.vpn].present then Step(m, [], m.pageTable[va.vpn].pfn, false)
    else
      var s := Swap(m, va, write);
      s.(trace := [PageFault(va.vpn, va.Value())] + s.trace)
  }

  /** A read: TLB first, then the page table; a fault replaces the success line by the fault's lines. */
  function Read(m: Machine, addr: Addr): (s: Step)
    requires Shape(m)
    ensures Shape(s.next)
  {
    var va := Split(addr);
    match Lookup(m.tlb.rows, va.vpn)
    case Some(pfn) =>
      Step(m, [ReadRequest(addr), Translated(va.vpn, addr, pfn, Plain)], pfn, false)
    case None =>
      var t := Translate(m, va, false);
      var success := if t.faulted then [] else [Translated(va.vpn, va.offset, t.frame, Plain)];
      Step(t.next, [ReadRequest(addr)] + t.trace + success, t.frame, t.faulted)
  }

  /** A write: as a read, with the dirty-bit note, and the page's dirty bit set on every path. */
  function Write(m: Machine, addr: Addr): (s: Step)
    requires Shape(m)
    ensures Shape(s.next)
  {
    var va := Split(addr);
    match Lookup(m.tlb.rows, va.vpn)
    case Some(pfn) =>
      var table := m.pageTable[va.vpn := m.pageTable[va.vpn].(dirty := true)];
      Step(m.(pageTable := table),
           [WriteRequest(addr), Translated(va.vpn, addr, pfn, WriteMark(m.pageTable[va.vpn].dirty))], pfn, false)
    case None =>
      var t := Translate(m, va, true);
      var success :=
        if t.faulted then []
        else [Translated(va.vpn, va.offset, t.frame, WriteMark(t.next.pageTable[va.vpn].dirty))];
      var table := t.next.pageTable[va.vpn := t.next.pageTable[va.vpn].(dirty := true)];
      Step(t.next.(pageTable := table), [WriteRequest(addr)] + t.trace + success, t.frame, t.faulted)
  }

  /** The page-table dump lines for the present entries from index i on, in index order. */
  function PresentRows(pt: seq<Pte>, i: nat): (rows: seq<Event>)
    ensures rows == [] || i + |rows| <= |pt|
    decreases |pt| - i
  {
    if i >= |pt| then []
    else (if pt[i].present then [PageTableRow(i, pt[i].dirty, pt[i].pfn)] else []) + PresentRows(pt, i + 1)
  }

  /** e is the dump line of a present entry of pt, with that entry's bits. */
  predicate DescribesPresentEntry(pt: seq<Pte>, e: Event)
  {
    && e.PageTableRow? && e.vpn < |pt| && pt[e.vpn].present
    && e == PageTableRow(e.vpn, pt[e.vpn].dirty, pt[e.vpn].pfn)
  }

  /** The rows from index i on are exactly the present entries from i on, in increasing index order. */
  lemma {:induction false} PresentRowsLists(pt: seq<Pte>, i: nat)
    ensures var rows := PresentRows(pt, i);
      forall j :: 0 <= j < |rows| ==> DescribesPresentEntry(pt, rows[j]) && i <= rows[j].vpn
    ensures var rows := PresentRows(pt, i);
      forall j, k :: 0 <= j < k < |rows| ==> rows[j].vpn < rows[k].vpn
    ensures var rows := PresentRows(pt, i);
      forall v :: i <= v < |pt| && pt[v].present ==> PageTableRow(v, pt[v].dirty, pt[v].pfn) in rows
    decreases |pt| - i
  {
    if i < |pt| {
      PresentRowsLists(pt, i + 1);
      var head := if pt[i].present then [PageTableRow(i, pt[i].dirty, pt[i].pfn)] else [];
      var tail := PresentRows(pt, i + 1);
      var rows := PresentRows(pt, i);
      assert rows == head + tail;
      forall j | |head| <= j < |rows|
        ensures rows[j] == tail[j - |head|]
      {
      }
    }
  }

  /** The page-table dump: header, the present entries, or the note that there are none. */
  function PageTableDump(pt: seq<Pte>): (dump: seq<Event>)
    ensures 2 <= |dump| && dump[0] == PageTableHeader
  {
    var rows := PresentRows(pt, 0);
    [PageTableHeader] + rows + (if rows == [] then [NoPresentPages] else [])
  }

  /**
   * The dump lists exactly the present entries, each with its own bits, in
   * increasing page order, and ends with the no-present-pages note exactly
   * when no entry is present.
   */
  lemma DumpListsPresentPages(pt: seq<Pte>)
    ensures var dump := PageTableDump(pt);
      dump[|dump| - 1] == NoPresentPages <==> forall v :: 0 <= v < |pt| ==> !pt[v].present
    ensures var dump := PageTableDump(pt);
      forall j :: 1 <= j < |dump| && dump[j].PageTableRow? ==> DescribesPresentEntry(pt, dump[j])
    ensures var dump := PageTableDump(pt);
      forall v :: 0 <= v < |pt| && pt[v].present ==> PageTableRow(v, pt[v].dirty, pt[v].pfn) in dump
    ensures var dump := PageTableDump(pt);
      forall j, k :: 1 <= j < k < |dump| && dump[j].PageTableRow? && dump[k].PageTableRow? ==> dump[j].vpn < dump[k].vpn
    ensures var dump := PageTableDump(pt);
      forall j :: 1 <= j < |dump| - 1 ==> dump[j].PageTableRow?
    ensures var dump := PageTableDump(pt);
      dump[|dump| - 1].PageTableRow? || dump[|dump| - 1] == NoPresentPages
  {
    PresentRowsLists(pt, 0);
    var rows := PresentRows(pt, 0);
    var dump := PageTableDump(pt);
    var note := if rows == [] then [NoPresentPages] else [];
    assert dump == [PageTableHeader] + rows + note;
    forall j | 1 <= j < |dump| && (dump[j].PageTableRow? || j < |dump| - 1)
      ensures j - 1 < |rows| && dump[j] == rows[j - 1]
    {
    }
    if rows != [] {
      var k := 0;
      assert 0 <= k < |PresentRows(pt, 0)|;
      assert DescribesPresentEntry(pt, PresentRows(pt, 0)[k]);
      assert dump[|dump| - 1] == rows[|rows| - 1];
    }
  }

  /** The decoded commands that act on the engine. */
  datatype Op = DumpMmu | DumpPageTable | ReadOp(addr: Addr) | WriteOp(addr: Addr)

  function Exec(m: Machine, op: Op): (s: Step)
    requires Shape(m)
    ensures Shape(s.next)
  {
    match op
    case DumpMmu => Step(m, [MmuHeader] + TlbRows(m.tlb.rows), 0, false)
    case DumpPageTable => Step(m, PageTableDump(m.pageTable), 0, false)
    case ReadOp(a) => Read(m, a)
    case WriteOp(a) => Write(m, a)
  }

  /** The page an operation brought in, if it faulted. */
  function Installed(op: Op, s: Step): seq<nat>
  {
    if s.faulted && (op.ReadOp? || op.WriteOp?) then [Split(op.addr).vpn] else []
  }

  /** A run of operations: final state, whole trace, and the pages faulted in, in order. */
  datatype Run = Run(final: Machine, trace: seq<Event>, installs: seq<nat>)

  function RunOps(m: Machine, ops: seq<Op>): (r: Run)
    requires Shape(m)
    ensures Shape(r.final)
    decreases |ops|
  {
    if ops == [] then Run(m, [], [])
    else
      var s := Exec(m, ops[0]);
      var r := RunOps(s.next, ops[1..]);
      Run(r.final, s.trace + r.trace, Installed(ops[0], s) + r.installs)
  }

  /** The pages currently present. */
  function PresentPages(m: Machine): set<nat>
  {
    set v: nat | v < |m.pageTable| && m.pageTable[v].present
  }
}
