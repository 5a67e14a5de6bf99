/**
 * What single reads and writes do, seen from outside: which frame answers,
 * when a fault happens, what an eviction prints, and how dirty bits evolve.
 */
module Accesses {
  import opened Arch
  import opened Trace
  import opened Paging
  import opened Invariants

  /**
   * A swap ejects exactly the page resident under the cursor, if any: a dirty
   * victim is written back and a clean one is not; then the assignment and the
   * swap-in are printed, and nothing else; the victim ends absent and
   * clean, the new page is present in the cursor's frame and starts clean, and
   * no other page-table entry changes.
   */
  lemma EvictionTrace(m: Machine, va: VirtualAddress, write: bool)
    requires Consistent(m) && va.vpn < TOTAL_SUPPORTED_PAGES && !m.pageTable[va.vpn].present
    ensures var s := Swap(m, va, write);
      var victim := m.physicalMem[m.cursor];
      && ((exists e :: e in s.trace && e.Eject?) <==> victim != EMPTY)
      && WriteBacks(s.trace) == (if victim != EMPTY && m.pageTable[victim].dirty then [victim] else [])
      && (victim != EMPTY ==>
            && s.trace[0] == Eject(victim, m.pageTable[victim].dirty)
            && victim != va.vpn
            && !s.next.pageTable[victim].present && !s.next.pageTable[victim].dirty)
      && |s.trace| == 2 + (if victim == EMPTY then 0 else if m.pageTable[victim].dirty then 2 else 1)
      && s.trace[|s.trace| - 2] == Assign(va.vpn, va.offset, m.cursor)
      && s.trace[|s.trace| - 1] == SwapIn(va.vpn, va.offset, m.cursor, write)
      && s.next.pageTable[va.vpn].present && s.next.pageTable[va.vpn].pfn == m.cursor
      && !s.next.pageTable[va.vpn].dirty
      && (forall v :: 0 <= v < TOTAL_SUPPORTED_PAGES && v != va.vpn && v != victim ==>
            s.next.pageTable[v] == m.pageTable[v])
  {
    var s := Swap(m, va, write);
    var victim := m.physicalMem[m.cursor];
    var tail := [Assign(va.vpn, va.offset, m.cursor), SwapIn(va.vpn, va.offset, m.cursor, write)];
    assert WriteBacks(tail) == [] by {
      assert tail[1..][1..] == [];
    }
    if victim == EMPTY {
      assert s.trace == tail;
    } else {
      var dirty := m.pageTable[victim].dirty;
      var ejected := [Eject(victim, dirty)] + (if dirty then [WriteBack(victim)] else []);
      assert s.trace == ejected + tail;
      WriteBacksAppend(ejected, tail);
      assert ejected[1..] == (if dirty then [WriteBack(victim)] else []);
      if dirty {
        assert ejected[1..][1..] == [];
      }
      assert s.trace[0] in s.trace;
    }
  }

  /**
   * A read answers the frame its page now occupies; it faults exactly when the
   * page was absent. Without a fault it is a TLB hit that changes nothing and
   * prints the full address.
   */
  lemma ReadResolves(m: Machine, addr: Addr)
    requires Invariant(m)
    ensures var va := Split(addr);
      var s := Read(m, addr);
      && Invariant(s.next)
      && s.frame < MAX_PHYSICAL_PAGES && s.next.physicalMem[s.frame] == va.vpn
      && s.next.pageTable[va.vpn].present && s.next.pageTable[va.vpn].pfn == s.frame
      && (s.faulted <==> !m.pageTable[va.vpn].present)
      && (!s.faulted ==> s.next == m && s.trace == [ReadRequest(addr), Translated(va.vpn, addr, s.frame, Plain)])
  {
    var va := Split(addr);
    TlbMirrorsPageTable(m, va.vpn);
    TranslateOutcomes(m, va, false);
    ReadPreservesInvariant(m, addr);
  }

  /** The miss paths of a read and a write of an absent page, unfolded: a page fault and a swap. */
  lemma MissPaths(m: Machine, addr: Addr)
    requires Invariant(m) && !m.pageTable[Split(addr).vpn].present
    ensures var va := Split(addr);
      var r := Swap(m, va, false);
      var w := Swap(m, va, true);
      && w.next == r.next
      && Read(m, addr) == Step(r.next, [ReadRequest(addr), PageFault(va.vpn, addr)] + r.trace, m.cursor, true)
      && Write(m, addr) ==
           Step(r.next.(pageTable := r.next.pageTable[va.vpn := r.next.pageTable[va.vpn].(dirty := true)]),
                [WriteRequest(addr), PageFault(va.vpn, addr)] + w.trace, m.cursor, true)
  {
    TlbMirrorsPageTable(m, Split(addr).vpn);
  }

  /**
   * A read of an absent page prints the fault and the swap into the frame
   * under the cursor, and, like every read, sets no dirty bit.
   */
  lemma ReadFault(m: Machine, addr: Addr)
    requires Invariant(m) && !m.pageTable[Split(addr).vpn].present
    ensures var va := Split(addr);
      var s := Read(m, addr);
      && s.faulted && s.frame == m.cursor
      && s.trace[1] == PageFault(va.vpn, addr)
      && s.trace[|s.trace| - 1] == SwapIn(va.vpn, va.offset, s.frame, false)
      && (forall v :: 0 <= v < TOTAL_SUPPORTED_PAGES && s.next.pageTable[v].dirty ==> m.pageTable[v].dirty)
  {
    MissPaths(m, addr);
    EvictionTrace(m, Split(addr), false);
  }

  /**
   * A write resolves its page exactly as a read would, and then marks it
   * dirty; no other page becomes dirty.
   */
  lemma WriteIsReadThenDirty(m: Machine, addr: Addr)
    requires Invariant(m)
    ensures var va := Split(addr);
      var r := Read(m, addr);
      var s := Write(m, addr);
      && Invariant(s.next)
      && s.frame == r.frame && s.faulted == r.faulted
      && s.next == r.next.(pageTable := r.next.pageTable[va.vpn := r.next.pageTable[va.vpn].(dirty := true)])
      && s.next.pageTable[va.vpn].dirty
      && (forall v :: 0 <= v < TOTAL_SUPPORTED_PAGES && v != va.vpn && s.next.pageTable[v].dirty ==> m.pageTable[v].dirty)
  {
    var va := Split(addr);
    assert Invariant(Write(m, addr).next) by {
      WritePreservesInvariant(m, addr);
    }
    if m.pageTable[va.vpn].present {
      WriteHitIsReadThenDirty(m, addr);
    } else {
      WriteMissIsReadThenDirty(m, addr);
    }
  }

  /** The hit case of `WriteIsReadThenDirty`: both answer from the TLB. */
  lemma WriteHitIsReadThenDirty(m: Machine, addr: Addr)
    requires Invariant(m) && m.pageTable[Split(addr).vpn].present
    ensures var va := Split(addr);
      var r := Read(m, addr);
      var s := Write(m, addr);
      && s.frame == r.frame && s.faulted == r.faulted
      && s.next == r.next.(pageTable := r.next.pageTable[va.vpn := r.next.pageTable[va.vpn].(dirty := true)])
      && (forall v :: 0 <= v < TOTAL_SUPPORTED_PAGES && v != va.vpn && s.next.pageTable[v].dirty ==> m.pageTable[v].dirty)
  {
    TlbMirrorsPageTable(m, Split(addr).vpn);
  }

  /** The fault case of `WriteIsReadThenDirty`: both end in the same swap. */
  lemma WriteMissIsReadThenDirty(m: Machine, addr: Addr)
    requires Invariant(m) && !m.pageTable[Split(addr).vpn].present
    ensures var va := Split(addr);
      var r := Read(m, addr);
      var s := Write(m, addr);
      && s.frame == r.frame && s.faulted == r.faulted
      && s.next == r.next.(pageTable := r.next.pageTable[va.vpn := r.next.pageTable[va.vpn].(dirty := true)])
      && (forall v :: 0 <= v < TOTAL_SUPPORTED_PAGES && v != va.vpn && s.next.pageTable[v].dirty ==> m.pageTable[v].dirty)
  {
    var va := Split(addr);
    MissPaths(m, addr);
    EvictionTrace(m, va, false);
  }

  /**
   * What a write prints: a TLB hit prints the full address and the note chosen
   * by the dirty bit before the write; a fault prints the swap-in as newly dirty.
   */
  lemma WriteTrace(m: Machine, addr: Addr)
    requires Invariant(m)
    ensures var va := Split(addr);
      var s := Write(m, addr);
      && (s.faulted <==> !m.pageTable[va.vpn].present)
      && (!s.faulted ==>
            s.trace == [WriteRequest(addr), Translated(va.vpn, addr, s.frame, WriteMark(m.pageTable[va.vpn].dirty))])
      && (s.faulted ==>
            && s.trace[1] == PageFault(va.vpn, addr)
            && s.trace[|s.trace| - 1] == SwapIn(va.vpn, va.offset, s.frame, true))
  {
    var va := Split(addr);
    if m.pageTable[va.vpn].present {
      TlbMirrorsPageTable(m, va.vpn);
    } else {
      MissPaths(m, addr);
      EvictionTrace(m, va, true);
    }
  }

  /**
   * Accesses to a present, dirty page: a read hits the TLB and changes
   * nothing, and a write hits too, reports a repeat write and changes nothing;
   * both answer the page's frame.
   */
  lemma DirtyPageHits(m: Machine, b: Addr, c: Addr)
    requires Invariant(m) && Split(c).vpn == Split(b).vpn
    requires m.pageTable[Split(b).vpn].present && m.pageTable[Split(b).vpn].dirty
    ensures var vpn := Split(b).vpn;
      var f := m.pageTable[vpn].pfn;
      && Read(m, b) == Step(m, [ReadRequest(b), Translated(vpn, b, f, Plain)], f, false)
      && Write(m, c) == Step(m, [WriteRequest(c), Translated(vpn, c, f, RepeatWrite)], f, false)
  {
    var vpn := Split(b).vpn;
    TlbMirrorsPageTable(m, vpn);
    assert m.pageTable[vpn := m.pageTable[vpn].(dirty := true)] == m.pageTable;
  }

  /**
   * Writing the same page twice: the second write always hits the TLB,
   * answers the same frame, changes nothing and prints the repeat-write note.
   */
  lemma RepeatedWrite(m: Machine, a: Addr, c: Addr)
    requires Invariant(m) && Split(c).vpn == Split(a).vpn
    ensures var first := Write(m, a);
      var second := Write(first.next, c);
      && !second.faulted && second.next == first.next && second.frame == first.frame
      && second.trace == [WriteRequest(c), Translated(Split(a).vpn, c, first.frame, RepeatWrite)]
  {
    WriteIsReadThenDirty(m, a);
    ReadResolves(m, a);
    DirtyPageHits(Write(m, a).next, a, c);
  }

  /**
   * Write, read, write on one page: the read hits the TLB and changes
   * nothing, and the second write hits too, answers the same frame, reports a
   * repeat write and leaves the page dirty; nothing is evicted after the first write.
   */
  lemma WriteReadWrite(m: Machine, a: Addr, b: Addr, c: Addr)
    requires Invariant(m) && Split(b).vpn == Split(a).vpn && Split(c).vpn == Split(a).vpn
    ensures var vpn := Split(a).vpn;
      var w1 := Write(m, a);
      var r := Read(w1.next, b);
      var w2 := Write(r.next, c);
      && !r.faulted && r.next == w1.next && r.frame == w1.frame
      && r.trace == [ReadRequest(b), Translated(vpn, b, w1.frame, Plain)]
      && !w2.faulted && w2.next == w1.next && w2.frame == w1.frame
      && w2.trace == [WriteRequest(c), Translated(vpn, c, w1.frame, RepeatWrite)]
      && w2.next.pageTable[vpn].dirty
  {
    WriteIsReadThenDirty(m, a);
    ReadResolves(m, a);
    DirtyPageHits(Write(m, a).next, b, c);
  }

  /**
   * What an operation does to the frame pool: a fault puts the page into the
   * frame under the cursor and advances the cursor, ejecting the resident page
   * if there is one; anything else leaves pool and cursor alone.
   */
  lemma FrameEffect(m: Machine, op: Op)
    requires Invariant(m)
    ensures var s := Exec(m, op);
      var victim := m.physicalMem[m.cursor];
      && (!s.faulted ==> s.next.physicalMem == m.physicalMem && s.next.cursor == m.cursor)
      && (s.faulted ==>
            && (op.ReadOp? || op.WriteOp?)
            && s.frame == m.cursor
            && s.next.physicalMem == m.physicalMem[m.cursor := Split(op.addr).vpn]
            && s.next.cursor == NextSlot(m.cursor)
            && (victim != EMPTY ==> Eject(victim, m.pageTable[victim].dirty) in s.trace && !s.next.pageTable[victim].present)
            && (victim == EMPTY ==> forall e :: e in s.trace ==> !e.Eject?))
  {
    match op
    case DumpMmu =>
    case DumpPageTable =>
    case ReadOp(a) => ReadFrameEffect(m, a);
    case WriteOp(a) =>
      ReadFrameEffect(m, a);
      WriteIsReadThenDirty(m, a);
      WriteEjects(m, a);
  }

  lemma ReadFrameEffect(m: Machine, addr: Addr)
    requires Invariant(m)
    ensures var s := Read(m, addr);
      var victim := m.physicalMem[m.cursor];
      && (!s.faulted ==> s.next == m)
      && (s.faulted ==>
            && s.frame == m.cursor
            && s.next.physicalMem == m.physicalMem[m.cursor := Split(addr).vpn]
            && s.next.cursor == NextSlot(m.cursor)
            && (victim != EMPTY ==> Eject(victim, m.pageTable[victim].dirty) in s.trace && !s.next.pageTable[victim].present)
            && (victim == EMPTY ==> forall e :: e in s.trace ==> !e.Eject?))
  {
    var va := Split(addr);
    if m.pageTable[va.vpn].present {
      TlbMirrorsPageTable(m, va.vpn);
    } else {
      var w := Swap(m, va, false);
      var victim := m.physicalMem[m.cursor];
      assert Read(m, addr) == Step(w.next, [ReadRequest(addr), PageFault(va.vpn, addr)] + w.trace, m.cursor, true) by {
        MissPaths(m, addr);
      }
      assert && (victim != EMPTY ==> w.trace[0] == Eject(victim, m.pageTable[victim].dirty) && !w.next.pageTable[victim].present)
             && (victim == EMPTY ==> forall e :: e in w.trace ==> !e.Eject?) by {
        EvictionTrace(m, va, false);
      }
      if victim != EMPTY {
        assert w.trace[0] in Read(m, addr).trace;
      }
    }
  }

  lemma WriteEjects(m: Machine, addr: Addr)
    requires Invariant(m)
    ensures var s := Write(m, addr);
      var victim := m.physicalMem[m.cursor];
      s.faulted ==>
        && (victim != EMPTY ==> Eject(victim, m.pageTable[victim].dirty) in s.trace)
        && (victim == EMPTY ==> forall e :: e in s.trace ==> !e.Eject?)
  {
    var va := Split(addr);
    if m.pageTable[va.vpn].present {
      TlbMirrorsPageTable(m, va.vpn);
    } else {
      MissPaths(m, addr);
      EvictionTrace(m, va, true);
      var w := Swap(m, va, true);
      if m.physicalMem[m.cursor] != EMPTY {
        assert w.trace[0] in Write(m, addr).trace;
      }
    }
  }
}
