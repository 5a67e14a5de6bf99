/**
 * The engine's invariants: the frame pool, the page table and the TLB agree
 * in every state reached from construction, and what follows from that.
 */
module Invariants {
  import opened Wrappers
  import opened Arch
  import opened Trace
  import opened Tlb
  import opened Paging

  /** The constructed state satisfies the invariant. */
  lemma InitInvariant()
    ensures Invariant(Init())
  {
    var m := Init();
    assert Lockstep(m) by {
      assert forall f :: 0 <= f < MAX_PHYSICAL_PAGES ==> m.physicalMem[f] == EMPTY && !m.tlb.rows[f].inUse;
    }
  }

  /** A page fault for an absent page keeps the frame pool, the page table and the TLB consistent. */
  lemma SwapPreservesConsistent(m: Machine, va: VirtualAddress, write: bool)
    requires Consistent(m) && va.vpn < TOTAL_SUPPORTED_PAGES && !m.pageTable[va.vpn].present
    ensures Consistent(Swap(m, va, write).next)
  {
    var n := Swap(m, va, write).next;
    var c, v := m.cursor, va.vpn;
    var victim := m.physicalMem[c];
    InstallRewritesFrame(m.tlb, c, v);
    forall f | 0 <= f < MAX_PHYSICAL_PAGES && n.physicalMem[f] != EMPTY
      ensures n.pageTable[n.physicalMem[f]].present && n.pageTable[n.physicalMem[f]].pfn == f
    {
      if f != c {
        var u := m.physicalMem[f];
        assert m.pageTable[u].pfn == f;
      }
    }
    forall u | 0 <= u < TOTAL_SUPPORTED_PAGES && n.pageTable[u].present
      ensures n.pageTable[u].pfn < MAX_PHYSICAL_PAGES && n.physicalMem[n.pageTable[u].pfn] == u
    {
      if u != v {
        assert u != victim;
        assert m.pageTable[u].present;
      }
    }
    forall i | 0 <= i < MAX_PHYSICAL_PAGES && n.tlb.rows[i].inUse
      ensures n.tlb.rows[i].pfn < MAX_PHYSICAL_PAGES && n.physicalMem[n.tlb.rows[i].pfn] == n.tlb.rows[i].vpn
    {
      if n.tlb.rows[i].pfn != c {
        assert n.tlb.rows[i] == m.tlb.rows[i];
      }
    }
  }

  /** A page fault keeps the TLB and the frame pool filling in lockstep. */
  lemma SwapPreservesLockstep(m: Machine, va: VirtualAddress, write: bool)
    requires Shape(m) && Lockstep(m) && va.vpn < TOTAL_SUPPORTED_PAGES
    ensures Lockstep(Swap(m, va, write).next)
  {
    var n := Swap(m, va, write).next;
    var c := m.cursor;
    if m.physicalMem[c] == EMPTY {
      // still filling: no in-use row holds frame c, so the row under the cursor (row c) is written
      assert m.tlb.cursor == c;
      assert FirstMatch(m.tlb.rows, ByPfn(c)) == MAX_PHYSICAL_PAGES;
      assert n.tlb.rows == m.tlb.rows[c := Row(true, va.vpn, c)];
      if c + 1 < MAX_PHYSICAL_PAGES {
        assert n.cursor == c + 1 && n.tlb.cursor == c + 1;
      } else {
        assert n.cursor == 0 && n.tlb.cursor == 0;
      }
    } else {
      // full: row c is the in-use row for frame c, and only its VPN changes
      assert m.tlb.cursor == 0;
      assert FirstMatch(m.tlb.rows, ByPfn(c)) == c;
      assert n.tlb.rows == m.tlb.rows[c := m.tlb.rows[c].(vpn := va.vpn)];
    }
  }

  lemma SwapPreservesInvariant(m: Machine, va: VirtualAddress, write: bool)
    requires Invariant(m) && va.vpn < TOTAL_SUPPORTED_PAGES && !m.pageTable[va.vpn].present
    ensures Invariant(Swap(m, va, write).next)
  {
    SwapPreservesConsistent(m, va, write);
    SwapPreservesLockstep(m, va, write);
  }

  /**
   * A TLB hit is never stale: the frame it answers holds exactly the queried
   * page, which the page table has present in that frame.
   */
  lemma LookupSound(m: Machine, vpn: nat)
    requires Consistent(m)
    ensures Lookup(m.tlb.rows, vpn).Some? ==>
      var f := Lookup(m.tlb.rows, vpn).value;
      && f < MAX_PHYSICAL_PAGES && m.physicalMem[f] == vpn
      && vpn < TOTAL_SUPPORTED_PAGES && m.pageTable[vpn].present && m.pageTable[vpn].pfn == f
  {
    if Lookup(m.tlb.rows, vpn).Some? {
      var i :| 0 <= i < |m.tlb.rows| && Matches(m.tlb.rows[i], ByVpn(vpn)) && m.tlb.rows[i].pfn == Lookup(m.tlb.rows, vpn).value;
      assert m.physicalMem[m.tlb.rows[i].pfn] == vpn;
    }
  }

  /**
   * In every reachable state the TLB mirrors the page table exactly: a lookup
   * hits if and only if the page is present, and then answers its frame. So
   * after a TLB miss the page-table lookup always faults.
   */
  lemma TlbMirrorsPageTable(m: Machine, vpn: nat)
    requires Invariant(m) && vpn < TOTAL_SUPPORTED_PAGES
    ensures Lookup(m.tlb.rows, vpn) == if m.pageTable[vpn].present then Some(m.pageTable[vpn].pfn) else None
  {
    LookupSound(m, vpn);
    if m.pageTable[vpn].present {
      var f := m.pageTable[vpn].pfn;
      assert m.physicalMem[f] != EMPTY;
      assert m.tlb.rows[f].inUse && m.tlb.rows[f].pfn == f;
      assert Matches(m.tlb.rows[f], ByVpn(vpn));
    }
  }

  /**
   * The three outcomes of a page-table translation: an out-of-range page number
   * changes nothing and answers 0 with the flag raised; a present page answers
   * its frame and changes nothing; only an absent page faults, and then the page
   * is present in the frame under the cursor, which advances.
   */
  lemma TranslateOutcomes(m: Machine, va: VirtualAddress, write: bool)
    requires Invariant(m)
    ensures var s := Translate(m, va, write);
      && (va.vpn >= TOTAL_SUPPORTED_PAGES ==> s.next == m && s.frame == 0 && s.faulted && s.trace == [])
      && (va.vpn < TOTAL_SUPPORTED_PAGES ==>
            && (s.faulted <==> !m.pageTable[va.vpn].present)
            && s.next.pageTable[va.vpn].present && s.next.pageTable[va.vpn].pfn == s.frame
            && s.frame < MAX_PHYSICAL_PAGES && s.next.physicalMem[s.frame] == va.vpn
            && Invariant(s.next)
            && (!s.faulted ==> s.next == m && s.trace == [])
            && (s.faulted ==>
                  && s.trace[0] == PageFault(va.vpn, va.Value()) && s.frame == m.cursor
                  && s.next.cursor == (m.cursor + 1) % MAX_PHYSICAL_PAGES))
  {
    if va.vpn < TOTAL_SUPPORTED_PAGES && !m.pageTable[va.vpn].present {
      SwapPreservesInvariant(m, va, write);
    }
  }

  /** Reads and writes keep the invariant; a dump changes nothing. */
  lemma ExecPreservesInvariant(m: Machine, op: Op)
    requires Invariant(m)
    ensures Invariant(Exec(m, op).next)
    ensures op.DumpMmu? || op.DumpPageTable? ==> Exec(m, op).next == m && !Exec(m, op).faulted
  {
    match op
    case DumpMmu =>
    case DumpPageTable =>
    case ReadOp(a) => ReadPreservesInvariant(m, a);
    case WriteOp(a) => WritePreservesInvariant(m, a);
  }

  lemma ReadPreservesInvariant(m: Machine, addr: Addr)
    requires Invariant(m)
    ensures Invariant(Read(m, addr).next)
  {
    var va := Split(addr);
    TlbMirrorsPageTable(m, va.vpn);
    TranslateOutcomes(m, va, false);
  }

  lemma WritePreservesInvariant(m: Machine, addr: Addr)
    requires Invariant(m)
    ensures Invariant(Write(m, addr).next)
  {
    var va := Split(addr);
    var n := Write(m, addr).next;
    TlbMirrorsPageTable(m, va.vpn);
    TranslateOutcomes(m, va, true);
    var t := Translate(m, va, true);
    var base := if Lookup(m.tlb.rows, va.vpn).Some? then m else t.next;
    assert Invariant(base) && base.pageTable[va.vpn].present;
    assert n == base.(pageTable := base.pageTable[va.vpn := base.pageTable[va.vpn].(dirty := true)]);
    DirtyingPresentPage(base, va.vpn);
  }

  /** Setting the dirty bit of a present page keeps the invariant. */
  lemma DirtyingPresentPage(m: Machine, vpn: nat)
    requires Invariant(m) && vpn < TOTAL_SUPPORTED_PAGES && m.pageTable[vpn].present
    ensures Invariant(m.(pageTable := m.pageTable[vpn := m.pageTable[vpn].(dirty := true)]))
  {
  }

  /** Every state reached by a run from an invariant state satisfies the invariant. */
  lemma {:induction false} RunPreservesInvariant(m: Machine, ops: seq<Op>)
    requires Invariant(m)
    ensures Invariant(RunOps(m, ops).final)
    decreases |ops|
  {
    if ops != [] {
      ExecPreservesInvariant(m, ops[0]);
      RunPreservesInvariant(Exec(m, ops[0]).next, ops[1..]);
    }
  }

  /** The distinct values of a sequence are no more than its length. */
  lemma {:induction false} ElementsBound(s: seq<int>)
    ensures |set x | x in s| <= |s|
  {
    if s != [] {
      ElementsBound(s[1..]);
      assert (set x | x in s) == {s[0]} + (set x | x in s[1..]);
    }
  }

  /** At most as many pages are present as there are physical frames. */
  lemma CapacityBound(m: Machine)
    requires Consistent(m)
    ensures |PresentPages(m)| <= MAX_PHYSICAL_PAGES
  {
    var resident := set x | x in m.physicalMem;
    var present := PresentPages(m);
    var ints := set v: int | v in present;
    assert ints <= resident by {
      forall v | v in ints ensures v in resident {
        assert m.physicalMem[m.pageTable[v].pfn] == v;
      }
    }
    ElementsBound(m.physicalMem);
    assert |ints| == |present| by {
      assert ints == present;
    }
    SubsetBound(ints, resident);
  }

  lemma SubsetBound(a: set<int>, b: set<int>)
    requires a <= b
    ensures |a| <= |b|
  {
    assert b == a + (b - a);
  }
}
