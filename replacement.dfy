/**
 * First-in-first-out replacement: the frame pool always holds the last eight
 * pages faulted in, at the position their arrival number modulo eight names,
 * and a fault evicts the page that arrived eight faults earlier.
 */
module Replacement {
  import opened Arch
  import opened Trace
  import opened Paging
  import opened Invariants
  import opened Accesses

  /**
   * The frame pool and cursor after the pages h were faulted in, in this
   * order: the cursor is the arrival count modulo eight, the most recent
   * arrivals sit at their arrival number modulo eight, and frames never
   * reached are still empty.
   */
  predicate Arrivals(mem: seq<int>, cursor: nat, h: seq<nat>)
  {
    && |mem| == MAX_PHYSICAL_PAGES
    && cursor == |h| % MAX_PHYSICAL_PAGES
    && (forall i :: 0 <= i < |h| && |h| - MAX_PHYSICAL_PAGES <= i ==> mem[i % MAX_PHYSICAL_PAGES] == h[i])
    && (forall f :: |h| <= f < MAX_PHYSICAL_PAGES ==> mem[f] == EMPTY)
  }

  /** Two positions fewer than eight apart fall in different frames. */
  lemma NearbyDiffer(i: nat, n: nat)
    requires i < n < i + MAX_PHYSICAL_PAGES
    ensures i % MAX_PHYSICAL_PAGES != n % MAX_PHYSICAL_PAGES
  {
    var d := n - i;
    assert n == i + d && 0 < d < MAX_PHYSICAL_PAGES;
    assert (i % MAX_PHYSICAL_PAGES + d) % MAX_PHYSICAL_PAGES == n % MAX_PHYSICAL_PAGES;
  }

  /** The slot of arrival n, of the one after it, and of the one eight before it. */
  lemma SlotArithmetic(n: nat)
    ensures NextSlot(n % MAX_PHYSICAL_PAGES) == (n + 1) % MAX_PHYSICAL_PAGES
    ensures n >= MAX_PHYSICAL_PAGES ==> (n - MAX_PHYSICAL_PAGES) % MAX_PHYSICAL_PAGES == n % MAX_PHYSICAL_PAGES
    ensures n < MAX_PHYSICAL_PAGES ==> n % MAX_PHYSICAL_PAGES == n
  {
  }

  /**
   * The slot under the cursor holds the page that arrived eight faults ago,
   * or is empty during the first eight faults; installing page v there and
   * advancing the cursor records v as the newest arrival.
   */
  lemma ArrivalStep(mem: seq<int>, cursor: nat, h: seq<nat>, v: nat)
    requires Arrivals(mem, cursor, h)
    ensures cursor < MAX_PHYSICAL_PAGES
    ensures mem[cursor] == if |h| >= MAX_PHYSICAL_PAGES then h[|h| - MAX_PHYSICAL_PAGES] else EMPTY
    ensures Arrivals(mem[cursor := v], NextSlot(cursor), h + [v])
  {
    var n := |h|;
    SlotArithmetic(n);
    var mem', h' := mem[cursor := v], h + [v];
    forall i | 0 <= i < |h'| && |h'| - MAX_PHYSICAL_PAGES <= i
      ensures mem'[i % MAX_PHYSICAL_PAGES] == h'[i]
    {
      if i < n {
        NearbyDiffer(i, n);
        assert h'[i] == h[i] && mem'[i % MAX_PHYSICAL_PAGES] == mem[i % MAX_PHYSICAL_PAGES];
      } else {
        assert i % MAX_PHYSICAL_PAGES == cursor;
      }
    }
    forall f | |h'| <= f < MAX_PHYSICAL_PAGES
      ensures mem'[f] == EMPTY
    {
      assert cursor == n && f != cursor;
    }
  }

  /** A step of the engine extends the arrival record by the page it faulted in, if any. */
  lemma ExecArrivals(m: Machine, op: Op, h: seq<nat>)
    requires Invariant(m) && Arrivals(m.physicalMem, m.cursor, h)
    ensures Arrivals(Exec(m, op).next.physicalMem, Exec(m, op).next.cursor, h + Installed(op, Exec(m, op)))
  {
    FrameEffect(m, op);
    if Exec(m, op).faulted {
      ArrivalStep(m.physicalMem, m.cursor, h, Split(op.addr).vpn);
    } else {
      assert h + Installed(op, Exec(m, op)) == h;
    }
  }

  /**
   * A fault evicts the page that arrived eight faults earlier, printing its
   * ejection and leaving it absent; during the first eight faults it ejects
   * nothing.
   */
  lemma FaultEvictsOldest(m: Machine, op: Op, h: seq<nat>)
    requires Invariant(m) && Arrivals(m.physicalMem, m.cursor, h)
    ensures var s := Exec(m, op);
      s.faulted ==>
        && s.frame == |h| % MAX_PHYSICAL_PAGES
        && (|h| >= MAX_PHYSICAL_PAGES ==>
              var oldest := h[|h| - MAX_PHYSICAL_PAGES];
              Eject(oldest, m.pageTable[oldest].dirty) in s.trace && !s.next.pageTable[oldest].present)
        && (|h| < MAX_PHYSICAL_PAGES ==> forall e :: e in s.trace ==> !e.Eject?)
  {
    FrameEffect(m, op);
    if Exec(m, op).faulted {
      ArrivalStep(m.physicalMem, m.cursor, h, Split(op.addr).vpn);
    }
  }

  /** Over a whole run, the arrival record is the sequence of pages faulted in. */
  lemma {:induction false} RunArrivals(m: Machine, ops: seq<Op>, h: seq<nat>)
    requires Invariant(m) && Arrivals(m.physicalMem, m.cursor, h)
    ensures Arrivals(RunOps(m, ops).final.physicalMem, RunOps(m, ops).final.cursor, h + RunOps(m, ops).installs)
    decreases |ops|
  {
    if ops == [] {
      assert h + RunOps(m, ops).installs == h;
    } else {
      var s := Exec(m, ops[0]);
      var rest := RunOps(s.next, ops[1..]);
      var h' := h + Installed(ops[0], s);
      assert RunOps(m, ops).final == rest.final && h + RunOps(m, ops).installs == h' + rest.installs by {
        assert RunOps(m, ops) == Run(rest.final, s.trace + rest.trace, Installed(ops[0], s) + rest.installs);
      }
      assert Invariant(s.next) && Arrivals(s.next.physicalMem, s.next.cursor, h') by {
        ExecArrivals(m, ops[0], h);
        ExecPreservesInvariant(m, ops[0]);
      }
      RunArrivals(s.next, ops[1..], h');
    }
  }

  /**
   * From construction, the frame pool holds the last eight pages faulted in,
   * oldest under the cursor, and no more than eight pages are present.
   */
  lemma FifoFromStart(ops: seq<Op>)
    ensures var r := RunOps(Init(), ops);
      && Invariant(r.final)
      && Arrivals(r.final.physicalMem, r.final.cursor, r.installs)
      && |PresentPages(r.final)| <= MAX_PHYSICAL_PAGES
  {
    InitInvariant();
    RunPreservesInvariant(Init(), ops);
    RunArrivals(Init(), ops, []);
    assert [] + RunOps(Init(), ops).installs == RunOps(Init(), ops).installs;
    CapacityBound(RunOps(Init(), ops).final);
  }
}
