/**
 * The structured form of the simulator's trace: one event per line it prints.
 * Only the content and the order of the lines are modelled, not their text.
 */
module Trace {
  /** The annotation a successful translation carries: none (reads), or the dirty-bit note of a write. */
  datatype Mark = Plain | NewlyDirty | RepeatWrite

  datatype Event =
    | ReadRequest(addr: nat)                                   // "Read <addr>"
    | WriteRequest(addr: nat)                                  // "Write <addr>"
    | PageFault(vpn: nat, va: nat)                             // "... PAGE FAULT"
    | Eject(vpn: nat, dirty: bool)                             // "... SELECTED TO EJECT [DIRTY]"
    | WriteBack(vpn: nat)                                      // "... WRITING BACK"
    | Assign(vpn: nat, offset: nat, pfn: nat)                  // "... ASSIGNING TO PFN"
    | SwapIn(vpn: nat, offset: nat, pfn: nat, newlyDirty: bool) // "... SWAPPING IN TO PFN [NEWLY DIRTY]"
    | Translated(vpn: nat, va: nat, pfn: nat, mark: Mark)      // "... SUCCESSFUL TRANSLATION TO PFN"
    | MmuHeader                                                // "MMU:"
    | TlbRow(index: nat, inUse: bool, vpn: nat)                // "[i] FREE|USED VPN: v"
    | PageTableHeader                                          // "PAGE TABLE:"
    | PageTableRow(vpn: nat, dirty: bool, pfn: nat)            // "[v] CLEAN|DIRTY PRES IN PFN: f"
    | NoPresentPages                                           // "No present pages"

  /** The dirty-bit note a write prints, chosen by the page's dirty bit before the write. */
  function WriteMark(dirty: bool): (mark: Mark)
    ensures mark != Plain
    ensures mark == RepeatWrite <==> dirty
  {
    if dirty then RepeatWrite else NewlyDirty
  }

  /** The VPNs written back, in trace order. */
  function WriteBacks(trace: seq<Event>): (r: seq<nat>)
    ensures |r| <= |trace|
    ensures forall v :: v in r <==> WriteBack(v) in trace
  {
    if trace == [] then []
    else (if trace[0].WriteBack? then [trace[0].vpn] else []) + WriteBacks(trace[1..])
  }

  /** Write-backs of consecutive stretches of a trace concatenate. */
  lemma {:induction false} WriteBacksAppend(a: seq<Event>, b: seq<Event>)
    ensures WriteBacks(a + b) == WriteBacks(a) + WriteBacks(b)
    decreases |a|
  {
    if a != [] {
      assert (a + b)[1..] == a[1..] + b;
      WriteBacksAppend(a[1..], b);
    } else {
      assert a + b == b;
    }
  }
}
