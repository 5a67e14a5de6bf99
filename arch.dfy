/**
 * The simulated machine's architecture: 2048-byte pages (11 offset bits),
 * a 32-page virtual address space (5 VPN bits, 16-bit addresses) and
 * 8 physical frames (3 PFN bits).
 */
module Arch {
  const PAGE_SIZE: nat := 2048        // 2^11: 11 offset bits
  const VA_SIZE: nat := 65536         // 2^16: 5 VPN bits and 11 offset bits

  /** Number of frames in the frame pool and of rows in the TLB: 2^3, 3 PFN bits. */
  const MAX_PHYSICAL_PAGES: nat := 8
  /** Number of page-table entries: 2^5, 5 VPN bits. */
  const TOTAL_SUPPORTED_PAGES: nat := 32

  /** A 16-bit virtual address, as the commands carry it. */
  type Addr = a: nat | a < VA_SIZE

  /** A virtual address split into its page number and its offset in the page. */
  datatype VirtualAddress = VirtualAddress(vpn: nat, offset: nat)
  {
    /** The address the two fields stand for. */
    function Value(): nat
    {
      vpn * PAGE_SIZE + offset
    }
  }

  /** The VPN is the high 5 bits of a 16-bit address, the offset the low 11 bits. */
  function Split(addr: Addr): (va: VirtualAddress)
    ensures va.vpn < TOTAL_SUPPORTED_PAGES
    ensures va.offset < PAGE_SIZE
    ensures va.Value() == addr
  {
    VirtualAddress(addr / PAGE_SIZE, addr % PAGE_SIZE)
  }

  /** Every in-range (vpn, offset) pair is a 16-bit address, and splitting it gives the pair back. */
  lemma SplitValue(va: VirtualAddress)
    requires va.vpn < TOTAL_SUPPORTED_PAGES && va.offset < PAGE_SIZE
    ensures va.Value() < VA_SIZE
    ensures Split(va.Value()) == va
  {
    var a := va.Value();
    assert a == va.vpn * PAGE_SIZE + va.offset;
    assert a < VA_SIZE;
  }

  /** The circular cursor step shared by the TLB and the frame pool: increment, then reset to 0 at the capacity. */
  function NextSlot(c: nat): (r: nat)
    requires c < MAX_PHYSICAL_PAGES
    ensures r < MAX_PHYSICAL_PAGES
    ensures r == (c + 1) % MAX_PHYSICAL_PAGES
  {
    if c + 1 >= MAX_PHYSICAL_PAGES then 0 else c + 1
  }
}
