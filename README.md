# MMU simulator: address-translation engine

A model of the translation and eviction engine of a small MMU simulator
(`main.cpp`). The simulated machine has 2048-byte pages, a 32-page virtual
address space (16-bit addresses) and 8 physical frames. Its engine has three
parts:

- a TLB: 8 rows of (in use, VPN, PFN) and a circular write cursor;
- a page table of 32 entries (dirty, present, PFN);
- a frame pool of 8 slots, each holding -1 or the VPN resident there, with a
  FIFO cursor.

Each read or write looks in the TLB first and then in the page table. A page
fault evicts the frame under the FIFO cursor. The evicted page is written back
if it is dirty. The new page is then installed in the page table, the frame
pool and the TLB.

How the model is built:

- `arch.dfy`: the constants, and the split of an address into page number and
  offset.
- `trace.dfy`: the lines the program prints, as a sequence of structured
  events.
- `tlb.dfy`: the TLB twice over. Pure functions give the meaning of a lookup
  and an install on the rows. Class `TLB` keeps its rows in an array and
  updates them in place, with its cursor and its read-and-clear `cacheError`
  flag. Its methods are proved to compute those functions.
- `paging.dfy`: the whole engine state as a value, `Machine`. The functions
  `Swap`, `Translate`, `Read`, `Write` and `Exec` each return the new state,
  the events, the frame and the paging flag. The paging flag becomes the
  returned `faulted` tag. Also here: the page-table dump, and the invariants.
  `Consistent` says the frame pool, the page table and the TLB agree.
  `Lockstep` says TLB row i always describes frame i.
- `mmu.dfy`: class `MMU`, with its arrays, its cursor and the `TLB` it owns.
  Every method is proved to change the state exactly as the matching function
  in `paging.dfy` says, and to return the same events.
- `invariants.dfy`, `accesses.dfy`, `replacement.dfy`: what the engine
  guarantees.
  - The invariant holds from construction on.
  - A TLB hit always names the frame that really holds the page.
  - At most 8 pages are present.
  - Dirty and clean victims are evicted differently.
  - Reads never set a dirty bit; a write always does.
  - Replacement is first-in-first-out.
- `program.dfy`: the main loop over already-decoded commands. It stops at the
  end of the input with exit code 0, and at a malformed command with exit
  code 1.

Facts about the code that the model keeps as written:

- **Fault count.** From a fresh start, reads of 9 distinct pages fault 9
  times, because every frame starts empty. The first 8 faults fill empty
  frames and eject nothing; the 9th ejects the page of the first read
  (`Replacement.FaultEvictsOldest`).
- **Address printed on success.** A success line after a TLB hit prints the
  whole 16-bit address as "VA". A success line after a page-table hit prints
  only the offset. The model's `Translated` event carries exactly the value
  each path prints.
- **Page-table hits.** After construction the TLB mirrors the page table
  exactly (`Invariants.TlbMirrorsPageTable`). So a TLB miss is always followed
  by a page fault, and the page-table-hit branch of `readVA`/`writeVA` is
  unreachable. It is still modelled as written.
- **Dirty bits on a read fault.** A read can clear a dirty bit: the victim of a
  read fault loses its dirty bit. What never happens on a read is a dirty bit
  being set (`Accesses.ReadFault`).

## Model

| member | source | states |
|---|---|---|
| Arch.Split | main.cpp:51-64 | an address splits into a page number below 32 and an offset below 2048, and page number * 2048 + offset gives the address back |
| Arch.SplitValue | main.cpp:22-39 | every pair of a page number below 32 and an offset below 2048 is a 16-bit address, and splitting that address returns the pair |
| Arch.NextSlot | main.cpp:202-208 | the increment-then-reset cursor step is (c + 1) mod 8 and stays below 8 |
| Trace.WriteMark | main.cpp:471 | a write's success line always carries a dirty note: "repeat write" exactly when the page was already dirty, "newly dirty" otherwise (its use is stated by `Accesses.WriteTrace`) |
| Trace.WriteBacks | main.cpp:330-336 | a page is listed exactly when the trace contains a write-back of it |
| Tlb.InitTlb | main.cpp:114-120 | the new buffer has 8 rows and its cursor at 0, and every lookup in it misses |
| Tlb.FirstMatch | main.cpp:160-170 | the scan stops at the first in-use row that matches, and no earlier row matches |
| Tlb.Lookup | main.cpp:153-179 | a lookup misses exactly when no in-use row holds the page; a hit answers the frame of the first in-use row that holds it (no earlier row holds it) |
| Tlb.Install | main.cpp:181-209 | an install keeps 8 rows and keeps the cursor below 8 |
| Tlb.InstallBranches | main.cpp:181-209 | if an in-use row already holds the frame, only the first in-use row that already holds the frame changes (to the new page) and the cursor stays; otherwise the row under the cursor becomes (in use, page, frame) and the cursor moves to (cursor + 1) mod 8 |
| Tlb.InstallRewritesFrame | main.cpp:185-208 | after an install the frame is described by an in-use row naming the new page; every in-use row naming the frame names the new page; every in-use row naming another frame after the install equals the row at that index before it (the cursor branch may overwrite a row that described another frame, which then has no row); no two in-use rows share a frame |
| Tlb.TlbRows | main.cpp:122-135 | the dump has one line per slot, in index order, with that slot's status and page |
| Tlb.TLB.constructor | main.cpp:114-120 | a new TLB has 8 free rows (page 0, frame 0), its cursor at 0 and the error flag clear |
| Tlb.TLB.ReadBuffer | main.cpp:122-135 | an index inside the buffer gives that slot's dump line; any other index gives nothing |
| Tlb.TLB.GetBufferSize | main.cpp:137-141 | the buffer has 8 rows |
| Tlb.TLB.GetCacheError | main.cpp:143-151 | returns the flag and clears it, so an immediate second call returns false |
| Tlb.TLB.FetchPageBuffer | main.cpp:153-179 | leaves the rows and the cursor alone; returns the frame of the first in-use row holding the page, or 0 on a miss; raises the error flag exactly on a miss |
| Tlb.TLB.WriteToBuffer | main.cpp:181-209 | the rows and the cursor become exactly what `Tlb.Install` gives |
| Paging.Init | main.cpp:240-254 | the constructed state has sizes and ranges right, no page present or dirty, every frame empty (-1), the cursor at 0 and a fresh TLB (its invariant: `Invariants.InitInvariant`) |
| Paging.Swap | main.cpp:306-383 | keeps table, frame pool, cursor and TLB within their sizes and ranges (its effect is stated by the lemmas below) |
| Paging.Translate | main.cpp:385-416 | keeps sizes and ranges (effect: `Invariants.TranslateOutcomes`) |
| Paging.Read | main.cpp:418-462 | keeps sizes and ranges (effect: `Accesses.ReadResolves`, `Accesses.ReadFault`) |
| Paging.Write | main.cpp:464-516 | keeps sizes and ranges (effect: `Accesses.WriteIsReadThenDirty`, `Accesses.WriteTrace`) |
| Paging.PresentRows | main.cpp:276-285 | from index i on there are at most as many rows as entries left (what they list: `Paging.PresentRowsLists`) |
| Paging.PresentRowsLists | main.cpp:276-285 | from index i on, the dump rows are exactly the present entries, each with its own dirty bit and frame, in increasing page order |
| Paging.PageTableDump | main.cpp:265-292 | the dump starts with the header and has at least one more line |
| Paging.DumpListsPresentPages | main.cpp:265-292 | the dump lists every present page and only present pages, with their bits, in increasing page order; every line strictly between the header and the last line is a page-table row, and the last line is a row or the note; it ends with "no present pages" exactly when no page is present |
| Paging.Exec | main.cpp:659-680 | each dispatched command keeps sizes and ranges |
| Paging.RunOps | main.cpp:650-691 | a run of commands keeps sizes and ranges |
| Invariants.InitInvariant | main.cpp:240-254 | the constructed state (all frames -1, no page present, both cursors 0, TLB free) satisfies the invariant |
| Invariants.SwapPreservesConsistent | main.cpp:306-383 | evicting and installing an absent page keeps the frame pool and page table in agreement both ways, dirty pages present, and every in-use TLB row naming the page resident in its frame |
| Invariants.SwapPreservesLockstep | main.cpp:306-383 | a swap keeps TLB row i describing frame i, with both cursors equal while the frames fill and the TLB cursor back at 0 once they are full |
| Invariants.SwapPreservesInvariant | main.cpp:306-383 | a swap of an absent page keeps the whole invariant |
| Invariants.LookupSound | main.cpp:153-179 | a TLB hit answers a frame that holds exactly that page, and the page is present there |
| Invariants.TlbMirrorsPageTable | main.cpp:434-461 | under the invariant a lookup hits exactly when the page is present, and answers its frame |
| Invariants.TranslateOutcomes | main.cpp:385-416 | out-of-range page: nothing changes, answer 0, flag raised; present page: nothing changes, answer its frame; absent page: fault event first, the frame under the cursor, the cursor advances mod 8, the page ends present there; the invariant is kept |
| Invariants.ExecPreservesInvariant | main.cpp:659-680 | every command keeps the invariant; the dumps change nothing |
| Invariants.ReadPreservesInvariant | main.cpp:418-462 | a read keeps the invariant |
| Invariants.WritePreservesInvariant | main.cpp:464-516 | a write keeps the invariant |
| Invariants.DirtyingPresentPage | main.cpp:493-515 | setting the dirty bit of a present page keeps the invariant |
| Invariants.RunPreservesInvariant | main.cpp:650-691 | every state a run of commands reaches keeps the invariant |
| Invariants.CapacityBound | main.cpp:214-220 | no more than 8 pages are present at once |
| Accesses.EvictionTrace | main.cpp:315-372 | the whole swap trace: an occupied slot's page is ejected (the first event) and written back exactly when dirty, then the assignment to the cursor's frame and the swap-in, and no other event (2, 3 or 4 events); the victim ends absent and clean; an empty slot ejects nothing; the new page ends present in the cursor's frame and clean; no other entry changes |
| Accesses.ReadResolves | main.cpp:418-462 | a read answers the frame its page now occupies; it faults exactly when the page was absent; without a fault nothing changes and the success line carries the full address |
| Accesses.ReadFault | main.cpp:445-453 | a read of an absent page prints the fault and ends with the swap-in (not newly dirty) into the cursor's frame, and sets no dirty bit |
| Accesses.WriteIsReadThenDirty | main.cpp:464-516 | a write reaches the same state, frame and flag as a read of the same address, with the page's dirty bit then set; no other page becomes dirty |
| Accesses.WriteTrace | main.cpp:479-516 | a write faults exactly when its page is absent; a hit prints the full address and "repeat write" or "newly dirty" by the dirty bit before the write; a fault ends with a newly-dirty swap-in |
| Accesses.DirtyPageHits | main.cpp:436-443 | on a present dirty page a read and a write both hit, change nothing and answer the page's frame, and the write reports a repeat write |
| Accesses.RepeatedWrite | main.cpp:486-494 | a second write to the same page hits, changes nothing, answers the same frame and reports a repeat write |
| Accesses.WriteReadWrite | main.cpp:418-516 | write, read, write on one page: the read and the second write hit, nothing changes after the first write, the second write reports a repeat write and the page stays dirty |
| Accesses.FrameEffect | main.cpp:343-380 | only a faulting read or write touches the frame pool: the page goes into the cursor's frame, the cursor advances, a resident victim is ejected and left absent, an empty slot ejects nothing |
| Accesses.ReadFrameEffect | main.cpp:418-462 | a read that hits changes nothing; a faulting read fills the cursor's frame, advances the cursor and ejects the previous occupant if any |
| Accesses.WriteEjects | main.cpp:464-516 | a faulting write ejects the page under the cursor if there is one, and nothing otherwise |
| Replacement.ArrivalStep | main.cpp:315-380 | the slot under the cursor holds the page that arrived 8 faults earlier (or -1 before 8 faults); installing a page there and advancing records it as the newest arrival |
| Replacement.ExecArrivals | main.cpp:659-680 | each command extends the record of arrivals by the page it faulted in, if any |
| Replacement.FaultEvictsOldest | main.cpp:315-341 | the k-th fault uses frame k mod 8; it ejects the page that arrived at fault k-8 and leaves it absent; the first 8 faults eject nothing |
| Replacement.RunArrivals | main.cpp:650-691 | across a run, the frame pool and cursor match the sequence of pages faulted in |
| Replacement.FifoFromStart | main.cpp:240-254 | from construction, every reachable state keeps the invariant, holds the last 8 faulted pages in FIFO positions, and has at most 8 present pages |
| Mmu.MMU.constructor | main.cpp:240-263 | the new MMU's table, frame pool, cursor and TLB are the initial state: all frames -1, no page present, cursors 0 |
| Mmu.MMU.ReadPT | main.cpp:265-292 | returns exactly the page-table dump of the current table |
| Mmu.MMU.ReadMMU | main.cpp:294-304 | returns the header and one line per TLB slot in index order |
| Mmu.MMU.SwapPage | main.cpp:306-383 | updates the arrays, the cursor and the TLB exactly as `Paging.Swap`, returns its events and frame |
| Mmu.MMU.TranslateVA | main.cpp:385-416 | updates the state, and returns the frame, flag and events, exactly as `Paging.Translate` |
| Mmu.MMU.ReadVA | main.cpp:418-462 | updates the state and prints exactly as `Paging.Read` |
| Mmu.MMU.WriteVA | main.cpp:464-516 | updates the state and prints exactly as `Paging.Write` |
| Program.Dispatch | main.cpp:650-691 | the exit code is 0 or 1, and 1 only when the commands contain a malformed one (what it runs and prints: `Program.DispatchRunsLeadingOps`) |
| Program.LeadingOps | main.cpp:650-691 | the operations of the commands before the first end-of-input or malformed command, in order |
| Program.DispatchRunsLeadingOps | main.cpp:641-694 | the loop prints exactly the run of the commands before the first stop; exit code 1 exactly when that stop is a malformed command; the state reached keeps the invariant |
| Program.Perform | main.cpp:659-680 | each command calls the MMU method that changes the state and prints as `Paging.Exec` |
| Program.PagingProgramLoop | main.cpp:641-694 | the loop over a fresh MMU returns the exit code and the events that `Program.Dispatch` gives from the initial state |

## Left out

- `main`, `handleArgs` and opening the command file: these are operating-system input and output.
- `parseInput` and `translateJob`, the text parsing of commands with `std::stoull` and truncation to 16 bits: the loop takes already-decoded commands. A command past the last one counts as end of input. A blank last line in a real command file would decode to a malformed command; that decoding is not part of this model.
- Output formatting: the `setw` widths and the fixed words of each line. Each event carries the values its line prints, in print order.
- The architecture banner the constructor prints: it carries no state.
- The union/bitfield layout of `VRT_Address` and `_VA`: the split is arithmetic. The PTE's 3-bit `pfn` field is an unbounded number here. Under the invariant it is always below 8, so no truncation arises.
- The unused PTE fields `referenced`, `valid` and `rw`, and the contents of physical memory (only which page occupies each frame is tracked).
- The `pagingFlag` field: it becomes the `faulted` result of a translation. In the source it is set by `translateVA` and cleared by its caller straight away, so between operations it is always false.
- Paging.Swap: its own contract states only sizes and ranges; its effect is stated by `Accesses.EvictionTrace` (the whole printed sequence and the page-table changes), `Invariants.TranslateOutcomes` (frame pool and cursor) and `Mmu.MMU.SwapPage`.
- Paging.Translate: its own contract states only sizes and ranges; its effect is stated by `Invariants.TranslateOutcomes`.
- Paging.Read: its own contract states only sizes and ranges; its effect is stated by `Accesses.ReadResolves` and `Accesses.ReadFault`.
- Paging.Write: its own contract states only sizes and ranges; its effect is stated by `Accesses.WriteIsReadThenDirty` and `Accesses.WriteTrace`.
- Paging.Exec: its own contract states only sizes and ranges; its effect is stated by `Invariants.ExecPreservesInvariant` and `Accesses.FrameEffect`.
- Paging.RunOps: its own contract states only sizes and ranges; its effect is stated by `Invariants.RunPreservesInvariant` and `Replacement.RunArrivals`.
- Paging.PageTableDump: its own contract states only the header; the listing is stated by `Paging.DumpListsPresentPages`.
- Tlb.Install: its own contract states only sizes; the branches are stated by `Tlb.InstallBranches` and `Tlb.InstallRewritesFrame`.
