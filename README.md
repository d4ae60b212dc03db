# A verified model of the tCore kernel's memory and bookkeeping core

tCore is a small RISC-V (Sv39) teaching kernel written in Rust, with a C
firmware. This project models, in Dafny, the parts of it that decide
things: how addresses are numbered and split, how Sv39 page tables are
walked, created and edited, how a process's address space keeps its
virtual memory areas (VMAs), how program break and `munmap` reshape them,
and the small containers and rules around them: the user-buffer iterator,
the initial user stack, the ring buffer, the block caches, the FAT and
in-memory file cursors, paths and hard links, open flags, identifier and
file-descriptor allocators, signal sets and actions, clock ids, time
addition, user-interrupt bit fields, the run queue, `clone` and `wait4`,
stack layouts, trap frames, command-line splitting and the firmware's
`mem*` routines.

Each source file is one Dafny module, in the file's own form:

- Pure code (address and range arithmetic, PTE encoding, flag conversions,
  path canonicalisation, clock ids, stack layouts) is datatypes, functions
  and lemmas.
- Code that changes state in place is a class with the source's fields.
  This covers the page tables over a modelled physical memory, `MM`, the
  lazy and fixed physical memory areas, the iterator, `InitStack`, the ring
  buffer, the caches, the file cursors, the allocators, `SigSet`, the
  user-interrupt state, the scheduler and the trap frame. Their methods
  carry `modifies` clauses and loop invariants.
- Each such method is proved against a specification function, and the
  source's promises are proved about that function.

Conventions used throughout:

- `usize` is `Addr.Usize`, a 64-bit natural.
- Where the source's arithmetic can overflow, the model follows the
  release build and wraps (`Addr.Wrap`). The exceptions are named under
  "Left out".
- Physical memory is a map from word address to 64-bit word, and page
  tables live inside it.
- Frame allocation is an abstract supply of fresh, distinct, zero-filled
  frames (`PhysMem.FrameSupply`). The buddy allocator behind it is not part
  of this model.
- A Rust panic is modelled as an explicit outcome (`Panicked`, `Underflow`,
  `Panics`) wherever the source can reach one. It is excluded by a
  precondition only where "Left out" says so.

Where the code disagrees with what its documentation or its evident
purpose promises, the model keeps both: a member that follows the code as
written (its name ends in `AsWritten`, or its row says "as written"), a
lemma or method that exhibits the discrepancy on a concrete input, and the
corrected member that the rest of the model uses. These pairs are listed
under "## Findings".

## Model

| member | source | states |
|---|---|---|
| Addr.SaturatingAdd | crates/tmm_addr/src/lib.rs:97-107 | the sum when it fits in a `usize`, otherwise `usize::MAX` |
| Addr.SaturatingSub | crates/tmm_addr/src/lib.rs:108-117 | the difference when it is not negative, otherwise 0 |
| Addr.PageOffset | crates/tmm_addr/src/lib.rs:73-75 | the offset is below `PAGE_SIZE` and is the distance from `a` down to the page boundary below it |
| Addr.AlignedIffMultiple | crates/tmm_addr/src/lib.rs:78-80 | an address is aligned exactly when it is its page number times `PAGE_SIZE` |
| Addr.AddrAdd | crates/tmm_addr/src/lib.rs:97-107 | `a + n` saturates at `usize::MAX` and the result is canonicalised |
| Addr.AddrSub | crates/tmm_addr/src/lib.rs:108-117 | `a - n` saturates at 0 and the result is canonicalised |
| Addr.AddressTestExample | crates/tmm_addr/src/test.rs:30-38 | 0 + 0x1001 has page offset 1, lies in page 1, and page 1 starts at 0x1000 |
| Addr.Ceil | crates/tmm_addr/src/lib.rs:165-170 | `ceil` gives the page containing the address (it rounds down), and the page number is at most the largest one |
| Addr.Floor | crates/tmm_addr/src/lib.rs:172-178 | `floor` gives the first page boundary at or above the address (it rounds up); in the last partial page of the address space the wrapped sum gives page 0 |
| Addr.FloorIsCeilRoundedUp | crates/tmm_addr/src/lib.rs:165-178 | `floor` equals `ceil` on aligned addresses and is one more on unaligned ones |
| Addr.PageAdd | crates/tmm_addr/src/lib.rs:212-229 | page + n is the sum, capped at the largest page number |
| Addr.PageSub | crates/tmm_addr/src/lib.rs:230-243 | page - n saturates at page 0 |
| Addr.EmptyRangeIsEmpty | crates/tmm_addr/src/lib.rs:289-293 | `empty()` is `new(1, 0)`: it contains no page and has size 0 |
| Addr.FromAddrCoversBytes | crates/tmm_addr/src/lib.rs:298-308 | with `size > 0`, `from_virt_addr(a, size)` holds exactly the pages that share a byte with `[a, a + size)` |
| Addr.FromAddrTestExample | crates/tmm_addr/src/test.rs:40-47 | 0x1002 with 0x3124 bytes spans pages 1 to 4 |
| Addr.SizeCountsPages | crates/tmm_addr/src/lib.rs:316-323 | `size_in_pages` counts the pages of the range, and is 0 exactly for an empty range |
| Addr.ContainsAddressBounds | crates/tmm_addr/src/lib.rs:332-334 | an address is in the range exactly when it lies between the start of its first page and the end of its last page |
| Addr.OffsetOfAddress | crates/tmm_addr/src/lib.rs:344-350 | `Some` exactly for contained addresses, and then the offset added to the range's start gives the address back |
| Addr.AddressAtOffsetAsWritten | crates/tmm_addr/src/lib.rs:360-367 | as written, accepts every offset up to and including `size_in_bytes` |
| Addr.AddressAtOffsetPastEnd | crates/tmm_addr/src/lib.rs:352-367 | the offset `size_in_bytes` is accepted but gives an address outside the range |
| Addr.AddressAtOffset | crates/tmm_addr/src/lib.rs:352-367 | accepts exactly the offsets below `size_in_bytes`, the bound its documentation gives |
| Addr.AddressAtOffsetInRange | crates/tmm_addr/src/lib.rs:344-367 | every accepted offset gives a contained address, and `offset_of_address` maps it back to the offset |
| Addr.ToExtended | crates/tmm_addr/src/lib.rs:371-380 | the result contains the new page and every page of the range; an empty range becomes exactly that page; the bounds come from the range or the page |
| Addr.Overlap | crates/tmm_addr/src/lib.rs:386-394 | `Some` exactly when the ranges share a page, and then it holds exactly the shared pages |
| Addr.OverlapCommutes | crates/tmm_addr/src/lib.rs:386-394 | `overlap` is commutative |
| Sv39Address.CanonicalVaIsLowOrHigh | crates/tmm_rv/src/address.rs:5-12 | a virtual address is canonical exactly when it lies in the lowest or the highest 256 GiB |
| Sv39Address.CanonicalizeVa | crates/tmm_rv/src/address.rs:19-22 | the result keeps bits 38..0 of the address and is canonical |
| Sv39Address.CanonicalizeVaFixesCanonical | crates/tmm_rv/src/address.rs:8-22 | canonicalising leaves an address unchanged exactly when it is already canonical |
| Sv39Address.CanonicalizeVaIdempotent | crates/tmm_rv/src/address.rs:19-22 | canonicalising twice is canonicalising once |
| Sv39Address.CanonicalizePa | crates/tmm_rv/src/address.rs:24-27 | the result is canonical and differs from the input only above bit 55 |
| Sv39Address.CanonicalizePaFixesCanonical | crates/tmm_rv/src/address.rs:14-27 | it fixes exactly the canonical physical addresses, and it is idempotent |
| Sv39Address.NewVirtAddr | crates/tmm_addr/src/lib.rs:49-51 | `VirtAddr::new` is `Some` exactly for canonical addresses, and holds the address unchanged |
| Sv39Address.NewPhysAddr | crates/tmm_addr/src/lib.rs:49-51 | `PhysAddr::new` is `Some` exactly for addresses below 2^56, and holds the address unchanged |
| Sv39Address.VirtAddrArithmeticIsCanonical | crates/tmm_rv/src/address.rs:29-37 | `+`, `-` and a page's start address always give a canonical virtual address |
| Sv39Address.PhysAddrArithmeticIsCanonical | crates/tmm_rv/src/address.rs:38-46 | `+`, `-` and a frame's start address always give a canonical physical address |
| Sv39Address.VpnIndexesReassemble | crates/tmm_rv/src/address.rs:54-63 | there are three indexes, each below 512, most significant first, and they reassemble the low 27 bits of the page number |
| Sv39Address.VpnIndexesInjective | crates/tmm_rv/src/address.rs:54-63 | two page numbers have the same indexes exactly when their low 27 bits agree |
| Sv39Address.SplitVpn | crates/tmm_rv/src/address.rs:55-63 | the loop fills slots 2, 1, 0 with 9-bit pieces of the shrinking page number and yields the three indexes |
| Pte.IsPointerIffNonLeaf | crates/mm-rv/src/page_table.rs:63-66 | `is_pointer` holds exactly when the low four bits read V=1, R=W=X=0, the Sv39 non-leaf rule |
| Pte.FlagsOf | crates/mm-rv/src/page_table.rs:98-101 | the flags are bits 7..0 of the entry: the entry is its upper part plus the flags |
| Pte.SetFlags | crates/mm-rv/src/page_table.rs:110-114 | afterwards the flags are the new ones, the PPN is kept, and the RSW and reserved bits are clear |
| Pte.SetPpn | crates/mm-rv/src/page_table.rs:116-121 | afterwards the PPN is the frame number truncated to 44 bits, the flags are kept, and the RSW and reserved bits are clear |
| Pte.SetFlagsThenPpn | crates/mm-rv/src/page_table.rs:110-121 | `set_flags` then `set_ppn` writes exactly `frame << 10 \| flags` |
| Pte.FrameAsWrittenIsOffByOne | crates/mm-rv/src/page_table.rs:103-108 | as written, `frame()` gives the PPN when no low bit is set, and the PPN plus one when any flag or RSW bit is set |
| Pte.FrameAsWrittenCounterexample | crates/mm-rv/src/page_table.rs:103-121 | a pointer entry set to frame 5 reads back as frame 6 |
| Pte.Frame | crates/mm-rv/src/page_table.rs:103-108 | `frame()` as intended: the PPN field, below 2^44, and the entry is that PPN shifted left by 10 plus its low bits |
| Pte.FrameOfSetPpn | crates/mm-rv/src/page_table.rs:106-121 | the intended `frame()` and `flags()` read back the frame and flags written by `set_flags` and `set_ppn` |
| Pte.FromIndexLayout | crates/mm-rv/src/page_table.rs:123-127 | entry `index` of a canonical frame is at the frame's start plus 8 times the index |
| Pte.FromIndexInjective | crates/mm-rv/src/page_table.rs:123-127 | different (frame, index) pairs give different entry addresses |
| PhysMem.SlotInItsFrame | crates/mm-rv/src/page_table.rs:123-127 | entry `i` of table `t` lies in frame `f` exactly when `t == f` |
| PhysMem.Memory.Write | crates/mm-rv/src/page_table.rs:129-132 | `PageTableEntry::write` stores one word at the address and changes no other |
| PhysMem.Memory.ZeroFrame | crates/mm-rv/src/page_table.rs:218 | every word of the frame reads 0 afterwards, and every word outside it is unchanged |
| PhysMem.FrameSupply.Alloc | crates/mm-rv/src/page_table.rs:169-218 | `AllocatedFrame::new(true)`: the next free frame, zero-filled with nothing else changed, or `None` with nothing changed when the supply is empty |
| PageTableMmRv.ExampleDescent | crates/mm-rv/src/page_table.rs:186-204 | in the example memory, indexes 0, 0 lead from the root through frame 1 to the leaf table at frame 2 |
| PageTableMmRv.ExampleWalkMapped | crates/mm-rv/src/page_table.rs:186-204 | in the example memory, page 1 walks to its leaf slot and entry |
| PageTableMmRv.ExampleWalkUnmapped | crates/mm-rv/src/page_table.rs:195-197 | in the example memory, page 2 meets an invalid leaf and the walk fails |
| PageTableMmRv.TranslateAsWrittenCounterexample | crates/mm-rv/src/page_table.rs:253-259 | for address 0x1001 of mapped page 1, the intended translation gives 0x7001; the code as written walks page 2 and fails |
| PageTableMmRv.TranslateLandsInFrame | crates/mm-rv/src/page_table.rs:253-259 | a successful translation is the leaf frame's start plus the address's page offset |
| PageTableMmRv.DescendSnoc | crates/mm-rv/src/page_table.rs:191-201 | one more index is one more step of the walk loop, and an earlier failure is kept |
| PageTableMmRv.WalkSpecIsDescent | crates/mm-rv/src/page_table.rs:186-204 | the walk succeeds exactly when all three entries on the path are valid |
| PageTableMmRv.DescendDepth | crates/mm-rv/src/page_table.rs:156-204 | through linked tables, each step reaches an owned table one level deeper |
| PageTableMmRv.DescendNext | crates/mm-rv/src/page_table.rs:191-201 | a valid entry on the path reaches the next owned table, one level deeper |
| PageTableMmRv.DescendStable | crates/mm-rv/src/page_table.rs:186-204 | a successful descent is unchanged by writes that keep every valid upper entry |
| PageTableMmRv.WriteLeafKeepsUpper | crates/mm-rv/src/page_table.rs:236-242 | writing a word into a leaf table keeps every upper entry and the links between tables |
| PageTableMmRv.WriteLeafWalk | crates/mm-rv/src/page_table.rs:236-242 | after writing `page`'s leaf slot, the walk of `page` finds the word written when it is valid, and fails otherwise |
| PageTableMmRv.ValidEntryNotZero | crates/mm-rv/src/page_table.rs:195-197 | a table holding a valid entry is not a freshly zeroed one |
| PageTableMmRv.TakeFront | crates/mm-rv/src/page_table.rs:218-224 | moving the first free frame onto the owned frames keeps the concatenation of the two lists |
| PageTableMmRv.Install | crates/mm-rv/src/page_table.rs:217-225 | with no free frame, nothing changes; otherwise the first free frame is zeroed and installed under the invalid entry with VALID only, one level deeper, and the links are kept |
| PageTableMmRv.PageTable.constructor | crates/mm-rv/src/page_table.rs:168-175 | the root is the first free frame, zeroed, and `frames` holds just the root |
| PageTableMmRv.PageTable.Satp | crates/mm-rv/src/page_table.rs:177-182 | mode 8 in bits 63..60, ASID 0, and the root frame number in bits 43..0 |
| PageTableMmRv.PageTable.Walk | crates/mm-rv/src/page_table.rs:186-204 | the loop over the three indexes returns exactly the leaf slot and entry of the walk specification, or its error |
| PageTableMmRv.PageTable.InstallTable | crates/mm-rv/src/page_table.rs:217-225 | the allocation branch of `create`: the new frame is pushed onto `frames` and recorded one level below its parent, or nothing changes when no frame is left |
| PageTableMmRv.PageTable.Advance | crates/mm-rv/src/page_table.rs:213-229 | one step of `create`: read the entry, installing a new table for an invalid one at depths 0 and 1; the step fails only when the supply is empty |
| PageTableMmRv.PageTable.Create | crates/mm-rv/src/page_table.rs:206-232 | the descent through the first two indexes succeeds and the result is the unchecked leaf slot; at most two frames are taken, from the front of the supply; the only error is an empty supply |
| PageTableMmRv.PageTable.Map | crates/mm-rv/src/page_table.rs:234-242 | after `map`, the walk of `page` finds an entry with the given flags and frame when the flags are valid, and fails when they are not; an existing leaf is overwritten; every other page whose walk succeeded before still walks to the same slot and entry |
| PageTableMmRv.PageTable.Unmap | crates/mm-rv/src/page_table.rs:244-250 | when the walk succeeds, exactly its leaf word is zeroed, otherwise nothing changes; afterwards the walk fails |
| PageTableMmRv.PageTable.Translate | crates/mm-rv/src/page_table.rs:252-259 | the result is the intended translation: the walk of the page holding `va`, then its frame's start plus the page offset |
| PageTableMmRv.NewPageTable | crates/mm-rv/src/page_table.rs:166-175 | `Err` exactly when no frame is left; otherwise a valid table whose root is the first free frame |
| PageTableMmRv.DescendErrorIsInvalidEntry | crates/mm-rv/src/page_table.rs:195-197 | a failed descent always reports an invalid entry |
| PageTableMmRv.WalkErrorIsInvalidEntry | crates/mm-rv/src/page_table.rs:195-197 | a failed walk always reports an invalid entry |
| PageTableMmRv.StepFailsWalk | crates/mm-rv/src/page_table.rs:195-197 | an invalid entry at any step of the path makes the whole walk fail |
| PageTableMmRv.DescendAppendErr | crates/mm-rv/src/page_table.rs:195-197 | once a prefix of the path fails, the whole descent fails |
| PageTableMmRv.InstallKeepsLinks | crates/mm-rv/src/page_table.rs:217-224 | installing a zeroed new table under an invalid entry keeps the tables linked, with the new table one level deeper, and keeps every valid upper entry |
| PageTableMmRv.DescendInjective | crates/mm-rv/src/page_table.rs:186-215 | since every table is created fresh under one entry, two two-step descents from the root that reach the same leaf table used the same indexes |
| PageTableMmRv.KeptWalk | crates/mm-rv/src/page_table.rs:209-218 | a `create` that only fills invalid upper entries and new frames keeps every walk that succeeded before |
| PageTableMmRv.WriteLeafKeepsOthers | crates/mm-rv/src/page_table.rs:236-242 | writing the leaf slot of `page` leaves the walk of every other page that succeeded as it was |
| PageTableMmRv.InstallKeepsTree | crates/mm-rv/src/page_table.rs:209-218 | installing a fresh table under an invalid entry keeps the tables a tree: no two valid upper entries name the same frame |
| PageTableTmm.PageTable.constructor | crates/tmm_rv/src/page_table.rs:155-163 | the root is the first free frame, zeroed, and `frames` holds just the root |
| PageTableTmm.PageTable.InstallTable | crates/tmm_rv/src/page_table.rs:185-194 | the CREAT branch: the new zeroed frame is installed with VALID, pushed onto `frames` and recorded one level deeper, or nothing changes when no frame is left |
| PageTableTmm.PageTable.Advance | crates/tmm_rv/src/page_table.rs:180-202 | one level of `walk`: an invalid entry gets a new table only with CREAT at depths 0 and 1, and otherwise makes the whole walk fail; a table is created only when the walk was failing |
| PageTableTmm.PageTable.Walk | crates/tmm_rv/src/page_table.rs:165-204 | success returns exactly the walk of the old memory and creates nothing; without CREAT no frame is taken; an allocation failure happens only with CREAT, an empty supply and a failing walk |
| PageTableTmm.PageTable.Map | crates/tmm_rv/src/page_table.rs:206-214 | fails whenever the page was not mapped before, so a never-mapped page cannot be mapped (given zero-filled table frames); on success the walk finds the new flags and frame; every other page whose walk succeeded before walks as before |
| PageTableTmm.PageTable.Unmap | crates/tmm_rv/src/page_table.rs:216-222 | fails exactly when the walk fails, changing nothing; otherwise zeroes exactly the leaf word, after which the walk fails |
| PageTableTmm.PageTable.Translate | crates/tmm_rv/src/page_table.rs:224-232 | changes nothing and returns the intended translation: the leaf frame of the page holding `va` plus its page offset |
| PageTableTmm.NewPageTable | crates/tmm_rv/src/page_table.rs:154-163 | `Err` exactly when no frame is left; otherwise a valid table whose root is the first free frame |
| PageAlloc.SplitAtAsWritten | crates/tmm_rv/src/page_alloc.rs:35-49 | as written: an out-of-bounds page returns the pages unchanged as the error |
| PageAlloc.SplitAtStartLosesPages | crates/tmm_rv/src/page_alloc.rs:36-37 | splitting pages 2..=5 at page 2 gives an empty left part and the single page 2 on the right, so page 3 is in neither part |
| PageAlloc.SplitAt | crates/tmm_rv/src/page_alloc.rs:25-49 | as documented: succeeds exactly at `start`, at `end + 1` or strictly inside; the parts hold exactly the range's pages, the left ones before the right ones; the left part is empty exactly at `start` and the right part exactly at `end + 1`; otherwise the pages come back unchanged |
| PageAlloc.SplitAtAgreesAwayFromStart | crates/tmm_rv/src/page_alloc.rs:38-47 | for every `at` other than `start`, the written and documented versions agree |
| VmFlags.ToPteFlags | kernel/src/mm/flags.rs:29-46 | R, W, X and U are set exactly when READ, WRITE, EXEC and USER are; V, G, A and D are never set |
| VmFlags.FromPteFlags | kernel/src/mm/flags.rs:48-65 | READ, WRITE, EXEC and USER are set exactly when R, W, X and U are; SHARED, GROWSDOWN and IDENTICAL are never set |
| VmFlags.PermissionsRoundTrip | kernel/src/mm/flags.rs:29-65 | area flags to entry flags and back keep exactly the four permission bits |
| VmFlags.PteFlagsRoundTrip | kernel/src/mm/flags.rs:29-65 | entry flags to area flags and back keep exactly R, W, X and U |
| VmFlags.LowBitsUnderUser | kernel/src/mm/flags.rs:3-26 | with USER set and three low bits below it, each flag reads its own bit and the other flags are clear |
| VmFlags.FromProt | kernel/src/mm/flags.rs:84-99 | USER is always set; READ, WRITE and EXEC are set exactly when the matching `PROT_` bit is; nothing else is set |
| MmSpec.LeastExists | kernel/src/mm/mod.rs:42 | a non-empty set of start addresses has a least element, the first key a `BTreeMap` visits |
| MmSpec.GreatestExists | kernel/src/mm/mod.rs:42 | a non-empty set of start addresses has a greatest element |
| MmSpec.MinKey | kernel/src/mm/mod.rs:247 | the first key visited is in the set and below every other key |
| MmSpec.FloorKey | kernel/src/mm/mod.rs:285 | `range(..=va).last()` is the greatest key at or below `va`, and `None` exactly when every key is above `va` |
| MmSpec.KeysIn | kernel/src/mm/mod.rs:310-312 | `range(start..end)` holds exactly the keys in `[start, end)` |
| MmSpec.AscendingLists | kernel/src/mm/mod.rs:247-312 | the map's iteration lists every key exactly once, in strictly increasing order |
| MmSpec.SlotsOf | kernel/src/mm/mod.rs:310-312 | the indexes stored under the listed keys, in the order of the keys |
| MmSpec.Find | kernel/src/mm/mod.rs:270-296 | `get_vma`: a slot it returns is occupied and its area holds `va` |
| MmSpec.FindComplete | kernel/src/mm/mod.rs:270-296 | when every area is indexed and none overlap, the lookup finds the area holding `va` whenever there is one |
| MmSpec.RangeAsWrittenRepeats | kernel/src/mm/mod.rs:300-315 | as written, an area starting exactly at `start` is listed twice: first as the area holding `start`, then under its own key |
| MmSpec.RangeAsWrittenExample | kernel/src/mm/mod.rs:300-315 | with one area `[0x1000, 0x3000)`, unmapping all of it lists slot 0 twice |
| MmSpec.KeyedSlotsDistinct | kernel/src/mm/mod.rs:310-312 | keys in increasing order name distinct slots |
| MmSpec.KeyedSlotsFrom | kernel/src/mm/mod.rs:308-312 | the areas under the keys in `[start, end)` are distinct occupied slots that start in that range |
| MmSpec.KeyedSlotsIn | kernel/src/mm/mod.rs:308-312 | the same for any increasing list of keys in `[start, end)` |
| MmSpec.PrependHolder | kernel/src/mm/mod.rs:303-306 | putting the area that holds `start` and starts before it in front of such a list keeps the slots distinct |
| MmSpec.RangeListsOccupiedSlots | kernel/src/mm/mod.rs:298-315 | the corrected `get_vma_range` lists occupied, distinct slots, starting with the area holding `start` when there is one |
| MmSpec.RangeListsMeetingAreas | kernel/src/mm/mod.rs:298-315 | when areas do not overlap, every listed area meets `[start, end)` |
| MmSpec.RangeListsEveryMeetingArea | kernel/src/mm/mod.rs:298-315 | when every area is indexed and none overlap, every area meeting `[start, end)` is listed |
| MmSpec.FreeFrom | kernel/src/mm/mod.rs:247-255 | the walk over the keys from `hint` fails only with `VMAAllocFailed` |
| MmSpec.WalkPast | kernel/src/mm/mod.rs:252 | passing an area keeps the walk's invariant, with `last_end` moved to that area's end |
| MmSpec.WalkStop | kernel/src/mm/mod.rs:249-250 | stopping at an area with `len` bytes of room since `last_end`: those `len` bytes below its start meet no area |
| MmSpec.FreeFromIsFree | kernel/src/mm/mod.rs:244-256 | under the invariant, an address the walk yields is at least the minimum address and starts `len` free bytes |
| MmSpec.EndBelowBounds | kernel/src/mm/mod.rs:244-256 | the end of the area below `hint` is not above any key from `hint` on, and every area starting below `hint` ends by it |
| MmSpec.WalkStarts | kernel/src/mm/mod.rs:244-247 | the corrected walk starts with its invariant holding |
| MmSpec.FreeAreaIsFree | kernel/src/mm/mod.rs:243-256 | the corrected `find_free_area` yields only addresses at or above `mmap_min_addr` that start `len` free bytes |
| MmSpec.FreeAreaAsWrittenOverlaps | kernel/src/mm/mod.rs:245-252 | with areas `[0x50_0000, 0x60_0000)` and `[0x60_1000, 0x70_0000)`, two pages from hint `0x60_1000` land on `0x5F_F000`, inside the first area; the corrected walk reports no room |
| MmSpec.PageAlign | kernel/src/mm/mod.rs:429-432 | the result is a multiple of the page size, at most the value, and less than a page below it |
| MmSpec.PageAlignIdempotent | kernel/src/mm/mod.rs:429-432 | aligning is idempotent, and a value is its own alignment exactly when it is aligned |
| MmSpec.PageIndex | kernel/src/mm/mod.rs:434-436 | the number of pages from `start_va`'s page up to `va`'s page, wrapping modulo 2^64 when `va`'s page is lower |
| MmSpec.PageIndexCountsPages | kernel/src/mm/mod.rs:434-436 | for an aligned end, `page_index(start, end)` is the number of pages the area spans |
| MmSpace.NextSlot | kernel/src/mm/mod.rs:168-170 | the slot `add_vma` fills is an empty recycled slot, or the end of the list exactly when nothing is recycled |
| MmSpace.Add | kernel/src/mm/mod.rs:164-179 | `ENOMEM` exactly when `MAX_MAP_COUNT` areas are indexed; otherwise the area is in the recycled slot or a new last slot, indexed under its start and cached, with every other slot unchanged and the invariant kept |
| MmSpace.AddSound | kernel/src/mm/mod.rs:168-177 | both branches of `add_vma` keep the invariant: index entries name their areas, recycled slots are empty and distinct, the cache names a slot |
| MmSpace.ReplaceSound | kernel/src/mm/mod.rs:485-486 | putting an area with the same start into an occupied slot and caching that slot keeps the invariant |
| MmSpace.AddKeepsOrderly | kernel/src/mm/mod.rs:164-179 | adding a non-empty area that overlaps none keeps every area indexed under its start and the areas apart |
| MmSpace.AddThenFind | kernel/src/mm/mod.rs:164-179 | after `add_vma`, `get_vma` finds the new area for every address in it, through the cache |
| MmBrk.HeapArea | kernel/src/mm/mod.rs:477-484 | the heap area starts at `start_brk`, carries USER, READ and WRITE, and holds `start_brk` |
| MmBrk.BrkFirst | kernel/src/mm/mod.rs:440-474 | the early returns of `do_brk` keep the invariant and reply with the resulting break, which is the old one or the new one; there is no early return exactly when the new break is at or above both `start_brk` and the old break, in another page, and its last byte is in no area |
| MmBrk.Grow | kernel/src/mm/mod.rs:476-488 | growing keeps the invariant and the page mappings; a reply moves the break to the new value; a failure or panic leaves the break; the only failure is `ENOMEM` from `add_vma` |
| MmBrk.Brk | kernel/src/mm/mod.rs:438-489 | the corrected `do_brk` keeps the invariant, replies with the break it leaves, and that break is the old one or the new one |
| MmBrk.BrkAsWrittenPanics | kernel/src/mm/mod.rs:447-486 | as written: from `start_brk` 0x10000, a break to 0x10800 stays in the first page and creates no area; the next break to 0x12000 finds neither the old break at `start_brk` nor a heap area, and the `unwrap` panics |
| MmBrk.BrkNeverPanics | kernel/src/mm/mod.rs:476-486 | creating the heap area whenever no area holds `start_brk`, `do_brk` never panics |
| MmBrk.BrkRefusesTakenAddress | kernel/src/mm/mod.rs:471-474 | a higher break whose last byte lies in an existing area is refused: the old break is kept and returned |
| MmBrk.BrkGrowsHeap | kernel/src/mm/mod.rs:476-488 | a higher break in free space, with room for one more area, moves the break, and the cached heap area ends at the new break |
| MmUnmap.Piece | kernel/src/mm/mod.rs:515-525 | a piece of an area spans exactly the given bounds and keeps the area's flags and backing |
| MmUnmap.CutCovered | kernel/src/mm/mod.rs:511-534 | an area inside the range has its slot emptied and pushed onto the recycled list, and its index entry removed; nothing else changes and the invariant holds |
| MmUnmap.CutKeepLeft | kernel/src/mm/mod.rs:524-527 | an area that starts before the range keeps only its part below the range, in the same slot and under the same key |
| MmUnmap.CutKeepRight | kernel/src/mm/mod.rs:518-523 | an area that reaches past the range keeps only its part from the range's end, and is re-indexed under that address instead of its old start |
| MmUnmap.Cut | kernel/src/mm/mod.rs:501-542 | one turn of the loop fails, with `ENOMEM` and nothing changed, exactly when the range lies strictly inside the area and `MAX_MAP_COUNT` areas exist; otherwise it keeps the invariant and every other occupied slot |
| MmUnmap.CutAll | kernel/src/mm/mod.rs:501-543 | the loop keeps the invariant, and its only error is `ENOMEM` |
| MmUnmap.RestOccupied | kernel/src/mm/mod.rs:501-503 | after the first listed area is cut, the remaining listed slots still hold the same areas |
| MmUnmap.Looked | kernel/src/mm/mod.rs:288-304 | the lookup in `get_vma_range` changes only the cache, which then names the area holding the address when there is one |
| MmUnmap.Munmap | kernel/src/mm/mod.rs:491-545 | `EINVAL` exactly for an unaligned start or a length that aligns down to 0, with nothing changed; the only other error is `ENOMEM`; the invariant is kept |
| MmUnmap.PieceUnmapsInside | kernel/src/mm/mod.rs:512-526 | unmapping a piece inside `[start, end)` only clears pages that share a byte with that range |
| MmUnmap.KeepsOutsideChains | kernel/src/mm/mod.rs:501-543 | leaving the mappings outside the range alone is preserved over successive turns |
| MmUnmap.CutUnmapsInside | kernel/src/mm/mod.rs:510-527 | a cut unmaps only pages in the range, and every area stays as `VMArea::new` builds it |
| MmUnmap.CutAllUnmapsInside | kernel/src/mm/mod.rs:501-543 | the whole loop unmaps only pages in the range and leaves every area well built |
| MmUnmap.CoveredOrderly | kernel/src/mm/mod.rs:529-534 | removing an area keeps the areas indexed and apart |
| MmUnmap.ShrunkApart | kernel/src/mm/mod.rs:514-527 | keeping part of an area inside its old bounds keeps the areas apart |
| MmUnmap.KeepLeftOrderly | kernel/src/mm/mod.rs:524-527 | keeping the part below the range keeps the areas indexed and apart |
| MmUnmap.KeepRightOrderly | kernel/src/mm/mod.rs:518-523 | keeping the part above the range, re-indexed, keeps the areas indexed and apart |
| MmUnmap.InteriorOrderly | kernel/src/mm/mod.rs:514-542 | splitting an area around the range and adding the upper part as a new area succeeds below `MAX_MAP_COUNT` and keeps the areas indexed and apart |
| MmUnmap.CutClears | kernel/src/mm/mod.rs:510-542 | a cut of an area meeting the range keeps the areas indexed and apart, and whatever it changes is clear of the range |
| MmUnmap.ClearsRest | kernel/src/mm/mod.rs:501-543 | after the first cut, the rest of the list still names occupied slots meeting the range, and every other area is clear of it |
| MmUnmap.CutAllClears | kernel/src/mm/mod.rs:501-543 | once every listed area has been cut, no area meets the range |
| MmUnmap.MunmapClearsRange | kernel/src/mm/mod.rs:491-545 | a successful `do_munmap` keeps the areas indexed, apart and well built, leaves no area meeting the range, unmaps only pages sharing a byte with it, and unmaps every page inside it that an area owned |
| MmUnmap.CutClearsShared | kernel/src/mm/mod.rs:510-527 | a cut of an area meeting the range unmaps every page the area shares with the range |
| MmUnmap.CutAllClearsShared | kernel/src/mm/mod.rs:501-543 | after the whole loop, every page a listed area shared with the range is unmapped, since later turns only remove mappings |
| MmUnmap.RangeCutClearsOwned | kernel/src/mm/mod.rs:498-543 | cutting the listed areas unmaps every page inside the range that any area owned, because every area meeting the range is listed |
| MmUnmap.MunmapClearsOwned | kernel/src/mm/mod.rs:491-545 | a successful `do_munmap` unmaps every page inside `[start, end)` that an area owned before the call |
| MmUnmap.RangeClears | kernel/src/mm/mod.rs:298-315 | the corrected listing names distinct occupied slots meeting the range, and every unlisted area is clear of it |
| MmUnmap.CutAllKeeps | kernel/src/mm/mod.rs:501-543 | cutting every listed area, when the others are clear already, keeps the invariants and clears the range |
| MmUnmap.MunmapAsWrittenRevisitsEmptySlot | kernel/src/mm/mod.rs:501-534 | as written, unmapping all of area `[0x1000, 0x3000)` lists slot 0 twice; the first turn empties it, so the second turn's `unwrap` finds no area |
| Vma.WithValid | kernel/src/mm/vma.rs:58 | `flags \| VALID` has the valid bit and keeps every other bit |
| Vma.PageMap.constructor | crates/tmm_rv/src/page_table.rs:154-163 | an empty page map with the given pages whose walk cannot reach a leaf slot |
| Vma.PageMap.Map | crates/tmm_rv/src/page_table.rs:206-214 | `map` succeeds exactly on a page whose leaf slot is reachable, and then sets that page's leaf and nothing else; a failure changes nothing |
| Vma.PageMap.Unmap | crates/tmm_rv/src/page_table.rs:216-222 | `unmap` succeeds exactly when the page has a leaf, and afterwards the page has none |
| Vma.New | kernel/src/mm/vma.rs:29-42 | the corrected `VMArea::new` keeps the bounds, flags and backing, and owns exactly the pages that share a byte with `[start_va, end_va)` |
| Vma.NewAsWrittenOwnsNextPage | kernel/src/mm/vma.rs:39 | as written, an area ending on a page boundary also owns the page at its end address, which the corrected area does not own and the next area does |
| Vma.AdjacentAreasShareAPage | kernel/src/mm/vma.rs:39 | as written, areas `[0x1000, 0x2000)` and `[0x2000, 0x3000)` both own page 2 |
| Vma.FramesFor | kernel/src/mm/vma.rs:47-56 | the frames `map_this` pairs with the pages: a mapped area's slots, else frame `n` for page `n` across the whole range |
| Vma.InstalledLeaves | kernel/src/mm/vma.rs:57-62 | after the loop's maps, a page given a frame has the leaf with that frame and the flags, and every other leaf is unchanged |
| Vma.FirstRefused | kernel/src/mm/vma.rs:57-62 | the position where the loop stops is within the pages paired |
| Vma.FirstRefusedIsFirst | kernel/src/mm/vma.rs:57-62 | every pair before the stopping point was accepted, and the pair at it is refused |
| Vma.FirstRefusedPast | kernel/src/mm/vma.rs:57-62 | a run of accepted pairs lies before the stopping point |
| Vma.FirstRefusedPrefix | kernel/src/mm/vma.rs:57-62 | the first refused pair is the stopping point |
| Vma.InstalledStep | kernel/src/mm/vma.rs:57-62 | one more turn of the loop maps one more page, or none when its frame slot is empty |
| Vma.MapThis | kernel/src/mm/vma.rs:45-64 | `map_this` pairs pages with frames as far as both last; it fails with `PageTableInvalid` exactly when some paired page is refused, and the leaves are then those mapped before the first refusal, with `flags \| VALID` |
| Vma.Without | kernel/src/mm/vma.rs:67-74 | the leaves without the pages of a range, the others unchanged |
| Vma.UnmapThis | kernel/src/mm/vma.rs:67-74 | `unmap_this` always succeeds and clears exactly the leaves of the area's pages |
| Vma.UnmapClearsOwnedPages | kernel/src/mm/vma.rs:67-74 | the pages `unmap_this` clears are exactly those the area owns |
| LazyPma.CountSomeAppend | kernel/src/mm/pma/lazy.rs:50-53 | the occupied slots of two runs add up |
| LazyPma.CountSomeFull | kernel/src/mm/pma/lazy.rs:20-21 | the count reaches the number of slots exactly when every slot is occupied |
| LazyPma.CountSomeSet | kernel/src/mm/pma/lazy.rs:79-119 | filling or emptying one slot moves the count by exactly one |
| LazyPma.CountSomeEmpty | kernel/src/mm/pma/lazy.rs:36-39 | slots that are all empty count zero frames |
| LazyPma.CountAllocated | kernel/src/mm/pma/lazy.rs:50-53 | the `for_each` of `new_with_frames` counts exactly the occupied slots |
| LazyPma.FillKeepsFrames | kernel/src/mm/pma/lazy.rs:87-105 | `get_frames(true)` keeps every frame already in a slot, and an empty slot gets a frame only from the allocator |
| LazyPma.FillAt | kernel/src/mm/pma/lazy.rs:89-102 | one slot of the loop: an occupied slot is copied, an empty one takes the next frame, and with none left the rest stay as they were |
| LazyPma.FillStep | kernel/src/mm/pma/lazy.rs:89-102 | the loop's slot `i` joins the filled prefix |
| LazyPma.FillCount | kernel/src/mm/pma/lazy.rs:93-98 | `alloc_count` grows by one per empty slot filled, as many as there are empty slots or frames, whichever is fewer |
| LazyPma.FillCompletes | kernel/src/mm/pma/lazy.rs:87-105 | with enough frames at hand, no slot stays empty |
| LazyPma.FillingNext | kernel/src/mm/pma/lazy.rs:89-102 | one turn of the loop copies slot `i` or fills it from the allocator |
| LazyPma.FillExhausted | kernel/src/mm/pma/lazy.rs:94-96 | when the allocator runs out at an empty slot, the `?` leaves the slots from there as they were, with fewer frames than empty slots |
| LazyPma.FillingDone | kernel/src/mm/pma/lazy.rs:103-104 | once every slot is reached, the slots are the filled ones (or unchanged without `alloc`) and the count grew by the frames placed |
| LazyPma.FillSlots | kernel/src/mm/pma/lazy.rs:87-105 | the loop of `get_frames`: without `alloc` nothing changes; with it the slots become `Fill` of the supply, and it completes exactly when the frames suffice |
| LazyPma.SplitFrames | kernel/src/mm/pma/lazy.rs:123-190 | `split` on the slots: `(None, None)` and `start == end` hand out nothing; a successful split's pieces, put back in address order, are the original slots; `PMAOutOfRange` and `InvalidArgs` exactly under the code's checks |
| LazyPma.LazyPMA.WithFrames | kernel/src/mm/pma/lazy.rs:46-59 | `new_with_frames` keeps the slots and its count is exact |
| LazyPma.LazyPMA.CheckFrame | kernel/src/mm/pma/lazy.rs:107-109 | true exactly when the slot of page `index` holds a frame |
| LazyPma.LazyPMA.GetFrame | kernel/src/mm/pma/lazy.rs:67-85 | the existing frame, unchanged state; else `PMAFrameNotFound` without `alloc`, `FrameAllocFailed` with no frame, `PMAFailedIO` when the file read fails (all changing nothing); else the new frame is stored and counted |
| LazyPma.LazyPMA.GetFrames | kernel/src/mm/pma/lazy.rs:87-105 | every slot's frame in page order; with `alloc`, empty slots are filled first and the call fails with `FrameAllocFailed`, keeping the frames already placed, exactly when the frames run short |
| LazyPma.LazyPMA.DeallocFrame | kernel/src/mm/pma/lazy.rs:111-121 | `PMAFrameNotFound` exactly when the slot is empty, changing nothing; else the slot is emptied and `alloc_count` decremented |
| LazyPma.LazyPMA.Split | kernel/src/mm/pma/lazy.rs:123-190 | as written: the area keeps the slots `SplitFrames` keeps and hands out the rest as new areas with exact counts, but its own `alloc_count` is left unchanged |
| LazyPma.LazyPMA.SplitRecount | kernel/src/mm/pma/lazy.rs:123-190 | the intended split: as `Split`, and the area's own count is recounted so it stays exact |
| LazyPma.LazyPMA.Extend | kernel/src/mm/pma/lazy.rs:192-195 | `resize_with` truncates to `new_size` slots or pads with empty ones, keeping the slots below it, and leaves the count alone |
| LazyPma.New | kernel/src/mm/pma/lazy.rs:31-42 | as written: `InvalidArgs` exactly when `count` is 0 or above `USER_MAX_PAGES`; otherwise an area with no slot at all |
| LazyPma.NewFilled | kernel/src/mm/pma/lazy.rs:31-42 | the intended `new`: the same errors, and otherwise `count` empty slots |
| LazyPma.NewAreaHasNoSlots | kernel/src/mm/pma/lazy.rs:35-68 | a one-page area as written has no slot for page 0, which `get_frame(0, _)` indexes; the intended one has it |
| LazyPma.SplitLeavesStaleCount | kernel/src/mm/pma/lazy.rs:123-190 | splitting `[empty, frame 7]` at slot 1 as written leaves one empty slot still counting one frame; the recounting split counts none |
| FixedPma.SplitRun | kernel/src/mm/pma/fixed.rs:65-112 | the intended `split`, both bounds from the start of the run: `(start, None)` hands out the tail, `(None, end)` the head, `(start, end)` the middle and the tail; every successful plan tiles the run without gap or overlap; the errors are those of the code's checks |
| FixedPma.SplitBothNeverCuts | kernel/src/mm/pma/fixed.rs:91-104 | as written, `end` is added to the run's END, so a split with both bounds either fails or hands back nothing |
| FixedPma.SplitMiddleExample | kernel/src/mm/pma/fixed.rs:90-111 | frames 10 to 13 split at pages 1 and 2: the intended split hands out frame 11 as the middle and 12 to 13 as the tail; as written it fails with `PMAOutOfRange` |
| FixedPma.SplitAgreesWithLazy | kernel/src/mm/pma/fixed.rs:65-112 | the fixed and the lazy area refuse a split under the same conditions with the same error, except that `(None, end == len)` is refused here and accepted by the lazy area |
| FixedPma.FixedPMA.GetFrame | kernel/src/mm/pma/fixed.rs:50-55 | page `index` is frame `start + index` inside the run, and `FrameOutOfRange` exactly past it |
| FixedPma.FixedPMA.GetFrames | kernel/src/mm/pma/fixed.rs:57-59 | every frame of the run in order, each present and equal to what `get_frame` gives |
| FixedPma.FixedPMA.CheckFrameAsWritten | kernel/src/mm/pma/fixed.rs:61-63 | as written, true exactly when `get_frame` has NO frame to give |
| FixedPma.FixedPMA.CheckFrame | kernel/src/mm/pma/fixed.rs:61-63 | the intended check: true exactly when `get_frame` has a frame |
| FixedPma.FixedPMA.Apply | kernel/src/mm/pma/fixed.rs:79-110 | applying a split plan keeps one part and hands the others out as new areas, changing nothing on an error |
| FixedPma.FixedPMA.constructor | kernel/src/mm/pma/fixed.rs:24-29 | an area over the given run of frames |
| FixedPma.FixedPMA.SplitAsWritten | kernel/src/mm/pma/fixed.rs:65-112 | `split` as written follows `SplitRunAsWritten`, and with both bounds it never hands anything out |
| FixedPma.FixedPMA.Split | kernel/src/mm/pma/fixed.rs:65-112 | the intended `split` follows `SplitRun`: the area keeps the part planned and hands out the others; an error changes nothing |
| Mm.ListedStep | kernel/src/mm/mod.rs:310-312 | visiting the keys in increasing order yields the smallest key's slot first, then the slots of the others |
| Mm.FreeFits | kernel/src/mm/mod.rs:248-250 | the `find_free_area` walk stops at the first visited area with `len` bytes of room below it at or above `mmap_min_addr`, yielding `start_va - len` |
| Mm.FreeGoesOn | kernel/src/mm/mod.rs:248-252 | otherwise the walk goes on with the next key, `last_end` moved to the visited area's end |
| Mm.AscendingFirst | kernel/src/mm/mod.rs:247-312 | iterating the keys in increasing order starts with the least key and goes on with the others |
| Mm.Joined | kernel/src/mm/mod.rs:379-401 | pieces already gathered are kept in front of those still to come; an error or a hang passes through unchanged |
| Mm.JoinedStep | kernel/src/mm/mod.rs:389-398 | gathering one more piece and joining the rest is joining the rest after that piece |
| Mm.SameRest | kernel/src/mm/mod.rs:397 | the `get_buf_mut` loop resumes at the address right after the piece just gathered |
| Mm.BufFromStep | kernel/src/mm/mod.rs:387-398 | one turn of `get_buf_mut`: once the page's frame is allocated, the piece from `va` to the end of its page (or of the buffer) comes first |
| Mm.BufTurn | kernel/src/mm/mod.rs:387-398 | the loop invariant of `get_buf_mut` survives one turn: gathered pieces plus pieces to come equal the whole result |
| Mm.MM.constructor | kernel/src/mm/mod.rs:70-79 | the struct `MM::new` builds before mapping the trampoline: no areas, no recycled slots, an empty index, no cache, an empty page table and both heap bounds at 0 |
| Mm.TrampolinePage | kernel/src/mm/mod.rs:80-83 | the trampoline's page is the highest page, the one starting at `TRAMPOLINE_VA` |
| Mm.MM.Create | kernel/src/mm/mod.rs:67-93 | `FrameAllocFailed` when the page table gets no root frame; `PageTableInvalid` when mapping the trampoline fails; otherwise an empty, valid address space whose page table maps only the trampoline page, readable and executable and without `USER`, to the trampoline code's frame |
| Mm.MM.AddVma | kernel/src/mm/mod.rs:164-185 | the area slots, recycled slots, index and cache become exactly what `Add` gives, or stay unchanged with `ENOMEM`; the invariant is kept |
| Mm.MM.GetVma | kernel/src/mm/mod.rs:270-296 | returns the slot `Find` gives (whose area holds `va`), or `PageUnmapped` when it gives none, and only the cache changes |
| Mm.MM.GetVmaRange | kernel/src/mm/mod.rs:300-315 | returns exactly the corrected `Range` listing, and only the cache changes |
| Mm.MM.ListKeys | kernel/src/mm/mod.rs:310-312 | the loop over the keys in `[start, end)` yields their slots in increasing key order |
| Mm.MM.FindFreeArea | kernel/src/mm/mod.rs:244-256 | returns exactly what the corrected `FreeArea` gives, hence only a free, high enough address or `VMAAllocFailed` |
| Mm.MM.RemoveArea | kernel/src/mm/mod.rs:529-534 | a covered area is unmapped and its slot emptied, recycled and unindexed, as `CutCovered` states |
| Mm.MM.KeepLeft | kernel/src/mm/mod.rs:524-527 | the area keeps its part below the range, and exactly the pages of the cut-off part are unmapped |
| Mm.MM.KeepRight | kernel/src/mm/mod.rs:518-523 | the area keeps its part from the range's end on, re-indexed under that address, and the pages below it are unmapped |
| Mm.MM.CutOne | kernel/src/mm/mod.rs:501-542 | one turn of the `do_munmap` loop reaches the state `Cut` gives, or changes nothing and fails with its error |
| Mm.MM.CutEach | kernel/src/mm/mod.rs:501-543 | the loop over the listed areas reaches the state and result `CutAll` gives |
| Mm.MM.CutFirst | kernel/src/mm/mod.rs:501-543 | after the first listed area is cut, cutting the rest gives the same end state as cutting the whole list |
| Mm.MM.DoMunmap | kernel/src/mm/mod.rs:492-545 | the areas, page mappings and result are exactly those of `Munmap` (corrected range listing), and the invariant is kept |
| Mm.MM.GrowHeap | kernel/src/mm/mod.rs:476-488 | the growing branch of `do_brk` reaches exactly the state and reply `Grow` gives |
| Mm.MM.ShrinkHeap | kernel/src/mm/mod.rs:455-469 | the shrinking branch of `do_brk` unmaps the pages above the new break's page up to the old break's page, and reaches exactly the state and reply `BrkFirst` gives: the break moves only when the unmapping succeeds |
| Mm.MM.DoBrk | kernel/src/mm/mod.rs:440-490 | the areas, mappings, break and reply are exactly those of the corrected `Brk`, and the invariant is kept |
| Mm.MM.AllocFrame | kernel/src/mm/mod.rs:321-330 | the state and frame are exactly those of `MmUser.AllocFrame`: `PageUnmapped` outside every area, else the area's frame for the page |
| Mm.MM.GetBufMut | kernel/src/mm/mod.rs:379-401 | the state and pieces are exactly those of `GetBuf`, whose pieces tile the buffer page by page |
| Mm.MM.GetStr | kernel/src/mm/mod.rs:403-424 | the state and string are exactly those of `MmUser.GetStr`: the bytes up to the first NUL |
| Mm.MM.DoHandlePageFault | kernel/src/mm/mod.rs:552-561 | the state and result are exactly those of `PageFault`: `PageUnmapped` outside every area, the allocation's error passed on, `FatalPageFault` unless a new frame was made and the area's flags include those asked for |
| MmUser.Prefixed | kernel/src/mm/mod.rs:390 | a piece pushed in front of the pieces still to come; an error or a hang passes through |
| MmUser.AllocFrame | kernel/src/mm/mod.rs:321-325 | `alloc_frame`: only the cache changes (`get_vma`); `PageUnmapped` when no area holds `va`, otherwise the frame of the page of `va` in the area holding it |
| MmUser.Step | kernel/src/mm/mod.rs:384-388 | the piece at `va` is never longer than the bytes left to `end` |
| MmUser.PageLenIsStep | kernel/src/mm/mod.rs:384-388 | `min(end - va, next_page - va)`, with the next page number capped at the top page, is exactly the plain-terms piece length |
| MmUser.StepBounds | kernel/src/mm/mod.rs:384-391 | a piece stays within its page, ends at `end` or at the page's end, and is empty exactly at the start of the last page of the address space |
| MmUser.TilesAddUp | kernel/src/mm/mod.rs:383-392 | the lengths of pieces tiling `[va, end)` add up to `end - va` |
| MmUser.TilesStep | kernel/src/mm/mod.rs:389-391 | a first piece within the frame and page of `va`, in front of a tiling of the rest, tiles the whole |
| MmUser.BufFrom | kernel/src/mm/mod.rs:383-392 | the `get_buf_mut` loop keeps the address-space invariant, and what it returns tiles `[va, end)` page by page through the frames of those pages |
| MmUser.GetBufTilesBuffer | kernel/src/mm/mod.rs:379-394 | the buffer `get_buf_mut` returns tiles `[va, va + len)` in order, each piece within one page, and its lengths add up to `len` unless `va + len` overflows |
| MmUser.BufHangsOnlyAtLastPage | kernel/src/mm/mod.rs:383-392 | the loop fails to end only when the buffer reaches past the start of the last page, where the piece length is 0 |
| MmUser.StrFrom | kernel/src/mm/mod.rs:408-422 | the `get_str` loop keeps the address-space invariant |
| MmUser.ReadsCons | kernel/src/mm/mod.rs:416-421 | a nonzero byte pushed in front of the bytes read from the next address is the string read from `va` |
| MmUser.StrReadsUpToNul | kernel/src/mm/mod.rs:403-424 | the string `get_str` returns is the bytes at `va`, `va + 1`, … up to the first 0, each read through the frame backing its own page, though a frame is fetched only at the first byte and at page starts |
| MmUser.PageFault | kernel/src/mm/mod.rs:552-561 | only the cache changes; the only errors are `PageUnmapped`, `FatalPageFault` and the allocation's own error |
| MmUser.PageFaultServed | kernel/src/mm/mod.rs:553-559 | with areas apart, a fault in an area is served exactly when a new frame was made and the area's flags include those asked for; `PageUnmapped` only from the allocation |
| MmUser.PageFaultOutsideAreas | kernel/src/mm/mod.rs:553 | a fault at an address in no area is `PageUnmapped` and changes nothing |
| MmUser.HeapFaults | kernel/src/mm/mod.rs:481-556 | with the heap's flags, user reads and writes fault in pages, and an instruction fetch is fatal |
| UserBuffers.RowFrom | crates/ubuf/src/lib.rs:42-55 | the positions of one slice from byte `i` on number the bytes left in it |
| UserBuffers.ItemsCount | crates/ubuf/src/lib.rs:40-56 | iterating a `UserBuffer` yields as many pointers as its slices hold bytes |
| UserBuffers.RestStep | crates/ubuf/src/lib.rs:46-53 | the next position is the cursor's byte, followed by the rest of its slice or, after the slice's last byte, the next slice from its start |
| UserBuffers.UserBufferIterator.constructor | crates/ubuf/src/lib.rs:31-37 | `into_iter` puts the cursor at byte 0 of slice 0, so the positions to come are every byte of every slice in order |
| UserBuffers.UserBufferIterator.Next | crates/ubuf/src/lib.rs:42-55 | `None` past the last slice; otherwise the cursor's byte, the cursor moving to the next slice's start exactly when that was its slice's last byte, else one byte on; indexing an empty slice panics |
| UserBuffers.Drain | crates/ubuf/src/lib.rs:76-83 | iterating to the end over non-empty slices visits every byte of every slice in order, as many as the slices hold |
| Loader.AlignDown | kernel/src/loader/init.rs:62-67 | subtracting `sp % align` yields the greatest multiple of `align` at or below `sp`, less than `align` below it |
| Loader.LeBytes | kernel/src/loader/init.rs:63-64 | a word copied into memory takes exactly its size in bytes |
| Loader.DecodeLeBytes | kernel/src/loader/init.rs:63-116 | the little-endian bytes of a value that fits read back as the value |
| Loader.WordFits | kernel/src/loader/init.rs:116 | a `usize` fits in eight bytes |
| Loader.Words | kernel/src/loader/init.rs:110-116 | a slice of `usize` values occupies eight bytes each |
| Loader.WordsAppend | kernel/src/loader/init.rs:108-116 | pushing two word slices one after the other lays them out as one |
| Loader.SuffixTrans | kernel/src/loader/init.rs:60-69 | what lies above the stack pointer survives a series of pushes |
| Loader.SuffixKeeps | kernel/src/loader/init.rs:87-97 | strings already pushed are still found at their pointers after more is pushed below them |
| Loader.AllAtSnoc | kernel/src/loader/init.rs:93-97 | a string found at the pointer just returned joins the strings found at the earlier pointers |
| Loader.AllAtFromSp | kernel/src/loader/init.rs:93-127 | pointers measured from the base find their strings at the same place measured from `vsp` over the bytes `deref` shows |
| Loader.InitStack.constructor | kernel/src/loader/init.rs:45-52 | a new stack holds nothing, with `sp` at `base` and `vsp` at `vbase` |
| Loader.InitStack.Deref | kernel/src/loader/init.rs:124-127 | the bytes from `sp` to `base`: exactly `base - sp` of them, the pushed data |
| Loader.InitStack.PushSlice | kernel/src/loader/init.rs:60-69 | both pointers drop by the slice's size and then to its alignment, the slice lands at the new `sp` above the padding, nothing above moves, and the new `vsp` is returned |
| Loader.InitStack.PushStr | kernel/src/loader/init.rs:74-78 | a NUL then the string's bytes are pushed, so the string with its terminator lies at the returned `vsp` |
| Loader.InitStack.PushWords | kernel/src/loader/init.rs:99-116 | pushing words onto an 8-aligned stack adds no padding and keeps it aligned |
| Loader.AlignDownExact | kernel/src/loader/init.rs:61-62 | lowering an aligned pointer by a multiple of the alignment adds no padding |
| Loader.SameShift | kernel/src/loader/init.rs:61-67 | physical and virtual stack pointers that agree modulo 8 move by the same amount in every push |
| Loader.PushStrings | kernel/src/loader/init.rs:87-97 | pushing strings in turn returns one pointer per string, each finding its string, and consumes exactly their bytes and terminators |
| Loader.StrNeedAppend | kernel/src/loader/init.rs:87-97 | the room strings take adds up over a concatenation |
| Loader.StrNeedSplit | kernel/src/loader/init.rs:93-97 | the room strings take adds up one string at a time |
| Loader.AuxPair | kernel/src/loader/init.rs:101-106 | an auxiliary entry is pushed as its type and its value, `AT_RANDOM`'s value replaced by the random bytes' address |
| Loader.AuxTable | kernel/src/loader/init.rs:100-106 | the auxiliary table holds two words per entry, entry `k` lying `n - 1 - k` pairs above the lowest with its type and its (replaced) value |
| Loader.AuxTableSnoc | kernel/src/loader/init.rs:100-106 | one more entry puts its pair below the table of the earlier ones |
| Loader.PushAux | kernel/src/loader/init.rs:100-106 | the loop pushes exactly the words of the auxiliary table below what the stack held, with no padding |
| Loader.PushNullPair | kernel/src/loader/init.rs:85 | pushing two zero words aligned to 8 leaves both pointers 8-aligned, drops them by fewer than 24 bytes, returns the new `vsp`, and puts the 16 zero bytes on top of what the stack held (the padding push at line 99 is the same call) |
| Loader.PushHead | kernel/src/loader/init.rs:83-85 | the first argument string lies right below what the stack held, and the 16 random bytes (two zero words) lie at the returned address |
| Loader.PushStringArea | kernel/src/loader/init.rs:83-97 | the first argument lies right below what the stack held; the random bytes lie at `random`; every environment pointer finds its environment string and every argument pointer its argument string |
| Loader.AreaKept | kernel/src/loader/init.rs:83-97 | the first argument, the random bytes and the environment strings stay where they are while the argument strings are pushed below them |
| Loader.TableWords | kernel/src/loader/init.rs:98-116 | the words from the stack pointer up: `argc` first, argument pointers, NULL, environment pointers, NULL, the auxiliary pairs with `AT_RANDOM` carrying `random`, and two NULL words of padding last |
| Loader.PushTable | kernel/src/loader/init.rs:98-116 | after the padding, the auxiliary table and the pointer arrays, the stack starts with exactly the words of `TableWords` |
| Loader.TableLayout | kernel/src/loader/init.rs:98-116 | the pointer arrays over the auxiliary table over the padding are the words of `TableWords` |
| Loader.LowWordsPrefix | kernel/src/loader/init.rs:112-116 | the last three pushes are the first bytes of the stack |
| Loader.PushLowWords | kernel/src/loader/init.rs:107-116 | the NULL, the environment pointers, the NULL, the argument pointers and `argc` lie, from the stack pointer up, as `argc`, `argv`, NULL, `envp`, NULL above nothing new |
| Loader.LowWords | kernel/src/loader/init.rs:107-116 | five word pushes one below the other read as one run of words |
| Loader.WordsRead | kernel/src/loader/init.rs:107-116 | word `i` of a pushed run is the eight little-endian bytes of the `i`-th value |
| Loader.WordsTop | kernel/src/loader/init.rs:107-116 | every word of a run at the top of the stack reads back as the value pushed |
| Loader.TableHead | kernel/src/loader/init.rs:112-116 | a stack starting with the table's words starts with `argc`, the argument pointers and their NULL |
| Loader.FoundAfterTable | kernel/src/loader/init.rs:87-116 | after the table is pushed, argument pointers, environment pointers and `random`, read as offsets from `vsp`, find their strings and the random bytes |
| Loader.ArgcFirst | kernel/src/loader/init.rs:116 | the first word of the stack reads back as `argc` |
| Loader.Serialize | kernel/src/loader/init.rs:81-118 | reading the stack word by word from `sp` gives `argc` = the number of arguments, the argument pointers, NULL, the environment pointers, NULL, the auxiliary pairs with `AT_RANDOM` carrying the random bytes' address, and the padding; the first argument lies at the base; when the two stacks start equally aligned every argument and environment pointer finds its string and `random` the 16 random bytes |
| RingWindows.Window | crates/vfs/src/ring_buf.rs:34-51 | the buffered bytes: `len` bytes of the file from `head` on, wrapping to the file's start at `max_size` |
| RingWindows.WindowAt | crates/vfs/src/ring_buf.rs:40-48 | byte `k` of the buffered bytes is the file's byte `k` places past `head`, wrapped |
| RingWindows.WindowPrefix | crates/vfs/src/ring_buf.rs:35-41 | reading `n` of the buffered bytes reads their first `n` |
| RingWindows.DropFront | crates/vfs/src/ring_buf.rs:42-48 | moving `head` on by `n`, wrapped, leaves the buffered bytes after the first `n` |
| RingWindows.WriteInPlace | crates/vfs/src/ring_buf.rs:60-62 | a write at the tail that fits before the file's end extends the buffered bytes by exactly the written bytes |
| RingWindows.WriteWrapped | crates/vfs/src/ring_buf.rs:63-68 | a write that passes the file's end puts its first `max_size - tail` bytes at the tail and the rest at the file's start, and the buffered bytes grow by exactly the written bytes |
| RingWindows.Put | crates/vfs/src/ring_buf.rs:59-69 | the file write of `write` keeps the file's size and appends the written bytes to the buffered bytes |
| RingWindows.CopyOut | crates/vfs/src/ring_buf.rs:39-49 | the file read of `read` fills the front of `buf` with the oldest `n` buffered bytes and leaves the rest of `buf` alone |
| RingBuf.RingBuffer.constructor | crates/vfs/src/ring_buf.rs:23-31 | a new ring buffer is empty with both cursors at 0 and `max_size` = `limit` |
| RingBuf.RingBuffer.Read | crates/vfs/src/ring_buf.rs:34-51 | reads `min(buf.len(), len)` bytes, the oldest ones in the order written, into the front of `buf`; they leave the buffer and `head` moves on by their number, wrapped |
| RingBuf.RingBuffer.Write | crates/vfs/src/ring_buf.rs:54-71 | writes `min(buf.len(), max_size - len)` bytes of `buf` after the buffered bytes; `tail` moves on by their number, wrapped |
| RingBuf.RingBufferScenario | crates/tbuffer/src/test.rs:62-71 | writing `abcdefghijk` into a 512-byte buffer and reading it back returns 11 bytes starting with `a` and leaves the buffer empty |
| VfsPath.Segments | crates/tvfs/src/path.rs:149 | `split('/')` yields at least one piece, and no piece holds a `'/'` |
| VfsPath.SegmentsNoSlash | crates/tvfs/src/path.rs:149 | a string without `'/'` is a single piece |
| VfsPath.SegmentsConcat | crates/tvfs/src/path.rs:149 | splitting `a + "/" + b` is splitting `a`, then `b` |
| VfsPath.Fold | crates/tvfs/src/path.rs:149-159 | the fold of `split` keeps only real items: no `""`, `"."`, `".."` and no `'/'` |
| VfsPath.FoldAppend | crates/tvfs/src/path.rs:149-159 | folding two runs of pieces is folding the first, then the second from there |
| VfsPath.FoldItems | crates/tvfs/src/path.rs:151-156 | folding pieces that are already items appends them unchanged |
| VfsPath.Split | crates/tvfs/src/path.rs:148-160 | `split` yields only real items |
| VfsPath.Rebuild | crates/tvfs/src/path.rs:67-70 | the fold of `canonicalize` is `""` exactly for no items, and otherwise starts with `'/'` and ends with an item, not a `'/'` |
| VfsPath.SegmentsOfRebuild | crates/tvfs/src/path.rs:67-149 | the rebuilt string splits into `""` followed by the same items |
| VfsPath.SplitRebuild | crates/tvfs/src/path.rs:65-160 | splitting a rebuilt path, with or without the trailing `'/'`, gives the items back: `split` undoes `canonicalize` |
| VfsPath.CanonicalizeDotIsEmpty | crates/tvfs/src/path.rs:23-74 | as written, `Path::new(".")` canonicalises `"/."` to `""`, which is not an absolute path; the corrected version gives `"/"` |
| VfsPath.Canonical | crates/tvfs/src/path.rs:7-74 | the canonical path starts with `'/'`, has the same items as the input, and is a directory path exactly when the input was one or it names the root |
| VfsPath.CanonicalIdempotent | crates/tvfs/src/path.rs:65-74 | canonicalising twice is canonicalising once |
| VfsPath.CanonicalAgrees | crates/tvfs/src/path.rs:65-74 | for a path with at least one item, the code as written and the corrected version agree |
| VfsPath.LastSlash | crates/tvfs/src/path.rs:116-134 | `rfind('/')` finds a `'/'` with none after it |
| VfsPath.Last | crates/tvfs/src/path.rs:108-121 | `None` exactly at the root; otherwise the path's final item, a `'/'`-free tail of it preceded by `'/'`, with its trailing `'/'` for a directory path |
| VfsPath.Path.constructor | crates/tvfs/src/path.rs:23-31 | `new` prefixes a missing `'/'` and canonicalises; the result has the input's items and is canonical |
| VfsPath.Path.FromString | crates/tvfs/src/path.rs:163-168 | `From<String>` canonicalises the string as it is, keeping its items |
| VfsPath.Path.Rela | crates/tvfs/src/path.rs:39-45 | `rela` is the path without its leading `'/'`, and `""` for the root |
| VfsPath.Path.IsRoot | crates/tvfs/src/path.rs:53-55 | `is_root` holds exactly for the path `"/"` |
| VfsPath.Path.Canonicalize | crates/tvfs/src/path.rs:65-74 | the path becomes its canonical form, with the same items |
| VfsPath.Path.Pop | crates/tvfs/src/path.rs:126-142 | returns `last`; at the root the path stays `"/"`, otherwise what is left is the parent directory ending in `'/'`, and the old path is that followed by the item |
| VfsPath.Path.Join | crates/tvfs/src/path.rs:95-103 | the path becomes a directory path whose items are the old ones with `item`'s pieces folded on, so `".."` in it climbs |
| VfsPath.Path.Extend | crates/tvfs/src/path.rs:85-90 | fails its assertion, changing nothing, exactly when the path is not a directory path; otherwise the items become the old ones with `path`'s pieces folded on |
| Links.LinkTable.constructor | crates/vfs/src/link.rs:8-13 | both maps start empty |
| Links.LinkTable.GetPath | crates/vfs/src/link.rs:19-25 | the target path a link path maps to, and the path itself when it is no link |
| Links.LinkTable.GetNlink | crates/vfs/src/link.rs:28-34 | the stored link count, and 1 for a path never linked to |
| Links.LinkTable.AddLink | crates/vfs/src/link.rs:39-44 | the target's count becomes its old `get_nlink` plus one, the user path maps to the target, and nothing else changes |
| Links.LinkTable.RemoveLink | crates/vfs/src/link.rs:51-82 | the path stops being a link; its target (or itself) with a stored count loses one, and is removed and returned exactly when the count reaches 0; a path neither linked nor counted is returned at once |
| Links.LinkThenUnlink | crates/vfs/src/link.rs:39-64 | `add_link` of a fresh name and then `remove_link` of that name deletes nothing and restores the target's count and the name's resolution |
| OpenFlags.AccessModes | crates/tvfs/src/flag.rs:6-88 | `O_RDONLY` reads only, `O_WRONLY` writes only, `O_RDWR` does both; only the two low bits decide, and every word grants reading or writing |
| OpenFlags.ReadWriteAsWritten | crates/tvfs/src/flag.rs:72-80 | as written, the first answer is `readable`, and writing is granted only to a non-empty word |
| OpenFlags.ReadWrite | crates/tvfs/src/flag.rs:72-88 | the corrected `read_write` answers (`readable`, `writable`): reading exactly without `O_WRONLY`, writing exactly with `O_WRONLY` or `O_RDWR` |
| OpenFlags.ReadWriteDiffers | crates/tvfs/src/flag.rs:72-88 | the written `read_write` departs from `writable` exactly on non-empty words with neither `O_WRONLY` nor `O_RDWR` |
| OpenFlags.CreateReadOnly | crates/tvfs/src/flag.rs:15-84 | `O_RDONLY \| O_CREAT` is granted writing by the written `read_write`, though `writable` says no |
| OpenFlags.DirectoryMeansDsync | crates/tvfs/src/flag.rs:43-46 | as written `O_DIRECTORY` and `O_DSYNC` are the same bit, so a word naming one contains the other |
| OpenFlags.FlagShifts | crates/tvfs/src/flag.rs:9-67 | each one-bit flag is the power of two its octal constant names, in increasing order |
| OpenFlags.BitContains | crates/tvfs/src/flag.rs:72-88 | a one-bit word contains a one-bit flag exactly when they are the same bit |
| OpenFlags.FlagBitsDistinct | crates/tvfs/src/flag.rs:9-67 | with Linux's `O_DSYNC` (0o10000), every named flag is its own bit, contained by no other |
| Chunks.CopyInto | kernel/src/fs/fat/io.rs:87-120 | `copy_from_slice` puts the source bytes at the given place and changes nothing else |
| FatIo.NegativeTargetRejected | kernel/src/fs/fat/io.rs:141-146 | a `Current` or `End` seek before the start of the device wraps, as its `i64` sum is cast to `usize`, above `max_size`, so the seek fails |
| FatIo.BlockOf | kernel/src/fs/fat/io.rs:71-72 | `x / BLOCK_SIZE` is the block byte `x` lies in |
| FatIo.BlockBound | kernel/src/fs/fat/io.rs:76 | blocks are ordered as their starts are |
| FatIo.PieceStep | kernel/src/fs/fat/io.rs:76-82 | each piece of a transfer fits in its block and in what remains; a middle piece ends at the next block's start and the last takes all that remains |
| FatIo.OffsetInBlock | kernel/src/fs/fat/io.rs:77 | `block_ptr % BLOCK_SIZE` is the offset of `block_ptr` within its block |
| FatIo.FatIO.Contents | kernel/src/fs/fat/io.rs:14-25 | the device seen through the cache holds `BLOCK_SIZE` bytes per block |
| FatIo.FatIO.constructor | kernel/src/fs/fat/io.rs:29-35 | the cursor starts at 0 over a device of `FS_IMG_SIZE` bytes |
| FatIo.FatIO.Read | kernel/src/fs/fat/io.rs:69-97 | `min(max_size - pos, buf.len())` device bytes from `pos` land in the front of `buf`, the rest of `buf` is kept and the cursor moves past them; a read of nothing at position 0 panics (`Underflow`) and moves nothing |
| FatIo.FatIO.Write | kernel/src/fs/fat/io.rs:101-129 | `min(max_size - pos, buf.len())` bytes from the front of `buf` replace the device bytes at `pos`, every other device byte is kept and the cursor moves past them; a write of nothing at position 0 panics (`Underflow`) and moves nothing |
| FatIo.FatIO.ReadGuarded | kernel/src/fs/fat/io.rs:69-97 | the corrected `read`: the same bytes moved, and nothing moved instead of a panic when there is nothing to move |
| FatIo.FatIO.WriteGuarded | kernel/src/fs/fat/io.rs:101-129 | the corrected `write`: the same bytes moved, and nothing moved instead of a panic when there is nothing to move |
| FatIo.FatIO.Seek | kernel/src/fs/fat/io.rs:139-151 | the cursor moves to the target and returns it when it lies at or below `max_size`; otherwise `IOUnexpectedEof` with the cursor kept |
| FatIo.DeviceLength | kernel/src/fs/fat/io.rs:11 | a device of `n` blocks holds `n * BLOCK_SIZE` bytes |
| FatIo.ReadPiece | kernel/src/fs/fat/io.rs:86-89 | bytes `off..off + len` of block `k` are the device bytes from `k * BLOCK_SIZE + off` |
| FatIo.WritePiece | kernel/src/fs/fat/io.rs:118-121 | writing into block `k` at `off` writes the device at `k * BLOCK_SIZE + off` and nowhere else |
| FatIo.ReadBlocks | kernel/src/fs/fat/io.rs:71-94 | the loop of `read` copies exactly the `len` device bytes from `start` into the front of `buf` |
| FatIo.ReadLoop | kernel/src/fs/fat/io.rs:76-93 | the block-by-block loop keeps the front of `buf` filled with the device bytes read so far, and ends with all `len` of them |
| FatIo.WriteBlocks | kernel/src/fs/fat/io.rs:103-126 | the loop of `write` replaces exactly the `len` device bytes from `start` with the front of `buf` |
| FatIo.WriteLoop | kernel/src/fs/fat/io.rs:108-125 | the block-by-block loop keeps the device equal to the old one with the bytes written so far spliced in, and ends with all `len` of them |
| FatIo.WriteNext | kernel/src/fs/fat/io.rs:109-124 | one turn of the write loop writes the piece up to the block's end, or all that remains in the last block, and keeps the loop invariant |
| FatIo.WriteBlockPiece | kernel/src/fs/fat/io.rs:115-121 | writing one piece into its block grows the written prefix of the device by it |
| FatIo.ReadNext | kernel/src/fs/fat/io.rs:77-92 | one turn of the read loop reads the piece up to the block's end, or all that remains in the last block, and keeps the loop invariant |
| FatIo.ReadBlockPiece | kernel/src/fs/fat/io.rs:83-89 | reading one piece of a block into `buf` right after its filled front grows that front by the device bytes at `block_ptr` |
| FatIo.WriteThenRead | kernel/src/fs/fat/io.rs:69-151 | writing bytes, seeking back and reading them returns them, as many as fit below `max_size` |
| FatIo.EmptyReadAtStart | kernel/src/fs/fat/io.rs:70-72 | as written, a read into an empty buffer at position 0 panics; the corrected read moves nothing |
| BlockCaches.BlockDevice.ReadBlock | crates/device-cache/src/block.rs:17 | reading a block gives what was last written to it |
| BlockCaches.BlockDevice.WriteBlock | crates/device-cache/src/block.rs:23 | writing a block replaces that block only, and it reads back |
| BlockCaches.BlockCacheUnit.constructor | crates/device-cache/src/block.rs:69-78 | a new unit holds the block as the device has it, and is clean |
| BlockCaches.BlockCacheUnit.Sync | crates/device-cache/src/block.rs:44-49 | a dirty unit is written back to its block and becomes clean; a clean one leaves the device alone |
| BlockCaches.BlockCacheUnit.SetDirty | crates/device-cache/src/block.rs:55-57 | the unit becomes dirty and its bytes are kept |
| BlockCaches.BlockCacheUnit.Write | crates/device-cache/src/lib.rs:55-90 | `get_mut`'s assertion fails, changing nothing, exactly when the bytes would run past the block; otherwise exactly those bytes are stored at the offset and the unit is marked dirty |
| BlockCaches.WriteSyncReload | crates/device-cache/src/block.rs:44-78 | bytes written into a unit reach the device on `sync`, and a unit loaded afresh reads them back |
| BlockCaches.FindId | crates/device-cache/src/block.rs:126-199 | `iter().find` gives the first entry for the block, or `None` exactly when no entry has it |
| BlockCaches.FirstEvictable | crates/device-cache/src/block.rs:132-212 | the first entry from the front whose unit only the cache holds, or `None` exactly when every unit is held elsewhere too |
| BlockCaches.Without | crates/device-cache/src/block.rs:138-213 | removing entry `k` shifts the later entries down by one |
| BlockCaches.MoveToBackPermutes | crates/device-cache/src/block.rs:202-204 | moving a hit to the back of the LRU list only reorders the entries |
| BlockCaches.SoundAfterReplace | crates/device-cache/src/block.rs:207-219 | evicting an entry and appending a unit for a block not cached keeps one entry per block, within capacity |
| BlockCaches.WithoutKeeps | crates/device-cache/src/block.rs:202-213 | removing an entry keeps the blocks distinct, drops that block, and keeps only entries already there |
| BlockCaches.LRUBlockCache.constructor | crates/device-cache/src/block.rs:177-182 | a new LRU cache is empty, with the given capacity |
| BlockCaches.LRUBlockCache.GetBlock | crates/device-cache/src/block.rs:189-222 | a hit moves to the back and its unit is returned, the device untouched; a miss below capacity appends a fresh clean unit loaded from the device; a full cache drops its front-most unit held by it alone, writing it back if dirty, or panics when there is none |
| BlockCaches.LRUBlockCache.SyncAll | crates/device-cache/src/block.rs:224-228 | every cached unit becomes clean with its bytes kept, and the device gets each dirty unit written back in list order |
| BlockCaches.KeptOnly | crates/device-cache/src/block.rs:189-222 | after `get_block` the cache holds only blocks it held before and the one requested |
| BlockCaches.Snapshot | crates/device-cache/src/block.rs:154-225 | the id, bytes and dirty flag of each cached unit, in list order |
| BlockCaches.WriteBack | crates/device-cache/src/block.rs:154-156 | writing back a snapshot loses no block, and leaves every block no dirty unit holds as it was |
| BlockCaches.SyncEach | crates/device-cache/src/block.rs:154-227 | syncing the units in turn cleans each, keeps its bytes, and leaves the device as `WriteBack` states |
| BlockCaches.FIFOBlockCache.constructor | crates/device-cache/src/block.rs:108-113 | a new FIFO cache is empty, with the given capacity |
| BlockCaches.FIFOBlockCache.GetBlock | crates/device-cache/src/block.rs:121-151 | a hit returns its unit where it stands; a miss below capacity appends a fresh clean unit loaded from the device; a full cache drops its first unit held by it alone, writing it back if dirty, or panics when there is none |
| BlockCaches.FIFOBlockCache.SyncAll | crates/device-cache/src/block.rs:153-157 | every cached unit becomes clean with its bytes kept, and the device gets each dirty unit written back in list order |
| BlockCaches.LruEvictsLeastRecent | crates/device-cache/src/block.rs:189-222 | an LRU cache of two that served blocks 1, 2 and 1 again evicts block 2 for block 3 |
| BlockCaches.LruReused | crates/device-cache/src/block.rs:200-205 | after blocks 1, 2 and 1 again, block 2 is the least recent, at the front |
| BlockCaches.FifoEvictsOldest | crates/device-cache/src/block.rs:126-148 | the FIFO cache, given the same requests, evicts block 1, the first loaded |
| MemFs.PageOf | crates/tmemfs/src/lib.rs:61-62 | `x / PAGE_SIZE` is the frame byte `x` lies in |
| MemFs.PageBound | crates/tmemfs/src/lib.rs:63 | frames are ordered as their starts are |
| MemFs.OffsetInPage | crates/tmemfs/src/lib.rs:65-81 | `pos & (PAGE_SIZE - 1)` is the offset of `pos` within its frame |
| MemFs.PieceStep | crates/tmemfs/src/lib.rs:63-69 | each piece `min(PAGE_SIZE - off, end - pos)` fits in its frame and in what remains; a middle piece ends at the next frame's start and the last takes all that remains |
| MemFs.FramesLength | crates/tmemfs/src/lib.rs:113-115 | the frames hold `PAGE_SIZE` bytes each |
| MemFs.FrameSlice | crates/tmemfs/src/lib.rs:64-67 | bytes `off..off + len` of frame `k` are the file's bytes from `k * PAGE_SIZE + off` |
| MemFs.PieceAt | crates/tmemfs/src/lib.rs:64-67 | the bytes from `pos` in its own frame are the file's bytes from `pos` |
| MemFs.UpdateAt | crates/tmemfs/src/lib.rs:80-83 | writing a piece at `pos` in its own frame writes the file at `pos` and nowhere else |
| MemFs.FrameUpdate | crates/tmemfs/src/lib.rs:80-83 | writing into frame `k` at `off` writes the file at `k * PAGE_SIZE + off` and nowhere else |
| MemFs.RelativeSeekStaysInFile | crates/tmemfs/src/lib.rs:92-108 | a `Current` or `End` seek never puts the cursor past `max_size` |
| MemFs.RelativeSeekReachesAll | crates/tmemfs/src/lib.rs:92-108 | every position up to `max_size` is reachable from the cursor and from the end with the wrapped difference as offset |
| MemFs.SeekBelowZeroRefused | crates/tmemfs/src/lib.rs:93-96 | a `Current` seek whose signed sum is negative returns `None` |
| MemFs.MemFile.Contents | crates/tmemfs/src/lib.rs:14-20 | the file's bytes: `PAGE_SIZE` per frame |
| MemFs.MemFile.Size | crates/tmemfs/src/lib.rs:113-115 | `get_size` is the number of bytes the frames hold |
| MemFs.MemFile.constructor | crates/tmemfs/src/lib.rs:23-48 | as written, `fill_with` on an empty vector fills nothing: the file has no frames and size 0, with the cursor at 0 |
| MemFs.MemFile.Allocated | crates/tmemfs/src/lib.rs:23-48 | the corrected `new`: `limit / PAGE_SIZE` frames, so the size is `limit` |
| MemFs.MemFile.Read | crates/tmemfs/src/lib.rs:57-71 | as written: panics (`Underflow`) exactly when the cursor is past `max_size` or nothing is to be read; otherwise completes only when the transfer is one piece filling `buf`, which then holds the file's bytes from `pos`, and the cursor moves past them; completing with 0 bytes leaves `buf` unchanged |
| MemFs.MemFile.Write | crates/tmemfs/src/lib.rs:73-87 | as written: the same underflow panics; otherwise completes only when the transfer is one piece taking all of `buf`, which then replaces the file's bytes at `pos`, and the cursor moves past them |
| MemFs.MemFile.ReadPiecewise | crates/tmemfs/src/lib.rs:57-71 | the corrected `read`: `min(buf.len(), max_size - pos)` file bytes from the cursor into the front of `buf`, none past `max_size`, and the cursor moves past them |
| MemFs.MemFile.WritePiecewise | crates/tmemfs/src/lib.rs:73-87 | the corrected `write`: as many bytes of `buf` as fit below `max_size` replace the file's bytes from the cursor, none past `max_size`, and the cursor moves past them |
| MemFs.MemFile.Seek | crates/tmemfs/src/lib.rs:89-111 | `Set` moves anywhere; `Current` and `End` move to the signed sum when it is in `[0, max_size]` and otherwise return `None` with the cursor kept |
| MemFs.ReadPages | crates/tmemfs/src/lib.rs:61-69 | the frame loop copies exactly the `len` file bytes from `start` into the front of `buf` |
| MemFs.ReadStep | crates/tmemfs/src/lib.rs:64-68 | one turn reads the piece of frame `i` from the cursor after the filled front of `buf`, moving to the next frame's start or to the end |
| MemFs.ReadFramePiece | crates/tmemfs/src/lib.rs:64-67 | reading one frame piece grows the filled front of `buf` by the file's bytes at the cursor |
| MemFs.WritePages | crates/tmemfs/src/lib.rs:77-85 | the frame loop replaces exactly the `len` file bytes from `start` with the front of `buf` |
| MemFs.WriteFramePiece | crates/tmemfs/src/lib.rs:80-84 | writing one frame piece grows the written prefix of the file by it |
| MemFs.WriteThenRead | crates/tmemfs/src/lib.rs:57-111 | with the corrected transfers, writing bytes, seeking back and reading returns them, as many as fit below `max_size` |
| MemFs.NewFileIsEmpty | crates/tmemfs/src/lib.rs:23-71 | as written, a new file has size 0 and a one-byte read panics indexing its frames |
| MemFs.CrossFrameRead | crates/tmemfs/src/lib.rs:63-67 | a 200-byte read from 4000 crosses a frame: as written `copy_from_slice` panics on a piece shorter than `buf`; the corrected read returns all 200 bytes |
| MemFs.ReadPastLimit | crates/tmemfs/src/lib.rs:59-101 | after a `Set` seek past `max_size`, a read underflows as written and moves nothing when corrected |
| FileDescriptors.FDManager.constructor | kernel/src/fs/fd.rs:33-44 | a new table holds stdin, stdout and stderr on descriptors 0, 1 and 2, nothing recycled, the default limit and umask 0 |
| FileDescriptors.FDManager.Get | kernel/src/fs/fd.rs:47-53 | `FDNotFound` exactly past the end of the list or on an empty slot; otherwise the file in that slot |
| FileDescriptors.FDManager.Take | kernel/src/fs/fd.rs:56-63 | returns what `get` returns; on success the slot empties and the descriptor is recycled, on failure nothing changes |
| FileDescriptors.FDManager.RemoveAsWritten | kernel/src/fs/fd.rs:66-70 | as written: fails exactly when `get` fails, yet recycles the descriptor then; on success it recycles it twice |
| FileDescriptors.FDManager.Remove | kernel/src/fs/fd.rs:66-70 | the corrected `remove`: empties the slot and recycles the descriptor once when it was open, and changes nothing with `FDNotFound` otherwise; the table stays sound |
| FileDescriptors.FDManager.Alloc | kernel/src/fs/fd.rs:73-85 | the most recently recycled descriptor; else a new empty slot at the end while the list stays within `limit`; else `FDOutOfBound` with nothing changed; in a sound table the descriptor is free |
| FileDescriptors.FDManager.Push | kernel/src/fs/fd.rs:90-94 | the file lands on the descriptor `alloc` gives and `get` returns it; `FDOutOfBound` exactly when nothing is recycled and the list is at `limit`; in a sound table no open file is replaced |
| FileDescriptors.PushTwiceDistinct | kernel/src/fs/fd.rs:73-94 | in a sound table two pushes give two different descriptors, and both files stay open |
| FileDescriptors.RemoveThenOpenTwiceAsWritten | kernel/src/fs/fd.rs:66-92 | as written, closing stdout and opening two files hands out descriptor 1 twice, and the second file replaces the first |
| FileDescriptors.RemoveThenOpenTwice | kernel/src/fs/fd.rs:66-94 | with the corrected `remove`, the same steps give descriptors 1 and 3 |
| FileDescriptors.RemoveUnopened | kernel/src/fs/fd.rs:66-70 | as written, closing descriptor 100 of a three-slot table fails yet leaves 100 recycled |
| IdAlloc.RecycleAllocator.constructor | crates/id-alloc/src/lib.rs:20-25 | a new allocator counts from `current` with nothing recycled, so exactly the ids below `current` count as handed out |
| IdAlloc.RecycleAllocator.Alloc | crates/id-alloc/src/lib.rs:29-37 | pops the last recycled id; else counts `current` up and returns the old value, the `assert_ne!` panicking (`None`, the counter at `usize::MAX`) when the count reaches `usize::MAX`; an id returned was not outstanding and now is |
| IdAlloc.RecycleAllocator.Dealloc | crates/id-alloc/src/lib.rs:39-41 | the id is pushed for reuse; returning an outstanding id keeps the recycled ids distinct, so no id is handed out twice |
| IdAlloc.IdAllocScenario | crates/id-alloc/src/lib.rs:48-56 | from 0 the allocator hands out 0, 1, 2, and 1 again after 1 is returned |
| SigSetBits.Zero | crates/signal-defs/src/sigset.rs:7-13 | the word 0 has no bit set |
| SigSetBits.Or | crates/signal-defs/src/sigset.rs:28-48 | a bit of `a \| b` is set exactly when it is set in either |
| SigSetBits.AndNot | crates/signal-defs/src/sigset.rs:38-58 | a bit of `a & !b` is set exactly when it is set in `a` and clear in `b` |
| SigSetBits.And | crates/signal-defs/src/sigset.rs:53 | a bit of `a & b` is set exactly when it is set in both |
| SigSetBits.Single | crates/signal-defs/src/sigset.rs:28-38 | `1 << kth` has exactly bit `kth % 64` set, the shift amount masked as a release build does |
| SigSetBits.SigSet.constructor | crates/signal-defs/src/sigset.rs:7-66 | the set holds exactly the bits given |
| SigSetBits.SigSet.Clear | crates/signal-defs/src/sigset.rs:12-14 | afterwards the set is empty and no signal is in it |
| SigSetBits.SigSet.Set | crates/signal-defs/src/sigset.rs:27-29 | bit `kth` becomes set and every other bit is kept |
| SigSetBits.SigSet.Unset | crates/signal-defs/src/sigset.rs:37-39 | bit `kth` becomes clear and every other bit is kept |
| SigSetBits.SigSet.SetMask | crates/signal-defs/src/sigset.rs:32-34 | a signal is in the set afterwards exactly when it was before or the mask has it |
| SigSetBits.SigSet.UnsetMask | crates/signal-defs/src/sigset.rs:42-44 | a signal is in the set afterwards exactly when it was before and the mask lacks it |
| SigSetBits.SigSet.Union | crates/signal-defs/src/sigset.rs:47-49 | the set becomes the signals in either set |
| SigSetBits.SigSet.Intersection | crates/signal-defs/src/sigset.rs:52-54 | the set becomes the signals in both sets |
| SigSetBits.SigSet.Difference | crates/signal-defs/src/sigset.rs:57-59 | the set becomes its signals not in `other` |
| SigSetBits.EmptyIffNoSignal | crates/signal-defs/src/sigset.rs:17-24 | `is_empty` holds exactly when `get` is false for every signal |
| SigSetBits.SetUnsetRestores | crates/signal-defs/src/sigset.rs:27-39 | setting then unsetting a clear signal restores the set, and unsetting then setting a set one does too |
| SigAction.GetHandler | crates/signal-defs/src/sigaction.rs:127-136 | `None` exactly under `SA_SIGINFO`, `SIG_DFL` or `SIG_IGN`; otherwise the handler address, which lies above `SIG_IGN` |
| SigAction.IgnoredHasNoHandler | crates/signal-defs/src/sigaction.rs:107-141 | an ignored action has no user handler, and the default action is neither ignored nor handled |
| SigAction.SigActions.constructor | crates/signal-defs/src/sigaction.rs:173-175 | every one of the `NSIG` slots starts empty |
| SigAction.SigActions.GetRefAsWritten | crates/signal-defs/src/sigaction.rs:178-181 | as written, `get_ref` overwrites the slot with the default action and returns that, whatever the slot held |
| SigAction.SigActions.GetRef | crates/signal-defs/src/sigaction.rs:177-181 | the corrected `get_ref`: the stored action, unchanged, and the default put in only for an empty slot |
| SigAction.SigActions.Store | crates/signal-defs/src/sigaction.rs:184-187 | installing an action through `get_mut` sets that slot and no other |
| SigAction.SigActions.GetHandlerOf | crates/signal-defs/src/sigaction.rs:192-196 | `None` for an empty slot, otherwise the stored action's `get_handler` |
| SigAction.GetRefErasesHandler | crates/signal-defs/src/sigaction.rs:178-196 | installing a handler at 0x8000 for signal 10 and reading it back: as written `get_ref` returns `SIG_DFL` and erases the handler; corrected, it returns the handler |
| SigAction.SigIgnored | kernel/src/task/task.rs:382-394 | a blocked signal is never ignored; an unblocked one under `SIG_IGN` always is; only `SIG_IGN`, or `SIG_DFL` with a default of ignoring, make a signal ignored; a user handler never does |
| SigAction.SigIgnoredAgreesWithAction | crates/signal-defs/src/sigaction.rs:127-141 | the kernel's `sig_ignored` agrees with `is_ignored` for unblocked signals, and never ignores a signal with a user handler |
| ClockId.Not | crates/ttimer/src/lib.rs:52-62 | `!x` on a `usize` is `usize::MAX - x` |
| ClockId.ToI32 | crates/ttimer/src/lib.rs:52-57 | `as i32` keeps the low 32 bits |
| ClockId.ToUsize | crates/ttimer/src/lib.rs:62-77 | `i32 as usize` sign-extends, keeping the low 32 bits |
| ClockId.ConstructorsRoundTrip | crates/ttimer/src/lib.rs:51-78 | `get_type` reads back the clock type either constructor stored, and `is_proc`/`is_thread` tell `new_proc` from `new_thread` |
| ClockId.ShiftedIsMultiple | crates/ttimer/src/lib.rs:52-57 | `x << 3` leaves the low three bits clear for the type and thread bit |
| ClockId.AddLow | crates/ttimer/src/lib.rs:52-57 | or-ing small values into the cleared low bits gives exactly those low bits |
| ClockId.LowBitsThroughI32 | crates/ttimer/src/lib.rs:52-72 | the low three bits survive the cast to `i32` and back |
| ClockId.FieldsOfLowBits | crates/ttimer/src/lib.rs:36-72 | bits 1..0 and bit 2 are read off the low three bits |
| ClockId.GetPidAsWrittenSetsTopBits | crates/ttimer/src/lib.rs:52-62 | as written, the logical shift of the sign-extended id leaves the top three bits clear, so the complement sets them: pid 1 reads back as `1 + 7 * 2^61` |
| ClockId.GetPidRoundTrip | crates/ttimer/src/lib.rs:36-63 | the corrected `get_pid` (an arithmetic shift) reads back every pid whose complement fits the 29-bit field, for both constructors |
| ClockId.PackedValue | crates/ttimer/src/lib.rs:52 | for such a pid the packed `i32` is `low - 8 * (pid + 1)` |
| ClockId.ShiftBack | crates/ttimer/src/lib.rs:62 | shifting that packed value back arithmetically and complementing it gives the pid |
| TimeSpecArith.Add | crates/ttimer/src/spec.rs:36-46 | normalised operands give a normalised sum; without overflow of the seconds its nanoseconds total is the sum of the two; a carry moves exactly one second |
| TimeSpecArith.AddCommutes | crates/ttimer/src/spec.rs:36-46 | adding times is commutative |
| TimeSpecArith.AddAssign | crates/ttimer/src/spec.rs:50-60 | `+=` leaves the time equal to `self + rhs` |
| UIntr.ValidIsTopBit | kernel/src/arch/riscv64/uintr.rs:75-77 | `is_valid`'s `bits >> 63 != 0` is bit 63 being set |
| UIntr.ValidReadBack | kernel/src/arch/riscv64/uintr.rs:75-86 | after `set_valid(v)`, `is_valid` returns `v` |
| UIntr.ValidKeepsRest | kernel/src/arch/riscv64/uintr.rs:80-86 | `set_valid` changes no bit but bit 63 |
| UIntr.VecReadBack | kernel/src/arch/riscv64/uintr.rs:89-97 | after `set_vec(v)`, `get_vec` returns the low sixteen bits of `v` |
| UIntr.VecKeepsRest | kernel/src/arch/riscv64/uintr.rs:18-92 | `set_vec` changes no bit outside `UISTE_VEC_MASK` |
| UIntr.VecKeepsFields | kernel/src/arch/riscv64/uintr.rs:89-108 | `set_vec` keeps the valid bit and the index |
| UIntr.IndexReadBack | kernel/src/arch/riscv64/uintr.rs:100-108 | after `set_index(i)`, `get_index` returns the low sixteen bits of `i` |
| UIntr.IndexKeepsRest | kernel/src/arch/riscv64/uintr.rs:20-103 | `set_index` changes no bit outside `UISTE_INDEX_MASK`, and keeps the vector |
| UIntr.IndexClearsValid | kernel/src/arch/riscv64/uintr.rs:20-103 | as written the index mask takes in bit 63, so `set_index(0)` disables a valid entry |
| UIntr.ValidShowsInIndex | kernel/src/arch/riscv64/uintr.rs:20-108 | as written a valid entry with index 5 reads back index `0x8005` |
| UIntr.IndexFieldReadBack | kernel/src/arch/riscv64/uintr.rs:100-108 | with the index field kept off bit 63, the index reads back as its low fifteen bits |
| UIntr.IndexFieldKeepsFields | kernel/src/arch/riscv64/uintr.rs:80-103 | with the index field kept off bit 63, setting the index keeps the valid bit and the vector |
| UIntr.FieldsKeepIndexField | kernel/src/arch/riscv64/uintr.rs:80-92 | setting the valid bit or the vector keeps the index field |
| UIntr.Uiste.constructor | kernel/src/arch/riscv64/uintr.rs:71 | an entry holds the 64-bit word given |
| UIntr.Uiste.SetValid | kernel/src/arch/riscv64/uintr.rs:80-86 | the entry is enabled or disabled and no other bit changes |
| UIntr.Uiste.SetVec | kernel/src/arch/riscv64/uintr.rs:89-92 | the vector's low sixteen bits go to bits 16..31, clearing what was there |
| UIntr.Uiste.SetIndex | kernel/src/arch/riscv64/uintr.rs:100-103 | the index's low sixteen bits go under `UISTE_INDEX_MASK`, bit 63 among them |
| UIntr.SetIndexDisables | kernel/src/arch/riscv64/uintr.rs:20-103 | a valid entry given receiver index 3 is no longer valid as written, and stays valid with the index field kept off bit 63 |
| UIntr.UIntrSender.constructor | kernel/src/arch/riscv64/uintr.rs:36-44 | `pages` frames, `limit` = `PAGE_SIZE * pages / 8` entries (the product wrapping), and an allocator counting from 0 |
| UIntr.UIntrSender.Get | kernel/src/arch/riscv64/uintr.rs:47-54 | as written: `None` exactly for an index above `limit`, otherwise the address `index * 8` past the first frame |
| UIntr.UIntrSender.GetInTable | kernel/src/arch/riscv64/uintr.rs:47-54 | the corrected `get`: `None` exactly for an index at or past `limit`, so every address it gives lies inside the table |
| UIntr.UIntrSender.Alloc | kernel/src/arch/riscv64/uintr.rs:57-60 | the allocator's next id when it lies below `limit`, else `None`; either way the id is taken from the allocator (its recycled list or counter moves and the id becomes outstanding); an id returned was not outstanding before |
| UIntr.UIntrSender.Dealloc | kernel/src/arch/riscv64/uintr.rs:63-67 | an id below `limit` goes back to the allocator; any other is ignored |
| UIntr.GetPastTable | kernel/src/arch/riscv64/uintr.rs:47-54 | in a one-frame table of 512 entries, `get(512)` gives the address just past the table as written; the corrected lookup refuses it |
| UIntr.LeadingOnes | kernel/src/arch/riscv64/uintr.rs:203 | `leading_ones` counts the set bits from bit 63 down, stopping at the first clear one |
| UIntr.TrailingOnes | kernel/src/arch/riscv64/uintr.rs:203-204 | the number of set bits from bit 0 up, stopping at the first clear one |
| UIntr.TaskUIntrInner.constructor | kernel/src/arch/riscv64/uintr.rs:191-199 | no sender vector taken, and `utvec` and `uscratch` at 0 |
| UIntr.TaskUIntrInner.Alloc | kernel/src/arch/riscv64/uintr.rs:202-206 | as written: `i` counts set bits from bit 63 down, and bit `i` counted from bit 0 is set and returned; with every bit set `set_bit(64)` panics |
| UIntr.TaskUIntrInner.AllocLowestFree | kernel/src/arch/riscv64/uintr.rs:201-206 | the corrected `alloc`: the lowest free vector, which was free and is now taken; `None` exactly when all 64 are taken |
| UIntr.TaskUIntrInner.Dealloc | kernel/src/arch/riscv64/uintr.rs:209-211 | vector `i` becomes free and nothing else changes |
| UIntr.AllocTwice | kernel/src/arch/riscv64/uintr.rs:202-211 | from a new task, two allocations as written both return vector 0; corrected they return 0 then 1, and 1 again after it is freed |
| UIntr.AllocDistinct | kernel/src/arch/riscv64/uintr.rs:202-206 | with the corrected `alloc`, two allocations never return the same vector |
| Sched.QueueScheduler.constructor | kernel/src/task/sched.rs:35-39 | a new scheduler has an empty queue |
| Sched.QueueScheduler.Add | kernel/src/task/sched.rs:48-50 | `task` is appended at the back of the queue |
| Sched.QueueScheduler.FetchAsWritten | kernel/src/task/sched.rs:52-72 | as written (test mode off): an empty queue panics on `unwrap`; otherwise one step of `FetchFront` |
| Sched.QueueScheduler.Fetch | kernel/src/task/sched.rs:52-72 | the corrected `fetch`: `None` on an empty queue, otherwise the front task when it is runnable (it leaves the queue), and `None` with the front task rotated to the back when it is not |
| Sched.FetchFront | kernel/src/task/sched.rs:61-70 | a runnable front task is handed out and leaves the queue; any other goes to the back and nothing is handed out |
| Sched.FetchKeepsTasks | kernel/src/task/sched.rs:61-70 | `fetch` loses no task: the queue keeps the same tasks, or the handed-out task plus the new queue are the old queue |
| Sched.EmptyQueueFetch | kernel/src/task/sched.rs:53-61 | on an empty queue outside test mode the written `fetch` panics and the corrected one returns `None` |
| TaskExit.ValidChildCases | kernel/src/task/exit.rs:115-141 | `valid_child`: a positive pid that differs from the child's rejects it; under `__WALL` only the pid decides; otherwise a clone child matches only with `__WCLONE` and a `SIGCHLD` child only without it |
| TaskExit.ScanMeaning | kernel/src/task/exit.rs:159-186 | the scan of the child list finds the first ready child with no matching stopped child before it; it reports "no valid child" exactly when no child matches, and "not ready" only when no child is ready or stopped |
| TaskExit.Scan | kernel/src/task/exit.rs:159-186 | the loop over `children` computes exactly the scan above |
| TaskExit.DoWaitAsWritten | kernel/src/task/exit.rs:144-214 | as written, the loop starts over after reaping, so no reaped pid is ever returned: it ends in `ECHILD` (or sleeps), the reaped children leave the list, and when every child is ready all are reaped and the result is `ECHILD` |
| TaskExit.DoWait | kernel/src/task/exit.rs:144-198 | the corrected `do_wait`: the found child leaves the list and its pid is returned; `ECHILD` exactly when no child matches, or none is ready under `WNONHANG`; the caller sleeps exactly when matching children exist, none is ready and `WNONHANG` is absent; a stopped child hits `todo!` |
| TaskExit.WaitForExitedChild | kernel/src/task/exit.rs:187-198 | one exited child: the written loop answers `ECHILD`, the corrected one returns pid 2 |
| TaskExit.HandleZombie | kernel/src/task/exit.rs:64-73 | every child is re-parented to the init task and appended in order to its children; the exiting task's list is emptied and it becomes a zombie |
| Clone.DoClone | kernel/src/task/clone.rs:92-200 | `EINVAL` exactly for `CLONE_NEWNS`/`CLONE_FS`, for `CLONE_THREAD` without `CLONE_SIGHAND`, for `CLONE_SIGHAND` without `CLONE_VM`, or for a non-thread whose `CSIGNAL` byte is not a valid signal; a thread takes the caller's pid and `SIGNONE`, any other child its own tid and the `CSIGNAL` byte; the child tids are `ctid` only under their flags; the VM, files, handlers and parent are shared exactly under their flags |
| Clone.CloneSharing | kernel/src/task/clone.rs:96-111 | every created child that shares signal handlers also shares the address space, and none shares filesystem information |
| Clone.ThreadBelongsToCaller | kernel/src/task/clone.rs:143-151 | a well-formed thread request always succeeds and yields a task in the caller's thread group |
| StackLayout.LayoutInRange | kernel/src/task/kstack.rs:28-32 | the layout shared by `kstack_layout` and `ustack_layout`: without wrap-around, stack `id` is `size` bytes whose base lies `id` strides of `size + PAGE_SIZE` below the limit, returned as `(top, base - ADDR_ALIGN)` |
| StackLayout.LayoutsSeparated | kernel/src/task/kstack.rs:28-32 | two stacks with different ids are disjoint, the lower one's base at least one guard page below the higher one's top, and exactly one page for neighbouring ids |
| StackLayout.KstackLayout | kernel/src/task/kstack.rs:28-32 | a kernel stack is `KERNEL_STACK_SIZE` bytes, page-aligned and below the trampoline; from id 1 on a guard page separates it from the trampoline |
| StackLayout.KstacksDisjoint | kernel/src/task/kstack.rs:28-32 | distinct kernel stack ids give disjoint stacks with a guard page between them |
| StackLayout.KstackAllocatorStart | kernel/src/task/kstack.rs:12-18 | the kernel stack allocator starts at 1, so the first stack handed out keeps a guard page below the trampoline |
| StackLayout.TrapframeBase | kernel/src/task/task.rs:317-319 | a trapframe base is always page-aligned and, without wrap-around, lies `tid + 1` pages below the trampoline |
| StackLayout.TrapframeBaseInjective | kernel/src/task/task.rs:317-319 | different tasks get different trapframe pages |
| StackLayout.UstackLayout | kernel/src/task/task.rs:341-345 | a user stack is `USER_STACK_SIZE` bytes, page-aligned and below `USER_STACK_BASE` |
| StackLayout.UstacksDisjoint | kernel/src/task/task.rs:341-345 | distinct task ids give disjoint user stacks with a guard page between them |
| TrapFrames.CloneRegs | kernel/src/arch/riscv64/trap/trapframe.rs:65-80 | a cloned child's registers are the parent's except `a0 = 0`, `sp = stack` when `stack` is not 0, and `tp = tls` under `CLONE_SETTLS` |
| TrapFrames.TrapFrame.constructor | kernel/src/arch/riscv64/trap/trapframe.rs:34-54 | a new frame holds the given kernel and user fields, with every register 0 except `sp`, the user stack pointer |
| TrapFrames.TrapFrame.CopyFrom | kernel/src/arch/riscv64/trap/trapframe.rs:57-81 | the frame becomes the parent's, with the new kernel stack and the registers of `CloneRegs` |
| TrapFrames.TrapFrame.SyscallNo | kernel/src/arch/riscv64/trap/trapframe.rs:84-86 | the call number is register a7 |
| TrapFrames.TrapFrame.SyscallArgs | kernel/src/arch/riscv64/trap/trapframe.rs:91-104 | an unsupported number is returned as the error, exactly when it is unsupported; otherwise the number and the six arguments a0..a5 in order |
| TrapFrames.TrapFrame.NextEpc | kernel/src/arch/riscv64/trap/trapframe.rs:107-109 | the user pc advances by 4, wrapping as `usize`, and nothing else changes |
| TrapFrames.TrapFrame.SetA0 | kernel/src/arch/riscv64/trap/trapframe.rs:117-119 | only register a0 changes |
| TrapFrames.TrapFrame.SetSp | kernel/src/arch/riscv64/trap/trapframe.rs:122-124 | only register sp changes |
| TrapFrames.TrapFrame.SetTp | kernel/src/arch/riscv64/trap/trapframe.rs:127-129 | only register tp changes |
| OsComp.Kept | crates/oscomp/src/lib.rs:81-99 | the characters a line contributes to its arguments are at most the line: everything but the spaces outside double quotes |
| OsComp.TokensNonEmpty | crates/oscomp/src/lib.rs:89-97 | `split_argv` never emits an empty argument |
| OsComp.TokensFlatten | crates/oscomp/src/lib.rs:81-99 | the arguments laid end to end are exactly the kept characters: only unquoted spaces are dropped and quotes stay inside the arguments |
| OsComp.QuotedArgument | crates/oscomp/src/lib.rs:86-88 | a quoted argument keeps its spaces and its quotes: `c "x y"` gives `c` and `"x y"` |
| OsComp.SplitArgv | crates/oscomp/src/lib.rs:81-99 | the loop with `start` and `in_quotation` computes the token split above, with no empty argument and nothing but unquoted spaces lost |
| OsComp.TestManager.constructor | crates/oscomp/src/lib.rs:31-38 | no cases, no passes, nothing running, nothing failed |
| OsComp.TestManager.Init | crates/oscomp/src/lib.rs:41-43 | only the case list is set |
| OsComp.TestManager.Load | crates/oscomp/src/lib.rs:46-51 | one more run of the name is outstanding, starting from 1; nothing else changes |
| OsComp.TestManager.Exit | crates/oscomp/src/lib.rs:54-69 | an unknown name is ignored; otherwise code 0 adds a pass, any other code appends the name to the failures, and the name's count drops by one |
| OsComp.LoadThenExit | crates/oscomp/src/lib.rs:46-69 | loading a test and then reporting its exit records exactly one result and leaves every outstanding count as it was |
| CString.Strlen | sbi/libs/string.c:10-14 | the count ends at the first NUL at or after `s`: that byte is 0 and none before it is |
| CString.Memset | sbi/libs/string.c:16-20 | the `n` bytes from `s` become `c`, every other byte is unchanged, and `s` is returned |
| CString.Memmove | sbi/libs/string.c:22-32 | the `n` bytes at `dst` become the bytes that were at `src`, for overlapping ranges too; every other byte is unchanged and `dst` is returned |
| CString.Memcpy | sbi/libs/string.c:34-41 | for ranges where `dst` is not inside the source range above `src`, the `n` bytes at `dst` become those at `src`, every other byte is unchanged and `dst` is returned |
| CString.Compare | sbi/libs/string.c:43-53 | the reference comparison is 0 exactly for equal ranges and otherwise lies strictly between -256 and 256 |
| CString.CompareIsFirstDifference | sbi/libs/string.c:46-51 | a nonzero comparison is the unsigned difference at the first position where the ranges differ |
| CString.Memcmp | sbi/libs/string.c:43-53 | the loop returns the reference comparison of the two `n`-byte ranges |

## Left out

Outside the model altogether:
- Concurrency and locking: every spin lock, mutex and `Arc` is dropped, and each operation runs alone.
- Interrupt masking, inline assembly, the trampoline code itself, context switches, trap dispatch and the system-call plumbing.
- Device drivers and the UART, CLINT and user-interrupt controller MMIO.
- The buddy allocator (`buddy_system_allocator`) is not part of this model. Frames come from an abstract supply of fresh, distinct frames, and the model treats running out as an error.
- The `fatfs` crate behind the FAT file, and ELF loading (`xmas_elf`).
- Floating point: `TimeSpec::new`, `time_in_sec` and `TimeVal`.
- Logging (`log::trace!`, `warn!`, `info!`), and `TestManger::info`, which only prints.

Page tables:
- `PageTableTmm.PageTable.Walk`: table frames are assumed zero-filled. The code allocates them with `AllocatedFrames::new(1)` (crates/tmm_rv/src/frame.rs:25-37), which does not clear the frame. The source does not meet this assumption. Without it, a fresh depth-1 table may hold stale valid entries, and `map` can then succeed on a page that was never mapped. The claim that `PageTableTmm.PageTable.Map` succeeds only on a page already mapped holds under the zero-filling assumption only.
- `PageTableTmm.PageTable.Walk`: the walk follows `Pte.Frame`, the PPN field, where the code calls `entry.frame()`. As written, `entry.frame()` is `Pte.FrameAsWritten`, one frame too far whenever any flag is set (see "## Findings").
- `PageTableTmm.PageTable.Translate`: the walk uses `Addr.Ceil`, the page holding `va`, where the code walks `Page::floor(va)`. As written, that is `PageTableMmRv.TranslateAsWritten`, the next page for an unaligned `va` (see "## Findings").
- `PageTableMmRv.PageTable.satp` is modelled (`Satp`). Writing `satp` and flushing the TLB are hardware and are not modelled.

Address space (`kernel/src/mm`):
- `Mm.MM`: address arithmetic on user addresses uses `Addr.Identity` as the canonicaliser, where the kernel's `VirtAddr` uses `canonicalize_va`. The two agree on every address below 2^38 (`Sv39Address.CanonicalizeVaFixesCanonical`). A sum that reaches 2^38 would be sign-extended by the kernel, and the model does not capture that.
- `Mm.MM`: the page mappings are `Vma.PageMap`, a map from page to frame and flags. This map stands for the Sv39 table but is not linked to `PageTableMmRv`. The table's own behaviour is proved separately.
- `Mm.MM`: a VMA's physical memory area is abstracted. Splitting is `MmUnmap.Piece`, creation is `Vma.New`, extension is the `brk` step, and `alloc_frame` is a frame function `frameOf`, so the model does not run `LazyPMA::split`, `extend` or `get_frame` inside `MM`. Those operations are modelled and proved on their own in `LazyPma` and `FixedPma`.
- `Mm.MM`: the area flags are used directly as page flags. The `VMFlags`→`PTEFlags` conversion (kernel/src/mm/mod.rs:481,556; kernel/src/mm/flags.rs) is modelled and proved on its own in `VmFlags`.
- `Mm.MM`: `write_vma`, `alloc_vma`, `alloc_write_vma`, `alloc_frame_range`, `alloc_type`, `alloc_write_type`, `translate`, `map_count` and the `Clone` of `MM` are not modelled. They only combine the modelled operations with frame copies.
- `Vma.MapThis`: kernel/src/mm/vma.rs:46 and 48 lock the same `pma` mutex twice, which deadlocks a mapped area on a spin lock. The model ignores locks and reads the frames once.
- `Mm.MM.GetStr`: `ch as char` (kernel/src/mm/mod.rs:420) turns each byte into the code point of the same value, not UTF-8 decoding. The model returns the bytes.
- `LazyPma.LazyPMA.GetFrame`: `requires index < |frames|`. The source indexes `frames[index]` (kernel/src/mm/pma/lazy.rs:68) and panics otherwise.
- `Loader.InitStack.PushSlice`: the bytes skipped by alignment are modelled as zeros, where memory keeps whatever it held. Stack underflow is excluded by `requires` (the stack is sized by the loader).
- `Loader.Serialize`: `requires |args| > 0`. The source reads `args[0]` (kernel/src/loader/init.rs:83) and panics on an empty list.
- `FixedPma.SplitRun` and `FixedPma.FixedPMA.Split`: what `AllocatedFrameRange::split_at` (used by `FixedPMA::split`, kernel/src/mm/pma/fixed.rs:79-108) does with the underlying frames is assumed to split the run of frame numbers at the given frame, because frame.rs wraps the foreign allocator.
- `Mm.MM.constructor`: models only the struct `MM::new` builds (kernel/src/mm/mod.rs:70-79). The trampoline mapping and the `FrameAllocFailed` and `PageTableInvalid` returns are modelled by `Mm.MM.Create`.
- `Mm.MM.Create`: whether `PageTable::new` finds a root frame is the parameter `rootFrame`, and the frame of the trampoline code (the linker symbol `__trampoline`) is the parameter `trampolineFrame`.
- `Addr.FromAddr`: `requires size > 0` stands for the `assert!(size_in_bytes > 0)` at crates/tmm_addr/src/lib.rs:302, which panics on an empty span. Every caller in the model passes a non-empty span; `alloc_frame_range` (kernel/src/mm/mod.rs:338), which could pass `start_va == end_va`, is not modelled.

Files and links:
- `Links.LinkTable.RemoveLink`: `requires` that a mapped path's target still has a count. The source unwraps that count (crates/vfs/src/link.rs:57) and panics otherwise. The panic is reachable: link U to R, remove_link(R) twice (the second call drops R's count entry), then remove_link(U).
- `FatIo.FatIO`: the block cache is assumed to keep the device coherent, so the file reads as the device's bytes. Cache eviction and write-back are modelled separately in `BlockCaches`.
- FatIO's `flush` is not modelled: it only syncs the cache, which `BlockCaches.LRUBlockCache.SyncAll` models. The errno mapping (`from`) is not modelled either.
- `MemFs.MemFile.Read`: `max_size - pos` and `read_end - 1` are modelled as the debug build's underflow panic. The release build wraps them. The two builds differ only for an empty buffer at a page-aligned `pos` beyond `max_size`, where the release build returns `Some(0)`.
- `MemFs.MemFile.Write`: the same debug-build view of `max_size - pos` and `write_end - 1`.
- `MemFs.MemFile`: `get_limit` and `get_off` are plain accessors and are not modelled.
- `BlockCaches`: `Entry.holders` stands for the `Arc` strong count and is fixed at 1, because nothing in the model keeps a unit outside the cache. The "no unit can be evicted" panic (`RunOut`) and the guarantee that a unit in use is never evicted are therefore stated but not reachable from the model's operations.
- `VfsPath.Path`: `root`, `as_str` and `is_dir` are trivial accessors and are not modelled.
- `FileDescriptors.FDManager.Push`: `requires InBounds()`, meaning every recycled descriptor lies within the list. The written `remove` can break this (`FileDescriptors.RemoveUnopened`), and `push` then panics indexing the list.

Signals, time and user interrupts:
- `SigAction.SigActions.GetRef`, `GetRefAsWritten`, `Store` and `GetHandlerOf`: `requires 1 <= signum <= NSIG`. The source indexes `signum - 1` and panics otherwise.
- `SigSetBits.SigSet`: shifts by a signal number of 64 or more follow the release build, where the shift amount wraps.
- `TimeSpecArith.Add` and `TimeSpecArith.AddAssign`: the seconds sum wraps as in the release build.
- `IdAlloc.RecycleAllocator.Alloc`: the `assert_ne!` on `usize::MAX` is modelled as `None`. The counter increment follows the release build.
- `TrapFrames.TrapFrame.NextEpc`: the `+ 4` wraps as in the release build.
- `ClockId`: the `as` casts wrap as Rust casts do. `ClockID::new`, a plain cast, is not modelled, and neither are `TMS` and `ITimer`, which are plain records.
- `UIntr.UIntrSender.Get`: `requires frames != []`. The source reads the first frame's address and panics on an empty table.
- `UIntr.TaskUIntrInner.Dealloc`: `requires i < 64`, because `set_bit` panics otherwise.
- `UIntrReceiverTracker`, `UIntrReceiver::from` and `sync`, the `uintc_*` MMIO and the user-interrupt system calls are hardware access and are not modelled.

Tasks:
- `Sched.QueueScheduler`: the test-mode build of `fetch` (kernel/src/task/sched.rs:53-59) is not modelled. Neither are `idle` and `do_yield`, which switch contexts.
- `TaskExit.DoWait`: writing the exit status to user memory (kernel/src/task/exit.rs:201-209), with its `?` error path, is not modelled. The reaped child is returned instead. Sleeping is the outcome `Blocks`.
- `TaskExit.HandleZombie`: the test-mode `finish_test` call is not modelled.
- `Clone.DoClone`: copying the address space, allocating the kernel stack and trapframe, and the tid writes to user memory are not modelled. The child's fields are derived as in the source. The kernel stack id is the parameter `newId`, and `sigvalid` is the parameter `sigValid`.
- `StackLayout`: `kstack_vm_alloc`, `kstack_dealloc` and `init_trapframe` only call the modelled allocator and address space.

Firmware, console and tests:
- `CString.Memcpy`: `requires` that `dst` does not lie inside the source range above `src`. For such overlapping ranges the forward copy repeats bytes, and the model does not state what it produces.
- `CString.Strlen`: `requires` a NUL at or after `s`. Without one, the C code reads past the buffer.
- `OsComp.SplitArgv`: bytes are modelled as characters. The `from_utf8(..).unwrap()` panic on invalid UTF-8 is not modelled.
- `UserBuffers`: the `read_user_buf` and `write_user_buf` macros are covered only by `UserBuffers.Drain`, iterating to the end.
- `RingBuf.RingBuffer`: `is_empty` and `is_full` are one comparison each and carry no contract of their own. The invariant `0 <= len <= max_size` and the read and write contracts state their meaning.

## Findings

| source | as written | input that shows it | evidently intended | confidence | as-written member | corrected member |
|---|---|---|---|---|---|---|
| crates/mm-rv/src/page_table.rs:103-108 | `frame()` is `Frame::floor` of the shifted entry, and `tmm_addr`'s `floor` rounds up | an entry given frame 5 and any flag (here a pointer entry) reads back frame 6 | the PPN field, `(bits & PPN_MASK) >> 10` | not executed | `Pte.FrameAsWritten`, `Pte.FrameAsWrittenIsOffByOne`, `Pte.FrameAsWrittenCounterexample` | `Pte.Frame`, `Pte.FrameOfSetPpn` |
| crates/mm-rv/src/page_table.rs:253-259 | `translate` walks `Page::floor(va)`, the next page for an unaligned `va` | `va = 0x1001` with only page 1 mapped, to frame 7: the walk of page 2 fails | walk the page holding `va`, giving `0x7001` | not executed | `PageTableMmRv.TranslateAsWritten`, `PageTableMmRv.TranslateAsWrittenCounterexample` | `PageTableMmRv.TranslateSpec`, `PageTableMmRv.TranslateLandsInFrame` |
| crates/tmm_rv/src/page_table.rs:184-214 | `walk` fails on an invalid leaf even with `CREAT`, so `map` fails on a page never mapped, contrary to its documentation | `map` of any page in a new table | `map` installs the leaf, as the `mm-rv` table does | not executed | `PageTableTmm.PageTable.Map` | `PageTableMmRv.PageTable.Map` |
| crates/tmm_rv/src/page_alloc.rs:36-37 | `split_at(start)` builds the right part as `new(at_page, self.start)` | pages 2 to 5 split at 2: the right part is page 2 alone, and pages 3 to 5 are lost | right part `[at_page, end]` | not executed | `PageAlloc.SplitAtAsWritten`, `PageAlloc.SplitAtStartLosesPages` | `PageAlloc.SplitAt`, `PageAlloc.SplitAtAgreesAwayFromStart` |
| crates/tmm_addr/src/lib.rs:360-367 | the offset check accepts `offset <= size_in_bytes` | range of page 0, offset `0x1000`, gives address `0x1000`, outside the range | `offset < size_in_bytes` | not executed | `Addr.AddressAtOffsetAsWritten`, `Addr.AddressAtOffsetPastEnd` | `Addr.AddressAtOffset`, `Addr.AddressAtOffsetInRange` |
| kernel/src/mm/vma.rs:39 | pages run from `Page(start)` to `Page(end - 1) + 1` inclusive, one past the end | areas `[0x1000, 0x2000)` and `[0x2000, 0x3000)` both own page 2 | pages touching `[start_va, end_va)` only | not executed | `Vma.NewAsWritten`, `Vma.NewAsWrittenOwnsNextPage`, `Vma.AdjacentAreasShareAPage` | `Vma.New` |
| kernel/src/mm/mod.rs:300-315 | `get_vma_range` lists the area holding `start`, then every area keyed in `[start, end)`, which includes that area again when it starts at `start` | one area `[0x1000, 0x3000)`, `munmap(0x1000, 0x2000)`: slot 0 is listed twice, and `do_munmap` unwraps the emptied slot and panics | each area listed once | not executed | `MmSpec.RangeAsWritten`, `MmSpec.RangeAsWrittenRepeats`, `MmSpec.RangeAsWrittenExample`, `MmUnmap.MunmapAsWrittenRevisitsEmptySlot` | `MmSpec.Range`, `MmSpec.RangeListsOccupiedSlots`, `MmUnmap.RangeClears`, `MmUnmap.MunmapClearsRange` |
| kernel/src/mm/mod.rs:244-256 | `find_free_area` starts `last_end` at 0, not at the end of the area below `hint`, so the first gap it checks can reach into that area | areas `[0x50_0000, 0x60_0000)` and `[0x60_1000, 0x70_0000)`, two pages from hint `0x60_1000`: the answer `0x5F_F000` lies inside the first area | an address whose `len` bytes are free | not executed | `MmSpec.FreeAreaAsWritten`, `MmSpec.FreeAreaAsWrittenOverlaps` | `MmSpec.FreeArea`, `MmSpec.FreeAreaIsFree` |
| kernel/src/mm/mod.rs:447-453,477-486 | a break that stays in the first page moves `brk` without creating the heap area; the next growth then finds `brk != start_brk`, creates nothing and unwraps a missing area | `start_brk = 0x10000`: `brk(0x10800)`, then `brk(0x12000)` panics | the heap area exists whenever the break has moved, and `brk` never panics | not executed | `MmBrk.BrkAsWritten`, `MmBrk.BrkAsWrittenPanics` | `MmBrk.Brk`, `MmBrk.BrkNeverPanics` |
| kernel/src/mm/pma/lazy.rs:31-43 | `Vec::with_capacity(count)` then `fill_with` fills nothing, so the area has no slot | a one-page area: `get_frame(0, _)` indexes an empty vector | `count` empty slots | not executed | `LazyPma.New`, `LazyPma.NewAreaHasNoSlots` | `LazyPma.NewFilled` |
| kernel/src/mm/pma/lazy.rs:123-190 | `split` moves slots out without lowering `alloc_count` | `[empty, frame 7]` split at slot 1: the kept empty slot still counts one frame | `alloc_count` equals the number of occupied slots | not executed | `LazyPma.LazyPMA.Split`, `LazyPma.SplitLeavesStaleCount` | `LazyPma.LazyPMA.SplitRecount` |
| kernel/src/mm/pma/fixed.rs:90-111 | with both bounds, `end` is added to the run's end, not its start | frames 10 to 13 split at pages 1 and 2 fails with `PMAOutOfRange` | middle frame 11, tail frames 12 to 13 | not executed | `FixedPma.SplitRunAsWritten`, `FixedPma.SplitBothNeverCuts`, `FixedPma.FixedPMA.SplitAsWritten` | `FixedPma.SplitRun`, `FixedPma.SplitMiddleExample`, `FixedPma.SplitAgreesWithLazy`, `FixedPma.FixedPMA.Split` |
| kernel/src/mm/pma/fixed.rs:61-63 | `check_frame` returns `index >= size` | index 0 of a one-frame area: `false`, though `get_frame(0)` succeeds | true exactly when a frame exists, as for `LazyPMA` | not executed | `FixedPma.FixedPMA.CheckFrameAsWritten` | `FixedPma.FixedPMA.CheckFrame` |
| crates/tvfs/src/path.rs:23-31,65-74 | canonicalising a path with no item yields `""` | `Path::new(".")` becomes `""` | `"/"`, the root | not executed | `VfsPath.CanonicalAsWritten`, `VfsPath.CanonicalizeDotIsEmpty` | `VfsPath.Canonical`, `VfsPath.CanonicalIdempotent`, `VfsPath.CanonicalAgrees` |
| crates/tvfs/src/flag.rs:72-80 | `read_write` grants writing to any non-empty word | `O_RDONLY \| O_CREAT` gives `(true, true)`, while `writable()` is false | `(readable(), writable())` | not executed | `OpenFlags.ReadWriteAsWritten`, `OpenFlags.CreateReadOnly` | `OpenFlags.ReadWrite`, `OpenFlags.ReadWriteDiffers` |
| crates/tvfs/src/flag.rs:43,46 | `O_DSYNC` is `0o200000`, the value of `O_DIRECTORY` | `O_DIRECTORY` contains `O_DSYNC` | Linux's `O_DSYNC`, `0o10000`, a bit of its own; the kernel's open path (kernel/src/fs/fat.rs is not part of this model) tests `flags.contains(O_DIRECTORY \| O_DSYNC)` to recognise a directory open, which works only because the two bits coincide, so that test would have to change with the constant | not executed | `OpenFlags.DirectoryMeansDsync` | `OpenFlags.FlagBitsDistinct` |
| kernel/src/fs/fat/io.rs:70-72,102-104 | `pos + len - 1` underflows when nothing is to be moved at position 0; the release build wraps and then slices past the empty buffer | a read into an empty buffer at position 0 panics | move nothing and return 0 | not executed | `FatIo.FatIO.Read`, `FatIo.FatIO.Write`, `FatIo.EmptyReadAtStart` | `FatIo.FatIO.ReadGuarded`, `FatIo.FatIO.WriteGuarded` |
| crates/tmemfs/src/lib.rs:23-27 | `Vec::with_capacity` then `fill_with` leaves the file without frames | a new file has size 0, and a one-byte read panics indexing its frames | `limit / PAGE_SIZE` zeroed frames | not executed | `MemFs.MemFile.constructor`, `MemFs.NewFileIsEmpty` | `MemFs.MemFile.Allocated` |
| crates/tmemfs/src/lib.rs:67,83 | each piece is copied with `copy_from_slice` against the whole `buf`, which panics unless the lengths match | a 200-byte read from position 4000 crosses a frame and panics | copy each piece into or out of its own part of `buf` | not executed | `MemFs.MemFile.Read`, `MemFs.MemFile.Write`, `MemFs.CrossFrameRead` | `MemFs.MemFile.ReadPiecewise`, `MemFs.MemFile.WritePiecewise`, `MemFs.WriteThenRead` |
| kernel/src/fs/fd.rs:56-70 | `remove` recycles the descriptor and then calls `take`, which recycles it again; when `take` fails, the unopened descriptor stays recycled | close stdout, then open two files: both get descriptor 1 | recycle an open descriptor once and nothing else | not executed | `FileDescriptors.FDManager.RemoveAsWritten`, `FileDescriptors.RemoveThenOpenTwiceAsWritten`, `FileDescriptors.RemoveUnopened` | `FileDescriptors.FDManager.Remove`, `FileDescriptors.RemoveThenOpenTwice` |
| crates/signal-defs/src/sigaction.rs:178-187 | `get_ref` and `get_mut` overwrite the slot with the default action before returning it | install a handler at `0x8000` for signal 10, then `get_ref(10)` returns `SIG_DFL` and erases it | return the stored action | not executed | `SigAction.SigActions.GetRefAsWritten`, `SigAction.GetRefErasesHandler` | `SigAction.SigActions.GetRef` |
| crates/ttimer/src/lib.rs:51-63 | `get_pid` shifts the sign-extended id logically, so the complement sets the top three bits | pid 1 reads back as `1 + 7 * 2^61` | an arithmetic shift, giving the pid back | not executed | `ClockId.GetPidAsWritten`, `ClockId.GetPidAsWrittenSetsTopBits` | `ClockId.GetPid`, `ClockId.GetPidRoundTrip` |
| kernel/src/arch/riscv64/uintr.rs:20,100-108 | `UISTE_INDEX_MASK` is `0xffff << 48`, which covers the valid bit 63 | `set_index(3)` on a valid entry disables it; a valid entry with index 5 reads index `0x8005` | a 15-bit index field below bit 63 | not executed | `UIntr.Uiste.SetIndex`, `UIntr.IndexClearsValid`, `UIntr.ValidShowsInIndex` | `UIntr.WithIndexKeepingValid`, `UIntr.IndexFieldReadBack`, `UIntr.SetIndexDisables` |
| kernel/src/arch/riscv64/uintr.rs:47-54 | `get` refuses only `index > limit` | `get(512)` in a one-frame table of 512 entries gives the address just past the table | refuse `index >= limit` | not executed | `UIntr.UIntrSender.Get`, `UIntr.GetPastTable` | `UIntr.UIntrSender.GetInTable` |
| kernel/src/arch/riscv64/uintr.rs:202-211 | `alloc` counts `leading_ones` from bit 63, but `set_bit` counts from bit 0 | two allocations on a new task both return vector 0 | the lowest free vector | not executed | `UIntr.TaskUIntrInner.Alloc`, `UIntr.AllocTwice` | `UIntr.TaskUIntrInner.AllocLowestFree`, `UIntr.AllocDistinct` |
| kernel/src/task/sched.rs:53,61 | outside test mode, `fetch` unwraps `pop_front` | `fetch` on an empty queue panics | return `None` | not executed | `Sched.QueueScheduler.FetchAsWritten`, `Sched.EmptyQueueFetch` | `Sched.QueueScheduler.Fetch`, `Sched.FetchKeepsTasks` |
| kernel/src/task/exit.rs:153-211 | after reaping a child the loop starts over instead of returning its pid | one exited child: the child is reaped and the call answers `ECHILD` | return the reaped child's pid | not executed | `TaskExit.DoWaitAsWritten`, `TaskExit.WaitForExitedChild` | `TaskExit.DoWait` |
