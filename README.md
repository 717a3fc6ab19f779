# SSD simulator core in Dafny

This project models the core of a flash SSD simulator and three of its
garbage-collection policies. The core is the page-mapped device of `sim/SSD.hpp`:

- **Blocks.** Each block holds a physical-to-logical page table (`ptl`), a write position and a valid count.
- **Mapping.** A logical-to-physical table (`ltp`) maps each logical page to a block and a slot.
- **Write buffer.** An LRU write buffer sits in front of the flash.
- **Wear leveling.** Free blocks are pooled per LUN. Each LUN has a current block that is rotated after a threshold of writes.
- **Compaction.** Within a block, the valid pages slide to the front.
- **Moves.** Valid pages move from one block to another, either to a fixed destination or to one a callback chooses.
- **Reclamation.** `compactUntilFreeBlock` has three variants. Each runs garbage-collection rounds until some victim block holds no valid page, then erases it.

The policies sit on top of the device:

- **GenerationalGC** (`sim/Generational.hpp`) keeps one GC write head per block generation. It picks victims greedily, first in the GC block's own generation, then in nearby generations.
- **DTE** (`sim/Deathtime.hpp`) keeps a history of write times for each page. It estimates each page's death time, buffers host writes, flushes them in four groups ordered by estimated death time, and picks victims by death time or by valid count.
- **TwoAGC** (`sim/TwoAGC.hpp`) keeps a short history of write timestamps for each page. It sends each page to the write head whose threshold matches the page's mean write interval. It collects garbage group by group, with one GC head per group.

**How the model is built**

- **Values.** Blocks are values (datatype `Blocks.Block`). The flash is a value `Ftl.Flash` made of:
  - the blocks;
  - the `ltp` table;
  - the physical write counter;
  - the global erase-age counter.
- **Functions.** Each device operation is a function on these values.
- **Main invariant.** `Mapping.Consistent` is the main invariant. It holds when:
  - every mapped page sits in exactly the slot that names it;
  - every used slot is mapped back;
  - the valid counts add up to the number of mapped pages.
- **Classes.** The SSD (`Ssd.Device`) and each policy are classes whose fields the methods update. Each method is proved equal to the function that specifies it, and the properties are proved about those functions.
- **DTE on values.** `DteState.Run` is the state that DTE and its device change, as one value. `Deathtime` defines each DTE operation on it as a function (`Written`, `Flush`, `FlushRun`, `GroupWrite`, `Step`, `Renew`, `Advance`, `Gc`), and each method of the `DTE` class is proved equal to its function. `DteKeeps` proves what these functions do to the pages: a page is kept when it is mapped on flash, in the device's LRU buffer, or queued in DTE's own buffer.
- **Constants and errors.**
  - The source's "unused" marker (`~0ull`) is `-1`.
  - The fatal `ensure`/`raise(SIGINT)` checks become error results (`Ftl.Fault`, `Reclaim.Reclaimed.Aborted`, or a `false` flag).

## Model

| member | source | states |
|---|---|---|
| Blocks.Block.Write | sim/SSD.hpp:85-91 | stores the logical page at the write position, returns that position, advances the write position and the valid count by one, and keeps the block invariant and every other slot |
| Blocks.Block.SetUnused | sim/SSD.hpp:93-97 | clears one used slot, lowers the valid count by one, and leaves every other slot and tag alone |
| Blocks.Block.Erase | sim/SSD.hpp:122-130 | leaves an erased, all-invalid block with no group and no GC flag, one more erase, and the new erase age; the generation is kept |
| Blocks.NewBlock | sim/SSD.hpp:77-83 | a new block is erased, all unused and of the given size, with generation 0 and no group |
| Blocks.CountUsedZero | sim/SSD.hpp:99-103 | a page table has no used slot exactly when every slot is unused (the all-invalid test) |
| Blocks.Compacted | sim/SSD.hpp:105-120 | compaction keeps exactly the used slots, in order, at the front; the write position and the valid count both become the old valid count; the rest is unused; erase count +1, new age, written by GC |
| Blocks.CompactNoMappingUpdate | sim/SSD.hpp:105-120 | the in-place slide loop computes Compacted |
| Blocks.PackedKeepsPages | sim/SSD.hpp:105-120 | compaction keeps the length and the set of stored pages, and its prefix is the used slots in order |
| Blocks.PackedIdempotent | sim/SSD.hpp:105-120 | compacting a compacted page table changes nothing |
| Mapping.AddrRoundTrip | sim/SSD.hpp:328-330 | getZone and getPage recover the block and slot that getAddr combined |
| Mapping.AddrSplit | sim/SSD.hpp:328-330 | every address is getAddr of its own zone and page, and the page is below pages-per-zone |
| Mapping.AddrInjective | sim/SSD.hpp:328-330 | distinct (block, slot) pairs have distinct addresses |
| Mapping.MappedSlot | sim/SSD.hpp:361-378 | under the invariant, a mapped page's address points at a slot in range that names that page |
| Mapping.UniqueSlot | sim/SSD.hpp:361-378 | under the invariant, a logical page is stored in at most one slot of the device |
| Mapping.WriteStepConsistent | sim/SSD.hpp:361-378 | invalidating the old copy and writing the page to the destination keeps the invariant with the page remapped to the new slot |
| Mapping.AfterWriteEffects | sim/SSD.hpp:361-378 | a page write maps the page to the destination's write position, stores it there, advances that block, tags an ungrouped destination with the group, and clears the old slot |
| Mapping.AfterWrite | sim/SSD.hpp:361-378 | a page write keeps the mapping invariant and the sizes of both tables |
| Mapping.Tagged | sim/SSD.hpp:361-378 | a destination without a group takes the write's group; one with a group keeps it; nothing else changes |
| Mapping.CompactConsistent | sim/SSD.hpp:406-425 | compacting a block and remapping each survivor to its new slot keeps the invariant |
| Mapping.RemappedAt | sim/SSD.hpp:406-425 | the remap loop sends the i-th survivor to slot i of the block, leaves other pages alone and keeps the number of mapped pages |
| Mapping.EraseConsistent | sim/SSD.hpp:390-399 | erasing a block with no valid page keeps the invariant |
| Mapping.EraseWithValidPageBreaksMapping | sim/SSD.hpp:390-399 | erasing a block that still stores a mapped page leaves that page pointing at an unused slot and breaks the invariant |
| Mapping.Unmapped | sim/SSD.hpp:93-97 | clearing a used slot and unmapping its page keeps the invariant |
| Mapping.InitialConsistent | sim/SSD.hpp:260-294 | fresh blocks with nothing mapped satisfy the invariant |
| Lru.Remove | sim/SSD.hpp:343-356 | the list without one page keeps every other page, shrinks if the page was present, and keeps the list duplicate-free |
| Lru.Touch | sim/SSD.hpp:343-356 | a hit evicts nothing and keeps the same pages; a miss evicts exactly when the buffer reaches its size, and evicts the oldest entry; no page is lost or invented; the buffer stays duplicate-free and below its size |
| Ftl.Relocate | sim/SSD.hpp:361-378 | a page write keeps the invariant, counts one physical write and leaves the erase age alone |
| Ftl.RelocateFrom | sim/SSD.hpp:427-448 | relocating the page of a used slot keeps every page mapped, clears that slot and changes only the source and destination blocks |
| Ftl.CompactAt | sim/SSD.hpp:406-425 | compactBlock keeps the invariant, counts one physical write per surviving page and advances the erase age |
| Ftl.CompactAtEffects | sim/SSD.hpp:406-425 | after compactBlock the block holds its survivors in order at the front, each mapped to its new slot; the generation rises by one and the block is marked written by GC |
| Ftl.CompactAtSameMapped | sim/SSD.hpp:406-425 | compactBlock keeps the set of mapped pages |
| Ftl.EraseAt | sim/SSD.hpp:390-399 | erasing an all-invalid block keeps the invariant, erases it with one more erase and the current age, and keeps every other block |
| Ftl.FreeAt | sim/SSD.hpp:511-513 | freeing an emptied victim erases it, resets its generation to 0, advances the age and keeps the others |
| Ftl.MovePages | sim/SSD.hpp:427-448 | moveValidPagesTo keeps the invariant and the mapped pages, changes only the two blocks, marks the destination written by GC, and reports exactly whether the source still holds valid pages |
| Ftl.MovePagesFills | sim/SSD.hpp:427-448 | when pages are left behind, the destination is full |
| Ftl.MoveFromTags | sim/SSD.hpp:427-448 | moving pages changes no block's erase count, age, generation or GC flag |
| Ftl.MovePagesBy | sim/SSD.hpp:450-488 | the callback variant keeps the invariant and the mapped pages; it fails with VictimAllValid exactly when the victim is all valid; Emptied means the victim is all invalid; a reported full destination is in range and full |
| Ftl.MovePagesBySelfFree | sim/SSD.hpp:450-488 | a destination callback that never names the victim never causes the missing-full-destination failure |
| Ftl.MovePagesByIdle | sim/SSD.hpp:450-488 | a victim with no valid page is reported emptied and the state is unchanged, whatever the destination callback would say |
| Ftl.UnmapPrefixMapping | sim/SSD.hpp:93-97 | unmapping the first p slots of a block unmaps exactly the pages stored there |
| Ftl.Scrubbed | sim/SSD.hpp:390-399 | the corrected erase keeps the invariant and erases the block as eraseBlock does |
| Ftl.ScrubbedUnmaps | sim/SSD.hpp:390-399 | the corrected erase unmaps exactly the pages the block stored and keeps the others |
| Ftl.ScrubbedEmpty | sim/SSD.hpp:390-399 | on an all-invalid block the corrected erase is the source's erase |
| Reclaim.FreedAfterMove | sim/SSD.hpp:511-513 | a victim emptied by moves, once freed, yields a freed block that is erased and all invalid, with every page still mapped |
| Reclaim.Rounds | sim/SSD.hpp:497-518 | each round keeps the invariant and the mapped pages; a freed block is erased, all invalid and of generation 0, the GC block is in range or -1, and the freed block is never the GC block left in use |
| Reclaim.SelfVictimEmpties | sim/SSD.hpp:506-513 | as written: a GC block with no valid page that is named as the victim reports itself empty after moving its pages into itself, so the loop frees the block that the source also returns as the GC block |
| Reclaim.AsWrittenAgrees | sim/SSD.hpp:497-519 | the loop as written (RoundsAsWritten) and the corrected Rounds fail alike and free the same block from the same final state; they differ only in the GC block handed back, which the correction replaces by -1 exactly when it is the freed block |
| Reclaim.SelfVictimFreedTwice | sim/SSD.hpp:497-519 | as written: an all-invalid GC block that the chooser names as the victim is freed in the first round and returned as the freed block and as the GC block; corrected: returned as the freed block only, with no GC block |
| Reclaim.RoundsContinue | sim/SSD.hpp:497-518 | a round that leaves pages behind compacts the victim and continues with it as the GC block |
| Reclaim.CompactUntilFree | sim/SSD.hpp:490-520 | the first variant frees an erased, all-invalid block of generation 0 that is not the GC block it returns, and keeps every page mapped; with a usable GC block it runs the rounds from that block |
| Reclaim.GroupedRounds | sim/SSD.hpp:522-561 | the second variant frees an erased, all-invalid block of generation 0, keeps every page mapped and reports no GC block |
| Reclaim.GroupedIdleVictim | sim/SSD.hpp:522-561 | a victim with no valid page is freed in the first round of the grouped variant, and the policy state is handed back untouched |
| Reclaim.GroupedRoundsSelfFree | sim/SSD.hpp:522-561 | if the destination callback never names a victim, the grouped variant never fails for want of a full destination |
| Reclaim.Chain | sim/SSD.hpp:563-591 | the chain of compactions and moves keeps the invariant and the mapped pages |
| Reclaim.ChainFrame | sim/SSD.hpp:563-591 | blocks outside the victim list never change |
| Reclaim.ListReclaim | sim/SSD.hpp:563-591 | the third variant fails on an empty list; otherwise it frees list[0] exactly when the chain leaves it with no valid page, and then keeps every page mapped |
| Victims.MinValidIsMin | sim/Generational.hpp:48-80 | the scan holds -1 exactly when no block is admitted; otherwise it holds the first admitted block with the fewest valid pages |
| Victims.ScanMin | sim/Generational.hpp:65-80 | the scan loop computes MinValid |
| Victims.GreedyPicks | sim/TwoAGC.hpp:155-191 | a greedy pick is an admitted, not-all-valid block with the fewest valid pages, the first such; -1 exactly when every admitted block is all valid |
| Victims.GreedyScan | sim/TwoAGC.hpp:172-191 | the loop with its fatal check computes Greedy |
| Wear.LunOf | sim/SSD.hpp:167-173 | the LUN of a block or page is its index modulo the LUN count, below the LUN count |
| Wear.PushedOk | sim/SSD.hpp:176-182 | pushing a free block keeps the pool invariant, and the block is then in its LUN's pool |
| Wear.Pushed | sim/SSD.hpp:176-182 | a block not yet pooled joins the back of its LUN's pool; a pooled one changes nothing; either way it is flagged pooled |
| Wear.PopFree | sim/SSD.hpp:185-205 | popping keeps the pool invariant; a returned block is erased, of that LUN and no longer pooled |
| Wear.PopFreeFinds | sim/SSD.hpp:185-205 | if the LUN has an erased block, popping returns one |
| Wear.PopFreeFails | sim/SSD.hpp:185-205 | popping returns nothing exactly when no block of the LUN is erased |
| Wear.CopyDone | sim/SSD.hpp:222-228 | the rotation's copy loop is moveValidPagesTo and leaves the old block with no valid page |
| Wear.RotateCopy | sim/SSD.hpp:222-228 | the rotation's copy keeps the invariant and the mapped pages, and empties the old block |
| Wear.Rotate | sim/SSD.hpp:208-237 | wlRotate keeps both invariants and the mapped pages, installs an erased block of the LUN with counter 0 when it succeeds, and leaves other LUNs alone; it succeeds exactly when a block can be popped |
| Wear.RotateFails | sim/SSD.hpp:208-237 | a rotation fails exactly when the LUN has no erased block |
| Wear.CurrentForEffects | sim/SSD.hpp:240-249 | a writable current block is returned unchanged; a LUN without one gets an erased block; -1 only when no block of the LUN is erased |
| Wear.CurrentFor | sim/SSD.hpp:240-249 | the returned block is the LUN's current one, and the state keeps both invariants and the mapped pages |
| Ssd.Outgoing | sim/SSD.hpp:337-358 | with no buffer the page goes straight to flash; otherwise the LRU step decides |
| Ssd.OutgoingOk | sim/SSD.hpp:337-358 | the buffer step keeps the buffer invariant and only evicts logical pages in range |
| Ssd.CachedEffects | sim/SSD.hpp:337-358 | a buffer hit leaves the flash alone; the write fails only when a page must go out and the block is full; an evicted page is written to the block and mapped to its write position |
| Ssd.CachedKeepsPages | sim/SSD.hpp:337-358 | after a buffered write, the pages held (buffered or mapped) are the old ones plus the written page |
| Ssd.CachedKeepsRoom | sim/SSD.hpp:337-358 | a buffered write changes no other block's room to write |
| Ssd.WriteWL | sim/SSD.hpp:297-314 | writePageWL keeps the device invariant and the wear-leveling settings |
| Ssd.WriteWLKeepsPages | sim/SSD.hpp:297-314 | a successful wear-leveled write keeps every held page and adds the written one |
| Ssd.WriteWLResetsCounter | sim/SSD.hpp:305-311 | a write that reaches the threshold leaves the LUN's counter at 0 |
| Ssd.WriteWLCountsUp | sim/SSD.hpp:305-311 | a write below the threshold to a writable current block only counts up |
| Ssd.Tick | sim/SSD.hpp:305-311 | the counter step counts up below the threshold, otherwise rotates and resets |
| Ssd.Fresh | sim/SSD.hpp:260-294 | a new device's flash is consistent, with every block erased and nothing mapped |
| Ssd.DrainPool | sim/SSD.hpp:187-194 | the pool loop computes PopPool |
| Ssd.ScanLun | sim/SSD.hpp:196-201 | the fallback scan over the LUN's blocks computes Fallback |
| Ssd.CopyValidPages | sim/SSD.hpp:222-228 | the rotation's copy loop computes RotateCopy |
| Ssd.RotateLun | sim/SSD.hpp:208-237 | the rotation computes Rotate |
| Ssd.RotateDeviceOk | sim/SSD.hpp:208-237 | a rotation keeps the device invariant |
| Ssd.RemapSlots | sim/SSD.hpp:416-424 | the remap loop of compactBlock computes Remapped |
| Ssd.CompactAndRemap | sim/SSD.hpp:406-425 | compactBlock's steps compute CompactAt |
| Ssd.CopyUntilFull | sim/SSD.hpp:427-448 | the move loop computes MovePages |
| Ssd.ScanPages | sim/SSD.hpp:450-488 | the callback move loop computes ScanFrom |
| Ssd.MoveBy | sim/SSD.hpp:450-488 | the callback move with its closing checks computes MovePagesBy |
| Ssd.RunRounds | sim/SSD.hpp:497-518 | the round loop computes Rounds |
| Ssd.RunCompactUntilFree | sim/SSD.hpp:490-520 | the first variant's body computes CompactUntilFree |
| Ssd.RunGroupedRounds | sim/SSD.hpp:522-561 | the grouped loop computes GroupedRounds |
| Ssd.RunList | sim/SSD.hpp:563-591 | the list loop computes ListReclaim |
| Ssd.Device.constructor | sim/SSD.hpp:260-294 | a new device has a fresh flash, an empty buffer, and every block in its LUN's free pool |
| Ssd.Device.WlPushFreeBlock | sim/SSD.hpp:176-182 | the pools become Pushed of the old pools; the flash and the buffer are unchanged |
| Ssd.Device.WlPopFreeBlock | sim/SSD.hpp:185-205 | the pools and the answer are PopFree of the old state |
| Ssd.Device.WritePageWithoutCaching | sim/SSD.hpp:361-378 | the flash becomes Relocate of the old flash; the buffer and the pools are unchanged |
| Ssd.Device.WlRotate | sim/SSD.hpp:208-237 | the flash and the pools become Rotate of the old state |
| Ssd.Device.WlCurrentWriteBlockFor | sim/SSD.hpp:240-249 | the flash, the pools and the block become CurrentFor of the old state |
| Ssd.Device.WritePage | sim/SSD.hpp:337-358 | the flash, the buffer and the result become Cached of the old state |
| Ssd.Device.WritePageWL | sim/SSD.hpp:297-314 | the flash, the buffer, the pools and the result become WriteWL of the old state |
| Ssd.Device.SetWearLeveling | sim/SSD.hpp:316-319 | only the enabled flag changes |
| Ssd.Device.SetWearLevelingThreshold | sim/SSD.hpp:321-324 | the threshold becomes the given value, raised to at least 1; nothing else changes |
| Ssd.Device.EraseBlock | sim/SSD.hpp:390-399 | the flash becomes Scrubbed (the block's pages are unmapped, then it is erased); the block is pushed to its pool when wear leveling is on |
| Ssd.Device.CompactBlock | sim/SSD.hpp:406-425 | the flash becomes CompactAt of the old flash |
| Ssd.Device.MoveValidPagesTo | sim/SSD.hpp:427-448 | the flash and the result become MovePages of the old flash |
| Ssd.Device.MoveValidPagesBy | sim/SSD.hpp:450-488 | the flash and the outcome become MovePagesBy of the old flash |
| Ssd.Device.CompactUntilFreeBlock | sim/SSD.hpp:490-520 | the result is CompactUntilFree of the old flash; a freed block is installed and pooled under wear leveling; an abort leaves the device unchanged |
| Ssd.Device.CompactUntilFreeGrouped | sim/SSD.hpp:522-561 | the result and the policy state are GroupedRounds of the old flash; a freed block is installed; an abort changes nothing |
| Ssd.Device.CompactUntilFreeList | sim/SSD.hpp:563-591 | the result is ListReclaim of the old flash; a freed block is installed; an abort changes nothing |
| Generational.ProbeStep | sim/Generational.hpp:86-97 | one step of the generation walk descends to 0 and then climbs, as the source's update does |
| Generational.FirstHitIsFirst | sim/Generational.hpp:81-104 | the walk stops at the first probed generation that has a candidate block |
| Generational.RecursiveGreedyFinds | sim/Generational.hpp:81-104 | the search returns -1 exactly when none of the probed generations has a candidate; otherwise a full, not-all-valid block of the first such generation with the fewest valid pages in it |
| Generational.RecursiveGreedyGeneration | sim/Generational.hpp:81-104 | the while loop computes RecursiveGreedy |
| Generational.GcBlockFor | sim/Generational.hpp:105-110 | the GC block is the generation's GC head when it has one, otherwise the greedy block; an unseen generation reads as block 0 |
| Generational.GenerationalGC.constructor | sim/Generational.hpp:24-30 | block 0 is the write head, every other block is free in order, and there are no GC heads |
| Generational.GcRun | sim/Generational.hpp:105-116 | performGC on the flash keeps the invariant and the mapped pages; a freed block is erased, writable, of generation 0 and is not the GC block left in use |
| Generational.GenerationalGC.PickGcBlock | sim/Generational.hpp:105-110 | the victim is the greedy full block and the GC block is GcBlockFor of the old GC heads; the map gains an entry 0 exactly for a generation it did not have |
| Generational.GenerationalGC.PerformGC | sim/Generational.hpp:105-116 | it succeeds exactly when GcRun frees a block, and then the device ran the first reclamation variant from the chosen GC block with the generation search; the flash becomes the run's, the freed block joins the back of the free queue and the victim generation's GC head becomes the run's GC block; on failure the flash and the free queue are unchanged and the map is HeadsRead's (the entry 0 inserted for an unseen generation) |
| Generational.GenerationalGC.WritePage | sim/Generational.hpp:34-47 | a writable head takes the device's buffered write; a full head is replaced by the front of the free queue, or by the block GcRun frees when the queue is empty, and the write succeeds exactly when that block is writable, and then goes to it; after a GC the victim generation's GC head becomes the run's GC block; a successful write holds exactly the old pages plus the written one (Held); a failure means the old head was full and leaves the flash and the write buffer unchanged, with the popped block installed (free queue non-empty) or, after a failed GC, the old head, an empty queue and the GC-head map of HeadsRead |
| Generational.GenerationalGC.ReplaceHead | sim/Generational.hpp:36-45 | with free blocks, the front of the queue is popped and becomes the head, and the replacement succeeds exactly when that block is writable, with the flash unchanged; with none, it succeeds exactly when GcRun frees a block, which becomes the head with the flash and the GC head update of the run, and fails with the flash and the head unchanged and the GC-head map of HeadsRead; every page stays mapped |
| PairSort.Sort | sim/Deathtime.hpp:104-111 | the result is sorted in pair order and is a permutation of the input |
| PairSort.SortedUnique | sim/Deathtime.hpp:104-111 | two sorted permutations of the same pairs are equal, so any sorting algorithm gives the same order |
| PairSort.IdsPerm | sim/Deathtime.hpp:112-121 | permuted pairs have permuted ids |
| Deathtime.Recorded | sim/Deathtime.hpp:71-74 | a write time is appended; when the history is full its oldest entry drops out |
| Deathtime.DeathTime | sim/Deathtime.hpp:87-102 | the estimate is a 64-bit value |
| Deathtime.DeathTimeIsMeanGap | sim/Deathtime.hpp:87-102 | for an ordered history, the estimate is the last time plus the mean gap over the window, modulo 2^64 |
| Deathtime.EstimateDeathTime | sim/Deathtime.hpp:87-102 | the loop computes DeathTime |
| Deathtime.SumIntervals | sim/Deathtime.hpp:92-98 | the summed intervals telescope to the last time minus the oldest in the window, modulo 2^64 |
| Deathtime.FlushOrderSorted | sim/Deathtime.hpp:104-111 | the flush order is a permutation of the buffered pages, sorted by estimated death time and then by page id |
| Deathtime.ChunksCover | sim/Deathtime.hpp:112-121 | the four groups, in order, make up the sorted list, each at most the group size |
| Deathtime.GroupsCover | sim/Deathtime.hpp:112-121 | writing the groups in turn writes the whole sorted list |
| Deathtime.ChunkOf | sim/Deathtime.hpp:115-120 | the group loop computes Chunk |
| Deathtime.SelectBlocksPicks | sim/Deathtime.hpp:144-159 | at most four distinct writable blocks are picked, in order of death time; any writable block not picked dies no sooner than every pick; none only when no block is writable |
| Deathtime.TotalIsWrappedSum | sim/Deathtime.hpp:161-174 | the running total is the sum of all estimates modulo 2^64 |
| Deathtime.BlockDeathTime | sim/Deathtime.hpp:161-174 | a block's death time is at most the total, a 64-bit value, and 0 when it has no valid page |
| Deathtime.BlockDeathTimeBrackets | sim/Deathtime.hpp:161-174 | the block's death time is the total divided by its valid pages, rounded down |
| Deathtime.SumEstimates | sim/Deathtime.hpp:161-174 | the loop computes TotalDeathTime |
| Deathtime.LowestIsMin | sim/Deathtime.hpp:212-237 | the victim scan returns the first listed block with the lowest key, or the sentinel when every key is UINT64_MAX |
| Deathtime.LowestScan | sim/Deathtime.hpp:212-237 | the scan loop computes Lowest |
| Deathtime.Queued | sim/Deathtime.hpp:188-193 | the queued pages are exactly the used slots' pages |
| Deathtime.QueueValidPages | sim/Deathtime.hpp:188-193 | the queue loop computes Queued |
| Deathtime.QueuedInRange | sim/Deathtime.hpp:188-193 | under the invariant, every queued page is a valid logical page |
| Deathtime.DTE.constructor | sim/Deathtime.hpp:32-46 | block 0 is current, the others are free in order, the histories are empty, all death times are 0, and the buffer size is pages per zone |
| Deathtime.GcEffects | sim/Deathtime.hpp:176-200 | performGC on a state: with no full block nothing changes; otherwise it succeeds exactly when the rule is known, the victim leaves the full list, and a victim in range has its pages appended to the queue, is erased by Scrubbed and joins the back of the free list (and the pool under wear leveling); a failure changes nothing; the current block, the LRU buffer and the death times are kept |
| Deathtime.Topped | sim/Deathtime.hpp:60-62 | GC runs exactly when fewer than GroupCount blocks are free; otherwise the state is kept |
| Deathtime.Advance | sim/Deathtime.hpp:59-68 | the replacement of the current block on a state: when it succeeds the new current block is writable |
| Deathtime.Renew | sim/Deathtime.hpp:130-136 | the renewal of a selection on a state: when it succeeds the selection is non-empty, duplicate-free and writable |
| Deathtime.Selection | sim/Deathtime.hpp:144-159 | the blocks SelectBlocks picks on a state are distinct and writable |
| Deathtime.Put | sim/Deathtime.hpp:137-140 | one page write to a block: the free, full and buffer lists and the current block are kept |
| Deathtime.Cleared | sim/Deathtime.hpp:122-124 | exactly the histories of the listed pages are emptied; the others are kept |
| Deathtime.Flush | sim/Deathtime.hpp:104-125 | flushPages on a state fails with nothing changed where some buffered page has no history |
| Deathtime.FlushedIs | sim/Deathtime.hpp:112-121 | the group writing of a flush is the group loop over FlushOrder with groups of the ceiling of a quarter |
| DteKeeps.ReclaimedKeeps | sim/Deathtime.hpp:185-199 | reclaiming a victim keeps every kept page: its mapped pages move from the flash to the queue, and the queue only grows |
| DteKeeps.GcKeeps | sim/Deathtime.hpp:176-200 | performGC keeps exactly the kept pages, and the queue only grows |
| DteKeeps.AdvanceKeeps | sim/Deathtime.hpp:59-68 | replacing the current block, with or without GC, keeps exactly the kept pages |
| DteKeeps.RenewKeeps | sim/Deathtime.hpp:130-136 | renewing a selection keeps exactly the kept pages, and the queue only grows |
| DteKeeps.PutKeeps | sim/Deathtime.hpp:137-140 | writing a page to a writable block keeps exactly the kept pages plus that page, and leaves every other block's room to write alone |
| DteKeeps.StepKeeps | sim/Deathtime.hpp:130-140 | one pass of the page loop keeps exactly the kept pages, plus the page when the pass succeeds; the rest of the selection stays distinct and writable |
| DteKeeps.GroupWriteKeeps | sim/Deathtime.hpp:127-142 | writeGroupPages loses no kept page and adds only pages of the group; when it succeeds every page of the group is kept |
| DteKeeps.FlushRunKeeps | sim/Deathtime.hpp:115-121 | the group loop loses no kept page and adds only pages of the order |
| DteKeeps.FlushRunWrites | sim/Deathtime.hpp:115-121 | when the group loop succeeds, every page of the order in one of the GroupCount groups is kept |
| DteKeeps.FlushedKeeps | sim/Deathtime.hpp:104-121 | the queue only grows, and when the group writing succeeds, the pages held or queued behind the flushed entries are exactly the pages held or queued before |
| DteKeeps.DrainedDrops | sim/Deathtime.hpp:79-83 | a flush of a full buffer that succeeds empties the queue; afterwards the device holds only pages kept before, and a kept page it no longer holds is one a GC queued during the flush, which emptying the queue drops |
| DteKeeps.BufferedKeeps | sim/Deathtime.hpp:70-83 | after buffering, a successful write leaves only pages kept before plus the written one; one that does not flush keeps all of them |
| DteKeeps.WrittenKeeps | sim/Deathtime.hpp:58-84 | writePage on a state: a successful write leaves only pages kept before plus the written one; one that does not flush keeps all of them |
| Deathtime.DTE.WritePage | sim/Deathtime.hpp:58-84 | the state, the histories and the result become Written of the old state; with a writable current block and room in the buffer, only the time is recorded and the page buffered; when the buffer fills, a successful flush empties it and clears the page's history |
| Deathtime.DTE.NextBlock | sim/Deathtime.hpp:59-68 | the state and the result become Advance of the old state; a new current block is writable |
| Deathtime.DTE.TakeFree | sim/Deathtime.hpp:65-67 | without free blocks it fails with nothing changed; otherwise the front of the free list is popped and becomes the current block, and it succeeds exactly when that block is writable |
| Deathtime.DTE.BufferPage | sim/Deathtime.hpp:70-83 | the state, the histories and the result become Buffered of the old state; with room in the buffer only the time is recorded and the page buffered |
| Deathtime.DTE.Record | sim/Deathtime.hpp:70-75 | the page's history becomes Recorded with the time and the page joins the buffer; nothing else changes |
| Deathtime.DTE.FlushBuffer | sim/Deathtime.hpp:79-83 | the state, the histories and the result become Drained of the old state; a successful flush empties the buffer and the histories of every page it held |
| Deathtime.DTE.FlushPages | sim/Deathtime.hpp:104-125 | the state, the histories and the result become Flush of the old state; it fails where a buffered page has no history or a group write fails; a success hands out the pages in FlushOrder, keeps the queue as a prefix, and empties exactly the histories of the pages queued at the end |
| Deathtime.DTE.FlushGroups | sim/Deathtime.hpp:104-121 | the state and the result become Flushed of the old state, or nothing changes and it fails where a buffered page has no history |
| Deathtime.DTE.WriteGroups | sim/Deathtime.hpp:112-121 | the state and the result become the group loop FlushRun over the sorted ids, from group 0; on success the pages handed out are the groups in order |
| Deathtime.DTE.WriteGroup | sim/Deathtime.hpp:115-120 | the group's pages are its Chunk of the sorted ids; the state and the result become GroupWrite of them; the group loop from this group is this write followed by the loop from the next group |
| Deathtime.DTE.ClearHistories | sim/Deathtime.hpp:122-124 | the histories become Cleared by the current queue; nothing else changes |
| Deathtime.DTE.WriteGroupPages | sim/Deathtime.hpp:127-142 | the state and the result become GroupWrite of the pages, starting with the blocks SelectBlocks picks |
| Deathtime.DTE.PlacePage | sim/Deathtime.hpp:130-140 | one pass of the page loop: the state, the rest of the selection and the result become Step of the old state; the rest stays distinct and writable |
| Deathtime.DTE.PlaceRenewed | sim/Deathtime.hpp:130-140 | a pass with an exhausted selection: Step of the old state with an empty selection |
| Deathtime.DTE.Reselect | sim/Deathtime.hpp:130-136 | the state, the selection and the result become Renew of the old state; a new selection is non-empty, distinct and writable |
| Deathtime.DTE.WriteToLast | sim/Deathtime.hpp:137-140 | the last selected block leaves the selection and the state becomes Put of the page to it; the rest stays distinct and writable |
| Deathtime.DTE.EstimateAll | sim/Deathtime.hpp:104-111 | the estimates exist exactly when every buffered page has a history |
| Deathtime.DTE.WriteToSelected | sim/Deathtime.hpp:127-142 | the page goes through the device's buffered write to the selected block, and the block's death time is updated |
| Deathtime.DTE.SelectBlocksForGroup | sim/Deathtime.hpp:144-159 | the picks are SelectBlocks of the current blocks and death times |
| Deathtime.DTE.UpdateBlockDeathTime | sim/Deathtime.hpp:161-174 | only that block's death time changes, to BlockDeathTime of the histories and its valid count |
| Deathtime.DTE.SelectVictimBlock | sim/Deathtime.hpp:202-237 | the victim is the lowest-key block under the configured rule and leaves the full list |
| Deathtime.DTE.PerformGC | sim/Deathtime.hpp:176-200 | the state and the result become Gc of the old state: with no full block nothing happens; otherwise it succeeds exactly when the rule is known, the victim leaves the full list, and a victim in range has its pages queued, is erased and joins the free list; a failure changes nothing |
| Deathtime.DTE.ReclaimVictim | sim/Deathtime.hpp:185-199 | the state becomes Reclaimed of the old state: the victim's pages join the queue, the flash becomes Scrubbed, and the victim joins the free list |
| TwoA.Stamped | sim/TwoAGC.hpp:50-55 | the new time goes first; the history grows until it holds MaxTimestamps - 1 entries, then the oldest drops out |
| TwoA.IntervalSum | sim/TwoAGC.hpp:38-49 | the summed intervals are the current time minus the oldest stamp, and not negative when no stamp is in the future |
| TwoA.IntervalsTelescope | sim/TwoAGC.hpp:38-49 | the intervals telescope to the first time minus the last |
| TwoA.FirstNotAboveIsFirst | sim/TwoAGC.hpp:119-122 | the threshold scan stops at the first threshold the mean interval does not exceed |
| TwoA.ChosenHeadIsHead | sim/TwoAGC.hpp:90-127 | the chosen head is a real head; a page without history goes to the middle head; otherwise it is the first head whose threshold is not exceeded |
| TwoA.ScanThresholds | sim/TwoAGC.hpp:119-122 | the loop computes FirstNotAbove |
| TwoA.GcDestinationIsGroupHead | sim/TwoAGC.hpp:307-312 | a GC destination is the chosen group's GC head, and that head is empty or already of that group |
| TwoA.UpdateGroupReplaces | sim/TwoAGC.hpp:313-318 | the group update succeeds exactly when the group is real, its old head is full and the new one is writable, and then it replaces that head |
| TwoA.GcGroupIsGreedyGroup | sim/TwoAGC.hpp:296-303 | without a group-fill pick, the GC group is the group of the fullest-reclaimable full block; -1 when every full block is all valid |
| TwoA.TwoAGC.constructor | sim/TwoAGC.hpp:61-80 | the first blocks are the write heads, the next ones the GC heads, the rest free, all distinct; the counters start at 0 |
| TwoA.TwoAGC.ChooseWriteHead | sim/TwoAGC.hpp:90-127 | the head is ChosenHead of the page's history; the thresholds are refreshed only when the page has history and the last refresh is older than 10 blocks of writes |
| TwoA.GcRun | sim/TwoAGC.hpp:197-328 | performGC on the flash keeps the invariant and the mapped pages, and a freed block is writable |
| TwoA.GcHeadFreed | sim/TwoAGC.hpp:306-327 | as written: a full GC head with no valid page that is its group's greedy victim is freed at once, and the GC heads come back unchanged, still naming it |
| TwoA.TwoAGC.WritePage | sim/TwoAGC.hpp:90-154 | the head is ChosenHead of the page's history at the old time under the thresholds then in effect (refreshed from the sample when the page has history and they are stale); the page's history gets the current time and the clock advances; a writable head takes the device's buffered write; a full head is replaced by the front of the free list, or by the block GcRun frees when the list is empty (with the counters of CountersAfterGc), and the write succeeds exactly when that block is writable, and then goes to it; on success the head's three write counters go up by one and the device holds exactly the old pages plus the written one; a failure means the head was full and leaves the flash, the write buffer and the GC heads unchanged, with the popped block installed (free list non-empty) or, after a failed GC, the old heads, an empty free list and the counters of CountersAfterGc; after a GC the thresholds, their refresh time and the GC reset time are what performGC's refresh and reset leave, otherwise as the head choice left them |
| TwoA.TwoAGC.WriteToHead | sim/TwoAGC.hpp:133-146 | the write half of writePage, with the same three cases as WritePage and the same held pages on success; the thresholds and both refresh times change only when a GC runs, as performGC says |
| TwoA.TwoAGC.TakeAndWrite | sim/TwoAGC.hpp:138-146 | a full head with free blocks: the front of the free list is popped and becomes the head; the write succeeds exactly when it is writable, goes to it, and counts one write for the head; a failure leaves the flash, the buffer and the counters unchanged |
| TwoA.TwoAGC.CollectAndWrite | sim/TwoAGC.hpp:135-146 | a full head with no free block: the write succeeds exactly when GcRun frees a block; that block becomes the head, the GC heads become the run's, the counters those of CountersAfterGc with one more write for the head; a failure leaves the flash, the buffer, the heads and the GC heads unchanged and the counters those of CountersAfterGc; the thresholds are refreshed when a GC group exists and they are stale, and the GC reset time moves to now exactly when the counters were reset |
| TwoA.TwoAGC.ReplaceHead | sim/TwoAGC.hpp:133-142 | with free blocks, the front of the list is popped and replaces the head, and the replacement succeeds exactly when that block is writable, with the flash unchanged; with none, it succeeds exactly when GcRun frees a block, which replaces the head, and the GC heads and the flash become the run's, and otherwise fails with the flash, the heads and the GC heads unchanged; the counters are reset as CountersAfterGc says exactly when a GC ran, and so are the GC reset time and the stale thresholds (when there is a GC group); every page stays mapped |
| TwoA.TwoAGC.PerformGC | sim/TwoAGC.hpp:197-328 | the counters reset once 10 blocks of writes have passed since the last reset; with a GC group, stale thresholds are refreshed from the sample and their refresh time moves to now; on success the device ran the grouped reclamation in the GC group with the three callbacks, and the freed block joins the free list; on failure the flash, the free list and the GC heads are unchanged |
| TwoA.TwoAGC.ReclaimInGroup | sim/TwoAGC.hpp:306-327 | on success the GC heads are those the callbacks left and the freed block is erased and free; on failure the flash, the free list and the GC heads are unchanged |
| TwoA.TwoAGC.PickGroup | sim/TwoAGC.hpp:246-303 | the GC group is GcGroup of the blocks |

## Left out

- Device sizes: the constructor takes the number of zones, pages per zone, logical pages and buffer size directly. The source derives them from capacity, zone size, page size and a floating-point fill factor.
- Reclaim.Rounds, Reclaim.GroupedRounds: the source loops until a victim empties and has no termination argument. The model runs at most a given number of rounds and reports RoundLimit when they run out.
- The mutex (`ssdMutex`) is left out; the model is sequential.
- Statistics and printing are left out: `stats`, `printInfo`, `printBlocksStats`, `writeStatsFile`, `resetPhysicalCounters`, `hackForOptimalWASetPhysWrites`, the per-page `_mappingUpdatedCnt`/`_mappingUpdatedGC` counters, and the policies' stats counters. The exception is TwoAGC's three per-head write counters, which the model keeps. The flash keeps one physical write counter.
- `Block::invalidationTimes` is never written by the core and is not modelled.
- Integer widths: counters, erase counts, ages and the TwoAGC clock are unbounded. The DTE death-time arithmetic wraps modulo 2^64 as in the source.
- Fatal `ensure`/`raise(SIGINT)` checks become error results where the source would stop the process. An aborted operation does not always leave the old state; each contract states the state it leaves:
- Generational.GenerationalGC.ReplaceHead: when the front of the free queue is not writable, it has already been popped and installed as the write head when the write fails.
- TwoA.TwoAGC.ReplaceHead: likewise, an unwritable front of the free list is popped and installed as the head before the failure.
- Deathtime.DTE.WriteGroupPages: a failure after some pages of the group keeps those writes, and any GC that ran.
- Deathtime.DTE.FlushPages: a failing group leaves the earlier groups written, and no history cleared.
- Deathtime.DTE.WritePage: a failing flush leaves the recorded time, the buffered page and the groups written so far.
- Generational.GenerationalGC.PickGcBlock: the entry 0 it inserts for a new generation stays in the map when performGC then fails (`Generational.HeadsRead`).
- Victims.Greedy: when no block is admitted, the source's `singleGreedy` reads an uninitialised index. The model answers -1 (no victim) instead.
- Generational.GcBlockFor: kept as written. The source's `gcWriteHeads[gen]` inserts 0 for an unseen generation, so block 0 becomes that generation's GC block whatever it holds. GcBlockFor returns 0 there, and PickGcBlock inserts the entry.
- TwoAGC's floating-point parts come from a parameter (`TwoA.Oracle`), because they need random sampling and floating point: the percentile thresholds (computed from a random sample of pages), `newOptWA`, `greedyApproxWA`, the group-fill rule and `justDoGreedy`.
- TwoA.ChosenHead: the floating-point mean interval `sum / n > p` is compared exactly on integers as `sum > p * n`.
- TwoA.TwoAGC.PerformGC: the GC-time threshold refresh happens once before the reclamation. In the source it may happen inside each destination callback; that refresh is not modelled.
- TwoA.TwoAGC.constructor: the source assumes enough blocks for two heads per group and enough spare blocks. The model states these as preconditions.
- The clock: DTE's `currentTime()` reads the system clock. The model takes the time as a parameter of `Deathtime.DTE.WritePage`.
- Deathtime.SelectBlocks: `std::sort` orders blocks by death time only, and the order of ties is unspecified. The model breaks ties by block id. `PairSort.SortedUnique` shows that any sort of the (time, id) pairs gives the same order.
- The DTE victim scan keeps the source's UINT64_MAX sentinel. When no block beats it, the result is `zones`, and performGC then does nothing.
- DTE quirks kept as written:
  - `fullBlocks` is never filled, so `performGC` returns at once unless it is called on a state built some other way;
  - `cachedPageIds.clear()` after a flush also drops pages that GC queued during that flush, so their data is lost unless the LRU buffer still holds them (`DteKeeps.DrainedDrops`);
  - no page is ever written to `currentBlock`, so it never fills and `writePage` never replaces it;
  - `updateBlockDeathTime` sums the estimates of all pages' histories, not just the block's.
- Blocks.Block: blocks are values that the device replaces, not objects updated in place. `Block&` aliasing between the device and the policies is not modelled.
- Lru.Touch: the LRU list is a sequence value, and the hash map into it is not modelled separately.
- Reclaim.Rounds: carries the correction of the first Findings row. When the emptied victim is the GC block itself, the GC block handed back is -1; the source hands back the freed block (sim/SSD.hpp:519). `Reclaim.AsWrittenAgrees` shows that this is the only difference from the loop as written.
- Reclaim.CompactUntilFree: runs the corrected Rounds, and so hands back -1 as the GC block after a self-victim.
- Ssd.Device.CompactUntilFreeBlock: likewise returns -1 as the GC block after a self-victim.
- Generational.GcRun: likewise, so after a self-victim the model sets `gcWriteHeads[gen]` to -1, where the source stores the freed block (sim/Generational.hpp:114) while also queueing it as free.
- Generational.GenerationalGC.PerformGC: the same -1 for `gcWriteHeads[gen]` after a self-victim.
- Deathtime.GcEffects: uses the corrected erase of the second Findings row (`Ftl.Scrubbed`), which unmaps the victim's pages before erasing it; the source's `eraseBlock` leaves them mapped into the erased block.
- Deathtime.DTE.PerformGC: the same corrected erase.
- Deathtime.DTE.ReclaimVictim: the same corrected erase.
- Ftl.ScanFrom: a destination callback that answers an out-of-range block is reported as `DestinationRejected`; the source indexes `_blocks[destinationId]` without a check (sim/SSD.hpp:470-471). `Ftl.MovePagesBy` and `Ssd.ScanPages` inherit this.
- TwoA.GcRun: kept as written. A full GC head with no valid page can be its group's greedy victim; the grouped reclamation frees it at once and does not tell the policy, so performGC queues it as free while `gcWritesHeads` still names it (`TwoA.GcHeadFreed`). The grouped variant returns no GC block, so there is no single corrected value to give; the model does not correct it.
- Ssd.Device.EraseBlock: the model uses the corrected erase, which unmaps the block's pages before erasing it (see Findings). On a block with no valid page it equals the source's erase (`Ftl.ScrubbedEmpty`).

## Findings

| source | as written | input that shows it | evidently intended | confidence | as-written member | corrected member |
|---|---|---|---|---|---|---|
| sim/SSD.hpp:506-519 | when the next victim is the GC block itself, `moveValidPagesTo(victim, gc)` moves nothing and reports the victim empty; the loop stops, erases the block and returns it both as the freed block and as the GC block; Generational's performGC (sim/Generational.hpp:114-115) then queues it as free and keeps it as the generation's GC head | a GC block that is fully written and holds no valid page, which `nextBlock` names as the victim | the freed block is not handed back as the GC block still in use (no GC block is left) | not executed | Reclaim.SelfVictimFreedTwice | Reclaim.Rounds |
| sim/Deathtime.hpp:185-199 | performGC queues the victim's valid pages and then calls eraseBlock, which clears the block without touching the logical-to-physical table | a victim block with at least one valid page whose logical page is mapped to it | the victim's pages are unmapped (or moved) before the erase, so no logical page points into an erased block | not executed | Mapping.EraseWithValidPageBreaksMapping | Ftl.ScrubbedUnmaps |
