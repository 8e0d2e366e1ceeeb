# A verified model of the virtual memory simulator in A2-zengzix2

The simulator runs a trace of memory accesses through demand paging: a three-level page table, a
coremap of small frames, a swap file with a bitmap of slots, and a replacement policy on intrusive
lists. Its page table allocates through a tracking allocator that sits on an open-addressing hash
table. This project models these parts in Dafny and proves what they promise.

- **Paging is flat memory.** `Paging` is one access as a function on the whole state.
  `PagingInvariant`, `PagingRefinement` and `PagingCounters` prove what every reachable state keeps,
  that every run returns at each address the byte last stored there whatever frames the policy names,
  up to the first access to a page that swap had no room for, and that the statistics add up.
  `Visits`, `Replacement` and `SwapSpace` tell the dirty bits and the statistics, the victims, and how
  far a run gets from the accesses alone, with sets, a queue and times in place of the state.
  `PagingLimits`, `SwapCapacity` and `FrameLimit` show exactly where the limits lie, in offsets, slots
  and frames, and give a run that fails beyond each.
- **The records in memory do that.** `MemoryManager` and `Simulation` are the C code's records and
  loops on the heap: page table entries, frames, bytes, counters. Each method is proved to change the
  records as the function in `Paging` says. `Simulation.Simulate` joins them, from allocation to
  teardown, with the Clock or the S2Q policy on linked lists, and is the run of the model with the
  victims `PolicySpec` names, which `Replacement` tells from the accesses. Its allocator is `Ledger.Tracker`, which keeps the ledger's books and
  stands in for the hash table; `KMalloc.KMalloc.Replay` proves that the allocator on the table keeps
  the same books over a run, and `Ledger.LedgerTracks` that they agree on what is in use.
- **Parts.** `RadixTable` and `Teardown` (page table), `Bitmap` and `SwapFile`, `IntrusiveList`,
  `ClockSpec` and `Clock`, `S2QSpec` and `S2Q`, `PolicySpec` (both policies on frame numbers, and
  their victims over a run), `Policies` (what the coremap may rely on).
- **The hash table.** `Powers`, `Words`, `Probing`, `FlagWords`, `HashLayout` and `KHash` are
  `khash.h` on its packed flag words and arrays, with the in-place rehash that kicks elements out;
  `HashLimit` fills the largest table. `Ledger` and `KMalloc` are the allocator on it.

`dafny verify dfyconfig.toml` checks the whole project. Where a predicate over the heap only has to be
handed on, it is put behind a few steps of recursion (`Seals`), so that the proof does not look
inside; a lemma named `Break...` opens it. `PolicySpec.Claim` does the same for what a step has done
to the state.

## Where the code and its documents differ

- HANDOUT.md line 30 keeps page offsets to 0-15, but the filter at `csc369_trace.c:103` lets 16
  through (`PagingLimits.OffsetSixteenSpills`), and with it traces that do not read flat memory
  (`PagingLimits.OffsetSixteenBreaksRefinement`). Offsets below 16 are exactly what is needed
  (`PagingLimits.ExactlyWithinFrames`).
- `CSC369_PageTableSearch` reduces its third index by 2^24, `CSC369_PageTableAllocate` by 2^12
  (`RadixTable.SearchIndex`, `RadixTable.Tree.Search`), so a page just allocated may not be found
  (`RadixTable.Tree.AllocateThenSearch`). The simulator itself only calls Allocate.
- HANDOUT.md lines 143-146 write out dirty victims only; the code writes every victim. In every
  reachable state the two agree (`PagingRefinement.DirtyOnlyIsEnough`).
- HANDOUT.md lines 168-169 expect an exit when swap is full; the code logs and goes on, and stops
  exactly at the first access to a page it has lost by then (`PagingRefinement.RunStops`,
  `PagingLimits.LostPage`, `PagingLimits.RunOutOfSwap`). A slot for each page is exactly what rules
  this out for two pages or more (`SwapCapacity.ExactlyEnoughSlots`).
- The number of frames is a `size_t`, but `csc369_swap.c` takes a frame's number and computes its
  address as `unsigned int`: from frame 2^28 on it swaps the bytes of another frame
  (`FrameLimit.FarRun`, `FrameLimit.ExactlyAddressable`).
- `kh_put` cannot double a table of 2^31 buckets: the rounding macro wraps and `kh_resize` answers 0
  without doing anything. The table then fills up, and once all its buckets are live an absent key is
  given the bucket of another one (`KHash.KHash.Put`, `HashLimit.PutIntoFullTable`).

## Model

| member | source | states |
|---|---|---|
| `Words.RoundUpIsLeast` | A2-zengzix2/src/khash.h:178-187 | `kroundup32` yields the least power of two not below its argument, for every argument from 1 to 2^31 |
| `Words.RoundUpWraps` | A2-zengzix2/src/khash.h:178-187 | for 0 and for arguments above 2^31 the 32-bit arithmetic of the macro ends at 0 |
| `Words.MaskIsRemainder` | A2-zengzix2/src/khash.h:248-254 | masking with a power of two less one is the remainder by that power, bit by bit |
| `FlagWords.MacrosLocal` | A2-zengzix2/src/khash.h:165-174 | each flag macro changes the two bits of its own bucket as its name says and no bit of another bucket |
| `FlagWords.NewFlags` | A2-zengzix2/src/khash.h:274-279 | the allocated words, filled with 0xaa, decode to buckets that are all empty |
| `Probing.ProbesDistinct` | A2-zengzix2/src/khash.h:246-254 | no two of the first n triangular probes of a table of n = 2^k buckets meet |
| `Probing.ProbesCover` | A2-zengzix2/src/khash.h:246-258 | the first n probes inspect every bucket |
| `Probing.ProbeIs` | A2-zengzix2/src/khash.h:246-256 | probe s of a key is its hash plus s (s + 1) / 2, modulo the number of buckets |
| `Probing.FirstReturn` | A2-zengzix2/src/khash.h:251-256 | the probes are back at their start no earlier than after 2n - 1 steps, so the exit on that condition comes after a full inspection |
| `Probing.ReturnsAfterRound` | A2-zengzix2/src/khash.h:254-256 | they are back at their start after 2n - 1 steps, so the probe loops end |
| `Probing.NextBucket` | A2-zengzix2/src/khash.h:254-256 | one probe step in 32-bit arithmetic goes to the next triangular probe, and finds itself back at the start only after n steps |
| `HashLayout.UpperBoundRobust` | A2-zengzix2/src/khash.h:202-271 | the load limit in floating point is the whole number used here, for every product computed to within 1/100 |
| `HashLayout.UpperBoundFits` | A2-zengzix2/src/khash.h:347-369 | the load limit exceeds half the table, leaves a bucket, and doubling the table raises it above the old size |
| `HashLayout.MissedIsAbsent` | A2-zengzix2/src/khash.h:252-258 | a key missed up to an empty bucket, or for a whole round, is in no bucket |
| `HashLayout.StartMoving` | A2-zengzix2/src/khash.h:278-301 | the old table and fresh flags are a valid start of the in-place rehash |
| `HashLayout.PickUp` | A2-zengzix2/src/khash.h:302-309 | taking a live element in hand keeps every binding in the old layout, the new one or the hand |
| `HashLayout.Place` | A2-zengzix2/src/khash.h:311-336 | putting the element in hand at the first empty probe keeps the same, the displaced element, if any, being in hand next |
| `HashLayout.FinishMoving` | A2-zengzix2/src/khash.h:347-351 | with no live bucket left in the old layout the new layout holds exactly the map |
| `HashLayout.WellFormedInsert` | A2-zengzix2/src/khash.h:399-411 | adding a key at a free bucket on its probe sequence keeps layout, map, counters and load limit in agreement |
| `HashLayout.WellFormedDelete` | A2-zengzix2/src/khash.h:414-420 | a tombstone keeps the same for the map without the key |
| `KHash.KHash.Get` | A2-zengzix2/src/khash.h:244-261 | the returned bucket holds the key and its value if the key is in the map, and is `n_buckets` otherwise |
| `KHash.KHash.Walk` | A2-zengzix2/src/khash.h:373-390 | the probe loop of `kh_put` ends at an empty bucket, at the key or after a full round, remembering the last tombstone passed |
| `KHash.KHash.FindSite` | A2-zengzix2/src/khash.h:373-398 | the key's bucket if it is present; otherwise the last tombstone its probes pass on the way to the first empty bucket, or that bucket if they pass none, unless all are live |
| `KHash.KHash.KickOut` | A2-zengzix2/src/khash.h:310-337 | the chain of displaced elements ends; it loses no binding, and no old bucket becomes live again |
| `KHash.KHash.Rehash` | A2-zengzix2/src/khash.h:301-339 | after the loop over the old buckets none of them is live and the new layout holds the map |
| `KHash.KHash.Resize` | A2-zengzix2/src/khash.h:262-354 | the map never changes; with `size` not below the new table's load limit nothing does; -1 exactly when it is below and the flags, or to expand any of the three arrays, are refused; otherwise 0, with the rounded size and no tombstone |
| `KHash.TargetIsPow2` | A2-zengzix2/src/khash.h:262-270 | a request for n buckets gets the least power of two from n and 4 on, and 4 if the 32-bit rounding wraps around |
| `KHash.PutTargets` | A2-zengzix2/src/khash.h:360-369 | asking for one bucket less keeps the size and for one more doubles it, except that 2^31 + 1 wraps around to 4 |
| `KHash.KHash.MakeRoom` | A2-zengzix2/src/khash.h:358-372 | the map never changes; below the load limit nothing does; at the limit a new table gets 4 buckets, one with more than twice as many buckets as elements keeps its size and any other doubles, or stays as it is at 2^31 buckets; it fails exactly when the flags are refused in a clean-up, or any of the three arrays in a doubling |
| `KHash.KHash.Load` | A2-zengzix2/src/khash.h:347-369 | size <= n_occupied <= upper_bound < n_buckets, which is 0 or a power of two from 4 to 2^31, in every valid table; at 2^31 buckets n_occupied may pass upper_bound |
| `KHash.KHash.Insert` | A2-zengzix2/src/khash.h:373-413 | with room left the key ends up in that bucket, and the result code is 0 for a key present, 1 for a bucket never used, 2 for a tombstone reused; with all of 2^31 buckets live an absent key gets another key's bucket and 0 |
| `KHash.KHash.Put` | A2-zengzix2/src/khash.h:355-413 | for every valid table the number of buckets afterwards is the same, 4 or twice as many, by the rule of MakeRoom; -1 exactly when memory this needs is refused; otherwise the bucket returned is the key's exactly when the key was there or fewer than 2^31 elements were, no other binding changes, and the result code tells a key present, an empty bucket and a tombstone reused apart, in a layout that did not change the one the probes lead to |
| `HashLimit.FillTable` | A2-zengzix2/src/khash.h:355-413 | any number of keys up to 2^31 can be put into a new table, which then holds exactly them |
| `HashLimit.PutIntoFullTable` | A2-zengzix2/src/khash.h:360-411 | with 2^31 keys in the table the next one gets another key's bucket and the result 0, and is not in the table |
| `KHash.KHash.Del` | A2-zengzix2/src/khash.h:414-420 | exactly the binding of the bucket is removed, and nothing at the end iterator or a free bucket |
| `Ledger.FreedBit` | A2-zengzix2/src/csc369_kmalloc.c:36-37 | a size below 2^63 is not tagged, and tagging it is recognised |
| `Ledger.ReleaseConserved` | A2-zengzix2/src/csc369_kmalloc.c:134-140 | freeing an outstanding pointer passes the assertions on both balances and keeps the books conserved |
| `Ledger.RunBalanced` | A2-zengzix2/src/csc369_kmalloc.c:43-168 | over every run of malloc and free, pointers reused and refused requests included, the balances are the number and total size of the outstanding blocks |
| `Ledger.BalancesZero` | A2-zengzix2/src/csc369_kmalloc.c:210-219 | the count balance is zero exactly when every pointer recorded has been freed, and then no bytes are outstanding |
| `Ledger.LedgerTracks` | A2-zengzix2/src/csc369_kmalloc.c:42-168 | over every run of calls below the cap the ledger, which the hash table's allocator follows, has outstanding exactly what its caller has in use |
| `Ledger.AllGranted` | A2-zengzix2/src/csc369_kmalloc.c:52-67 | requests below 2 GB each, answered by the C library, that add up to no more than 2 GB are all granted and recorded, whatever is freed between them |
| `KMalloc.KMalloc.Malloc` | A2-zengzix2/src/csc369_kmalloc.c:42-89 | a request is granted exactly if the C library has memory, it is for less than 2 GB and the sizes granted so far and its own are no more than 2 GB; the allocator on the hash table aborts exactly when the table is refused memory for a request granted, and otherwise does to its books what the abstract ledger does, as long as the pointer is known or the table has fewer than 2^31 entries |
| `KMalloc.KMalloc.Free` | A2-zengzix2/src/csc369_kmalloc.c:91-168 | each of the outcomes (NULL, unknown, freed before, assertion, freed) occurs exactly in its case, and the books change accordingly |
| `KMalloc.KMalloc.Replay` | A2-zengzix2/src/csc369_kmalloc.c:42-168 | over every run of malloc and free that leaves the table below 2^31 entries the allocator on the hash table ends with the books of the ledger, unless a malloc is refused memory for the table; requests below 2 GB each that add up to no more are all answered with the C library's pointer |
| `KMalloc.KMalloc.IsLeakFree` | A2-zengzix2/src/csc369_kmalloc.c:210-219 | with no tolerance the answer is yes exactly when every pointer recorded has been freed |
| `Bitmap.Bitmap.constructor` | A2-zengzix2/src/csc369_bitutil.c:89-123 | no bit below the size is set and all bits beyond it are |
| `Bitmap.Bitmap.Alloc` | A2-zengzix2/src/csc369_bitutil.c:135-156 | the lowest clear bit below the size is returned and set, no other changes; failure exactly when all are set |
| `SwapFile.Swap.PageIn` | A2-zengzix2/src/csc369_swap.c:85-109 | the frame's bytes become those of the slot as far as the file has them; 0 unless the file ends within the slot |
| `SwapFile.Swap.PageOut` | A2-zengzix2/src/csc369_swap.c:111-145 | the frame's bytes are written to the page's slot, or to the lowest free one; without one nothing changes and the failure is returned |
| `PagingLimits.SwapAddressExact` | A2-zengzix2/src/csc369_swap.c:135-139 | the unsigned address of a frame is right exactly for frames below 2^28 |
| `PagingLimits.SwapAddressAlias` | A2-zengzix2/src/csc369_swap.c:98-102 | frame 2^28 is taken for frame 0 |
| `Machine.FlatKinds` | A2-zengzix2/src/csc369_simulation.c:166-183 | in flat memory a store or a modify leaves its value at its address and nothing else changes; a load or a fetch changes nothing |
| `PagingInvariant.SlotLeft` | A2-zengzix2/src/csc369_swap.c:111-122 | while there are no more pages than slots, a page without a slot finds one |
| `PagingInvariant.EvictionAccounted` | A2-zengzix2/src/csc369_mm.c:134-157 | eviction keeps the count of slots in use equal to that of the pages owning one, whatever the bytes are and however many frames there are |
| `PagingInvariant.EvictionSound` | A2-zengzix2/src/csc369_mm.c:134-157 | with at most 2^28 frames and any number of slots, eviction keeps slots unshared and clean pages saved, empties the victim's frame and changes the contents of no page not lost; it loses the victim exactly when that has no slot and none is clear, and no other page |
| `PagingInvariant.MissSound` | A2-zengzix2/src/csc369_mm.c:79-110 | with at most 2^28 frames, or where nothing is swapped, a miss fails exactly on a lost page; otherwise it makes the page resident in a frame of its own, changes the contents of no page and loses none but a victim without room |
| `PagingRefinement.TranslationMapped` | A2-zengzix2/src/csc369_coremap.c:105-131 | frames in use and valid entries point at each other after every translation, whatever the policy answers and even if swap is full |
| `PagingRefinement.TranslationSound` | A2-zengzix2/src/csc369_mm.c:66-125 | with at most 2^28 frames, or where nothing is swapped, translation fails exactly on a lost page; otherwise it keeps the invariant, changes no page and dirties a page it is asked to write |
| `PagingRefinement.ExecuteLost` | A2-zengzix2/src/csc369_simulation.c:151-184 | with any number of frames and whatever the bytes, an access within its frame stops exactly on a lost page, and loses exactly a victim without room |
| `PagingRefinement.ExecuteSound` | A2-zengzix2/src/csc369_simulation.c:151-184 | with at most 2^28 frames, or where nothing is swapped, an access stops exactly on a lost page; otherwise it reads or leaves the byte of its page and offset, changes no other byte of any page and loses no page but a victim without room |
| `PagingRefinement.RunStops` | A2-zengzix2/src/csc369_simulation.c:151-213 | with any number of frames, a run stops before access n exactly when the accesses before it get through and leave the page of access n lost |
| `PagingRefinement.RunEnds` | A2-zengzix2/src/csc369_simulation.c:151-213 | with a slot for each page, or a frame for each page, every run gets to its end |
| `PagingRefinement.RunFits` | A2-zengzix2/src/csc369_simulation.c:151-213 | with a frame for each page, as HANDOUT.md lines 161-162 suggest for a first test, every run is that of flat memory, however many frames and however few slots there are |
| `PagingRefinement.PagingRefinesFlatMemory` | A2-zengzix2/src/csc369_simulation.c:151-213 | for every number of frames up to 2^28, and any that holds all pages of the trace, for every number of slots and under every policy, each access finds at its address the byte last stored there, or 0, to the end of the trace or up to the first access to a page lost by then; with a slot or a frame for each page of the trace the run gets to its end |
| `PagingRefinement.LogIsExact` | A2-zengzix2/src/csc369_simulation.c:170-183 | for the same sizes, as far as a run goes, the mismatches reported are exactly those of the trace against flat memory |
| `PagingRefinement.CleanVictimNeedsNoWrite` | A2-zengzix2/src/csc369_mm.c:139-156 | with at most 2^28 frames, paging out a clean victim leaves file, bitmap and offset as they are |
| `PagingRefinement.DirtyOnlyIsEnough` | A2-zengzix2/src/csc369_mm.c:139-156 | with at most 2^28 frames, the unconditional page-out equals the dirty-only one of HANDOUT.md in every reachable state |
| `PagingCounters.EvictionCounts` | A2-zengzix2/src/csc369_mm.c:139-143 | an eviction is counted once, as dirty or clean as the page is, and only a dirty page takes a new slot |
| `Visits.EvictedEntry` | A2-zengzix2/src/csc369_mm.c:134-157 | a page put out is then not valid, not dirty and on swap, whatever it was; no other entry and no frame changes, and it is counted dirty exactly if it was |
| `Visits.TranslationDirty` | A2-zengzix2/src/csc369_mm.c:79-124 | after every translation the page is dirty exactly if the access is a store or a modify, or zero-filled the page, or found it in memory and dirty; every other page in memory keeps its entry, and no page out of memory is dirty |
| `Visits.KindsOfAccess` | A2-zengzix2/src/csc369_simulation.c:151-184 | a store or a modify leaves its value in the page's byte and the page dirty; a load or a fetch returns the page's byte, leaves every byte as it is, and does not dirty a page that was in memory |
| `Visits.StatisticsFromTrace` | A2-zengzix2/src/csc369_mm.c:79-143 | at the end of every run the five counters, modulo 2^32, and the dirty pages are those told from the accesses and the victims alone: which page each frame holds, and which of them were zero-filled or written since they came |
| `PagingCounters.ReportedStatistics` | A2-zengzix2/src/csc369_simulation.c:186-198 | at the end of every run shorter than 2^32, whatever its offsets and for every number of frames and slots: references = hits + misses, evictions = the misses in excess of the frames, slots taken <= dirty evictions |
| `PagingLimits.PageOutSucceeds` | A2-zengzix2/src/csc369_swap.c:114-123 | a page-out succeeds exactly when the page has a slot or one is clear |
| `PagingLimits.LostPage` | A2-zengzix2/src/csc369_mm.c:94-110 | with any number of frames, a lost page stays lost over every run, and a run that comes to it stops there at the latest: only a run that does not need it gets to its end |
| `SwapSpace.AccessReaches` | A2-zengzix2/src/csc369_mm.c:79-157 | an access within its frame stops exactly on a page put out earlier without a slot, a page put out taking a slot for good if it has none and fewer pages than slots have |
| `SwapSpace.LengthFromTrace` | A2-zengzix2/src/csc369_simulation.c:200-213 | so how far every run gets is told from its accesses and the victims, for every number of frames and slots |
| `PagingLimits.RunOutOfSwap` | A2-zengzix2/src/csc369_mm.c:94-156 | a run from the initial state that does so: two pages taking turns in one frame with one slot, stopped at its fourth access |
| `SwapCapacity.ExactlyEnoughSlots` | A2-zengzix2/src/csc369_swap.c:111-122 | every run over a set of pages, on any number of frames and under any policy, gets to its end if and only if there is a slot for each page of the set, or it has at most one page |
| `FrameLimit.FarRun` | A2-zengzix2/src/csc369_swap.c:135-139 | a run from the initial state on any number of frames above 2^28: page 2^28 is stored to, put out from frame 2^28 and loaded again, and a zero is found |
| `FrameLimit.ExactlyAddressable` | A2-zengzix2/src/csc369_swap.c:98-139 | on a given number of frames every run within its frames, with a slot for each page and under every policy, returns the bytes of flat memory if and only if the frames are at most 2^28 or at least the 2^36 that hold all 48-bit addresses |
| `PagingLimits.ExactlyWithinFrames` | A2-zengzix2/src/csc369_simulation.c:151-213 | for a trace of 48-bit addresses: every run, on every machine with at most 2^28 frames or a frame for each page, a slot or a frame for each page, and under every policy, ends and returns the bytes of flat memory, if and only if every access has an offset below 16 |
| `PagingLimits.OwnFrame` | A2-zengzix2/src/csc369_simulation.c:161-164 | an access to a page not lost completes, reads or leaves its page's byte and changes no other, in every state of the invariant with at most 2^28 frames, if and only if its offset is below 16 |
| `PagingLimits.OffsetSixteenSpills` | A2-zengzix2/src/csc369_trace.c:103-110 | a store at offset 16 passes the filter and lands in the next frame, or outside memory from the last one |
| `PagingLimits.OffsetSixteenBreaksRefinement` | A2-zengzix2/src/csc369_trace.c:103-110 | a run from the initial state, of accesses that all pass the filter, ends with a byte that flat memory does not hold |
| `RadixTable.PagesAreTriples` | A2-zengzix2/src/csc369_page_table.c:239-267 | page numbers and index triples correspond one to one |
| `RadixTable.IndexTriple` | A2-zengzix2/src/csc369_page_table.c:239-267 | the three indices Allocate takes from a 48-bit address are those of its page number, and within the tables |
| `RadixTable.SearchIndex` | A2-zengzix2/src/csc369_page_table.c:218-219 | the third index of Search is that of Allocate, and within the table, exactly when address bits 24 to 35 are zero |
| `RadixTable.Tree.constructor` | A2-zengzix2/src/csc369_page_table.c:156-178 | a new tree has one table, no page, and exactly two blocks from the allocator |
| `RadixTable.Tree.EnsureEntry` | A2-zengzix2/src/csc369_page_table.c:242-247 | an empty slot gets a new entry, with its block; a filled one is returned and nothing changes |
| `RadixTable.Tree.EnsureTable` | A2-zengzix2/src/csc369_page_table.c:252-257 | an entry without a table gets one, with its two blocks; otherwise nothing changes |
| `RadixTable.Tree.Allocate` | A2-zengzix2/src/csc369_page_table.c:232-282 | the page's entry is returned: the one it had, with nothing changed, or a new one, no other page and no existing entry being affected |
| `RadixTable.Tree.PagesDistinct` | A2-zengzix2/src/csc369_page_table.c:274-281 | different pages have different entries |
| `RadixTable.Tree.Search` | A2-zengzix2/src/csc369_page_table.c:195-230 | what Allocate installed is found, and nothing else, except that the read leaves the table exactly when the table of the last level exists and bits 24 to 35 are not zero |
| `RadixTable.Tree.SearchByAllocateIndex` | A2-zengzix2/src/csc369_page_table.c:195-230 | the same walk with the 12-bit third index of Allocate finds exactly what Allocate installed, for every address |
| `RadixTable.Tree.AllocateThenSearch` | A2-zengzix2/src/csc369_page_table.c:195-282 | a page just allocated is found by the code's search if bits 24 to 35 of its address are zero; otherwise the search leaves the table |
| `Teardown.DestroyTable` | A2-zengzix2/src/csc369_page_table.c:180-193 | the table's blocks and all those below it are freed, each while still in use, and no others |
| `Teardown.DestroyEntry` | A2-zengzix2/src/csc369_page_table.c:55-61 | the entry's block and all those below it are freed, and no others |
| `Teardown.Destroy` | A2-zengzix2/src/csc369_page_table.c:180-193 | after destroying the root's table exactly the blocks from before its creation are in use, with one free for each block of the tree |
| `Teardown.BalancesRestored` | A2-zengzix2/src/csc369_kmalloc.c:181-193 | both balances of the allocator are then what they were before |
| `Teardown.BlockCount` | A2-zengzix2/src/csc369_page_table.c:232-282 | a tree holds 2 + 3 * L1 + 3 * L2 + L3 blocks, L1, L2 and L3 being the distinct first, second and third level prefixes of its pages |
| `Teardown.TreeBytes` | A2-zengzix2/src/csc369_page_table.c:38-178 | and 32776 bytes for each table, 32 for each entry, are outstanding more than before the tree was created |
| `IntrusiveList.Insert` | A2-zengzix2/src/list.h:119-127 | inserting between the last and the first entry of a circle makes the longer circle |
| `IntrusiveList.AddHead` | A2-zengzix2/src/list.h:129-141 | the entry follows the head |
| `IntrusiveList.AddTail` | A2-zengzix2/src/list.h:143-155 | the entry precedes the head |
| `IntrusiveList.Del` | A2-zengzix2/src/list.h:157-169 | the other entries close up in order and the entry is unlinked |
| `ClockSpec.SecondChance` | A2-zengzix2/src/csc369_policy_clock.c:81-115 | the sweep stops within one round and one step at the first unreferenced frame, or where it began if all are referenced, having cleared exactly the bits passed |
| `Clock.Clock.OnRef` | A2-zengzix2/src/csc369_policy_clock.c:41-73 | the ring stays the frames in index order with `list` behind the hand: a new frame at the end, a reused one in its old place |
| `Clock.Clock.Sweep` | A2-zengzix2/src/csc369_policy_clock.c:81-115 | the loop on the linked list ends at the array clock's victim, with its bits |
| `Clock.Clock.Evict` | A2-zengzix2/src/csc369_policy_clock.c:75-119 | eviction is that of a hand index going round an array, for every number of frames from one on |
| `S2QSpec.NeverEmpty` | A2-zengzix2/src/csc369_policy_s2q.c:97-119 | with all frames queued the queue evicted from is not empty, so no list head is evicted |
| `S2QSpec.VictimIsOldest` | A2-zengzix2/src/csc369_policy_s2q.c:106-119 | the victim is the oldest page referenced once, or the least recently used of the others |
| `S2QSpec.RunOrdered` | A2-zengzix2/src/csc369_policy_s2q.c:53-120 | over every run A1 is ordered by time of loading and Am by time of last reference |
| `S2Q.S2Q.OnRef` | A2-zengzix2/src/csc369_policy_s2q.c:53-80 | the two linked queues change as the two sequences do, and the reference bit keeps telling the queue |
| `S2Q.S2Q.CountA1` | A2-zengzix2/src/csc369_policy_s2q.c:97-102 | the walk around the circle counts the queue |
| `S2Q.S2Q.Evict` | A2-zengzix2/src/csc369_policy_s2q.c:92-120 | a frame, never a list head, leaves its queue: of A1 the first loaded if A1 has more than a tenth of memory, of Am the least recently referenced otherwise |
| `PolicySpec.NumbersTouch` | A2-zengzix2/src/csc369_policy_s2q.c:53-80 | the queues of frames and the queues of their numbers stay in step over a reference |
| `PolicySpec.NumbersEvict` | A2-zengzix2/src/csc369_policy_s2q.c:92-120 | and over an eviction, which names the same frame |
| `PolicySpec.VictimsExtended` | A2-zengzix2/src/csc369_coremap.c:112-120 | the victims named over a trace are those of the shorter trace and the policy's answer in the state then reached |
| `Policies.Evict` | A2-zengzix2/src/csc369_coremap.c:112-120 | either linked policy names the frame its specification on frame numbers names, whose page is then not referenced, and keeps exactly the other frames in use |
| `Policies.OnReference` | A2-zengzix2/src/csc369_simulation.c:158-159 | either policy then keeps all frames in use again, in the order of its specification |
| `Replacement.SweepIsQueue` | A2-zengzix2/src/csc369_policy_clock.c:75-119 | the sweep from the hand is a queue in the order of loading, whose head goes to its end, without its reference bit, until one without the bit is at the head |
| `Replacement.TimesVictim` | A2-zengzix2/src/csc369_policy_s2q.c:92-120 | told from times of loading and last reference alone: with more than a tenth of the frames referenced once, the victim is the first loaded of those, otherwise the least recently referenced of the others |
| `Replacement.VictimsFromTrace` | A2-zengzix2/src/csc369_coremap.c:105-131 | over every run from power-on, also one that stops, each victim named is the one told from the accesses: by the queue with second chances, or by those times |
| `MemoryManager.Mm.constructor` | A2-zengzix2/src/csc369_mm.c:33-56 | the records just created are the initial state of the model |
| `MemoryManager.Mm.FindFreeFrame` | A2-zengzix2/src/csc369_coremap.c:79-92 | the first free frame, if there is one |
| `MemoryManager.Mm.ClearFrame` | A2-zengzix2/src/csc369_coremap.c:94-103 | exactly the sixteen bytes of the frame become zero |
| `MemoryManager.Mm.HandleEviction` | A2-zengzix2/src/csc369_mm.c:134-157 | the records change as the model's eviction says, and the victim's entry is then not valid, not dirty and on swap |
| `MemoryManager.Mm.AllocateFrame` | A2-zengzix2/src/csc369_coremap.c:105-131 | a free frame or the policy's specified victim, emptied, is recorded as the page's, and the policy waits for its reference |
| `MemoryManager.Mm.Lookup` | A2-zengzix2/src/csc369_mm.c:74 | finding or making the page's entry adds at most that entry to the state |
| `MemoryManager.Mm.GetFrameNumber` | A2-zengzix2/src/csc369_mm.c:66-125 | the records change as the model's translation says, with the victim the policy's specification names; the dirty bits are then as a store or modify, a zero-fill and the bits before make them, and no others change |
| `MemoryManager.Mm.ExecuteMemInstruction` | A2-zengzix2/src/csc369_simulation.c:151-184 | the records change as the model's access says, with the specified victim, and the policy's order as specified for the frame referenced; the byte is the one in the page's frame, for a store or a modify the value of the access, and the dirty bits are as for a translation |
| `Simulation.Execute` | A2-zengzix2/src/csc369_simulation.c:200-213 | the loop is the model's run with the victims the policy's specification names, to its end or to where it stops, and logs its mismatches |
| `Simulation.Create` | A2-zengzix2/src/csc369_simulation.c:44-103 | what the simulator builds, for any number of frames from one on, is the model's initial state, whichever policy is chosen |
| `Simulation.DestroyMm` | A2-zengzix2/src/csc369_mm.c:58-64 | nothing allocated through the tracking allocator is left |
| `Simulation.Simulate` | A2-zengzix2/src/csc369_simulation.c:44-213 | a whole simulation of any trace of 48-bit addresses, on any number of frames and slots, with Clock or S2Q, is the model's run; its victims are those told from the accesses by second chances or by times; logged are exactly the loads and fetches that found another byte than expected; with offsets below 16 it gets as far as the slots allow, told from accesses and victims, to the end if there is a slot or a frame for each page, and on at most 2^28 frames, or one for each page, it reads flat memory; if it ends the statistics are those told from accesses and victims, modulo 2^32, and no block is left allocated |

## Left out

- KHash.KHash.Resize: a `realloc` that shrinks an array is taken to succeed, as the code takes it; any hash function is allowed, and key comparison is equality.
- KMalloc.KMalloc.Malloc: what the C library answers, and whether it has memory for the table, are parameters; it never answers a pointer still outstanding. Counters and sizes are unbounded, which the 2 GB cap justifies.
- PagingRefinement.PagingRefinesFlatMemory: offsets below 16, and at most 2^28 frames or a frame for each page; `PagingLimits.ExactlyWithinFrames` and `FrameLimit.ExactlyAddressable` show that both are needed.
- PagingCounters.ReportedStatistics: fewer than 2^32 accesses, the range of the counters.
- Simulation.Simulate: Clock and S2Q only; the random and round-robin policies are covered by the theorem for every policy in `PagingRefinement`, not on the heap.
- Simulation.Simulate: the records of a run that stops are not described, as the process is at an end then.
- MemoryManager.Mm.ExecuteMemInstruction: a failed assertion and an access outside physical memory both end the run.
- MemoryManager.Mm.HandleEviction: the setters of an entry's fields are applied together at the end of each function.
- RadixTable.Tree.Allocate: allocation through `CSC369_malloc` succeeds; the 2 GB cap is in the allocator's own model only.
- RadixTable.Tree.Search: an index beyond the table is reported as such instead of what the memory there would hold.
- HashLayout.UpperBoundRobust: floating point is represented by any real product within 1/100 of the exact one.
- The array of frames is a fixed sequence of objects, and an entry embedded in a frame is the frame: `container_of` is the identity.
- The swap file is a sequence of bytes whose reads and writes never fail; `lseek`, `mkstemp`, `unlink` and partial transfers are not modelled.
- Parsing of traces and arguments, logging, timing and signal handling.
- `kh_clear`, `kh_destroy`, the string and Wang hash functions, and the iteration macros of `khash.h`.
- The `CSC369_Bitfield*` helpers, which nothing calls.
- The 0xee fill in `CSC369_free`, and what `free` of the C library does with a pointer it does not know.
- Freeing the records the simulator got from `calloc` directly (`CSC369_SimulationDestroy` but for the memory manager's part).
