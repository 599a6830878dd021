# A model of the Boehm-Demers-Weiser collector in the Gobo Eiffel runtime

The collector bundled with the Gobo Eiffel compiler finds the objects that a program can still reach, hands out and takes back heap blocks, runs finalizers, and stops the other threads while it marks. This project models its hard parts and proves what they promise, for every heap, every run and every interleaving.

- `MarkHeap`, `MarkStack`, `Marker`: the marker. The mark stack is bounded and drops entries; the mark states say what is still owed, and a rescan of the heap pays it. Addresses count units of ALIGNMENT, a word covers several of them.
- `ParallelMark`: the parallel marker as a state machine whose steps are single shared accesses or critical sections of the mark lock: stealing, local marking, giving back, and the end detected by counting. `ParallelPhase` makes such a phase a step of the marker, under any scheduler; `Completion` shows that no phase can get stuck.
- `BlackList`, `Tiling`, `FreeLists`, `HeapLaws`, `Mapping`, `HeapBlocks`: the heap block allocator, in units of heap blocks, with unmapping. Header fields are maps by block address, the free lists are doubly linked through them, and ghost sequences say what the lists are. `hbFree` holds the blocks whose header says free.
- `PageIndex`, `HeaderIndex`, `HeapIndex`: the two-level index from pages to headers with its forwarding counts, the searches over it, and GC_base. The allocator keeps it up to date and finds the free block before a freed one through it.
- `StopWorld`, `LateSignals`, `Restarts`: the signal handshake that stops and restarts the other threads. The stop count and the stopped flag are two separate stores here. Signals may be lost, delayed or coalesced.
- `HashChains`, `LinkTable`, `Finalization`: the chained tables of disappearing links and finalizers, and GC_finalize without Java finalization.
- `Exclusions`, `SizeMap`: excluded root ranges, and the map from sizes to size classes (16-byte granules, 4096-byte blocks).
- `Arithmetic`, `Sets`, `Wrappers`: facts about multiplication and division and about sizes of sets, and optional values.

Memory, locks, signals, clocks and the operating system appear as parameters or as steps that may go either way: whether an allocation succeeds, whether a signal is lost, when a wait times out.

## Where code and comments disagree

- mark.c:784-792 says that the active count, once it returns to 0, stays 0 for the rest of the cycle. A helper that joins late makes it 1 again (`ParallelMark.ActiveCountRisesAgain`). It stays 0 exactly if none can join any more (`ParallelMark.StaysZeroIff`); a waiting marker is never the one to raise it, since the first-nonempty index is at the stack top by then (`ParallelMark.NothingOverlooked`). The protocol is right all the same: nothing is left to do.
- With signals resent (GC_retry_signals), a second suspend signal can reach a thread that is already in its handler and stay pending. If it is handled after the next stop count is published and before GC_suspend_all looks at the thread, the thread is skipped, since its last stop count is the current one, but its acknowledgement is on the semaphore. The collector then waits for one acknowledgement too few and can return while a thread runs. `LateSignals.StopExactIffQuiet` says exactly when a stop is safe; without resending it always is. The restart suffers too: exactly then the threads cannot all come back with the semaphore at 0 (`Restarts.ResumesIffQuiet`), and GC_start_world may be unable to return, for want of a thread whose suspend signal was lost (`Restarts.RetryCanBlockStart`); the source then gives up with an abort after 150 fruitless retries.
- gc_hdrs.h:126 says that forwarding counts are above 1; headers.c:292-296 gives the second page of a block, and no other, the count 1 (`PageIndex.CountOne`, `PageIndex.CountOneOccurs`).
- mark_rts.c:583 calls the overlap check of exclusions incomplete. On a table built by this routine it is complete (`Exclusions.OverlapAtFirst`).

## Model

| member | source | states |
|---|---|---|
| Marker.Marker.StoppedMark | tool/gec/backend/c/boehm_gc/alloc.c:865-885 | Whatever serial or parallel phases do, marking from cleared marks finishes only with exactly the reachable objects marked, or aborts on more root areas than the stack holds. With serial marking the loop always ends, even if the stack can never grow. With parallel phases it ends unless a phase does not, or more phases than any given number drop entries without marking anything; with schedulers that end every phase and have nothing given back neither happens, and marking finishes whenever the roots fit. |
| Marker.Marker.MarkSome | tool/gec/backend/c/boehm_gc/mark.c:267-386 | One call, parallel branch included, keeps the promise of every mark state, makes lexicographic progress (unmarked objects, state, blocks left, stack weight) unless a parallel phase in which entries were given back dropped some and marked nothing, returns if its phase ends, and reports the end only with exact marks. |
| Marker.Marker.StepParallel | tool/gec/backend/c/boehm_gc/mark.c:322-345 | The parallel branch of MS_ROOTS_PUSHED: the stack is emptied, and either marking is finished and exact or the state is invalid; it returns under every scheduler that ends each phase. |
| Marker.Marker.ParallelMark | tool/gec/backend/c/boehm_gc/mark.c:1078-1107 | A parallel phase returns exactly if the run that takes the enabled steps of the schedule, in order, has ended it; marks, state and the too-small flag are then those at the end of that run, and every promise of the mark stack is kept, or the state is invalid. Without giving back, an invalid state comes with fresh marks. |
| ParallelPhase.RunPhase | tool/gec/backend/c/boehm_gc/mark.c:1078-1107 | The result is the end of a run of the protocol that takes the steps of the schedule in order and leaves out exactly those not enabled when their turn comes; a schedule enabled step by step is taken whole. |
| ParallelPhase.RunDropsMarked | tool/gec/backend/c/boehm_gc/mark.c:883-905 | If nothing is given back, a phase drops entries only after it has marked something new. |
| Completion.NeverStuck | tool/gec/backend/c/boehm_gc/mark.c:978-1110 | From every state of every run of a phase, with any number of markers anywhere in it, some run brings the phase to its end: no interleaving can lead into a deadlock. |
| Completion.SomeScheduler | tool/gec/backend/c/boehm_gc/mark.c:978-1110 | There is a scheduler that ends every phase, each of its steps enabled, with nothing given back. |
| Completion.DropsWithoutMarking | tool/gec/backend/c/boehm_gc/mark.c:883-905 | A run that ends a phase with entries dropped and nothing marked: giving back to a full stack. |
| ParallelPhase.PhaseKeeps | tool/gec/backend/c/boehm_gc/mark.c:1078-1107 | The marks at the end of a phase are sound, and settle every word of the stack it began with and of every object it marked, unless entries were dropped. |
| ParallelPhase.SetupGood | tool/gec/backend/c/boehm_gc/mark.c:1078-1107 | The marks and stack of the serial marker are a configuration that a parallel phase can start from. |
| ParallelPhase.ReachableClosed | tool/gec/backend/c/boehm_gc/mark.c:1078-1107 | The reachable objects are a closed set of the phase, so that nothing unreachable gets marked. |
| Marker.Marker.EmptyStackExact | tool/gec/backend/c/boehm_gc/mark.c:321-353 | With the roots pushed and an empty mark stack the marks are the reachable objects. |
| Marker.Marker.StepInvalid | tool/gec/backend/c/boehm_gc/mark.c:354-380 | The rescan after an overflow: a whole pass over the heap with nothing dropped covers every marked object again; a stack that was too small is doubled before it if memory can be had. |
| Marker.Marker.StepPushUncollectable | tool/gec/backend/c/boehm_gc/mark.c:299-319 | Pushing the uncollectable blocks and then the roots covers all that a fresh cycle starts from. |
| Marker.Marker.PushObj | tool/gec/backend/c/boehm_gc/mark.c:484-499 | A push beyond the capacity drops an eighth of the initial stack, pushes anyway, and says so in the mark state and, for a serial marker, in the too-small flag. |
| Marker.Marker.PushMarked | tool/gec/backend/c/boehm_gc/mark.c:1740-1793 | Re-pushing the marked objects of one block never overflows a stack with that much room left; objects count as marked from then on exactly if the block has pointers and a marked object. |
| Marker.Marker.PushNextMarked | tool/gec/backend/c/boehm_gc/mark.c:1862-1921 | The scan pointer passes one block, whose marked objects become covered; at the end it returns to 0. |
| Marker.Marker.PushNextMarkedUncollectable | tool/gec/backend/c/boehm_gc/mark.c:1923-1952 | The same for the next scanned uncollectable block, none being left out; skipped blocks hold nothing pre-marked that needs scanning. |
| Marker.Marker.PushRoots | tool/gec/backend/c/boehm_gc/mark_rts.c:890-963 | All root areas, bookkeeping objects and frames are covered unless the push overflowed, and pre-existing promises are kept. |
| Marker.Marker.MarkFrom | tool/gec/backend/c/boehm_gc/mark.c:516-777 | Draining entries keeps every promise of the stack, marks exactly the targets of the runs of words it scans, lowers the stack's weight or marks something new, leaves no entry of size 0, and starts each scan with credit left, until the credit is used up or the stack is empty. |
| Marker.Marker.ScanWords | tool/gec/backend/c/boehm_gc/mark.c:680-775 | The backward search with the deferred pointer marks exactly the targets of the plausible words of the run, each word of it and none outside. |
| Marker.TargetsMembers | tool/gec/backend/c/boehm_gc/mark.c:680-775 | The targets of a run are the objects that some word of it points to, both ways. |
| Marker.HalvesCover | tool/gec/backend/c/boehm_gc/mark.c:559-584 | Two halves overlapping by one word contain exactly the words of the range, and weigh no more. |
| Marker.Marker.Split | tool/gec/backend/c/boehm_gc/mark.c:585-600 | A range of at least 128 words is scanned for its first 127, and the rest stays on the stack; with the overlap no word is lost or added. |
| Marker.ScannedKept | tool/gec/backend/c/boehm_gc/mark.c:680-775 | Replacing an entry by its unscanned rest keeps every promise once the scanned words were considered. |
| MarkHeap.ClosedHasReachable | tool/gec/backend/c/boehm_gc/mark.c:267-386 | A set with every root that is closed under pointing has every reachable object (paths are the independent definition). |
| ParallelMark.ParallelMarkExact | tool/gec/backend/c/boehm_gc/mark.c:1078-1110 | In every interleaving, once the starting marker returns without an overflow, whatever the starting entries and the newly marked objects point to is marked, and the marks are the least such set: every entry ever pushed was scanned. |
| ParallelMark.StepInv | tool/gec/backend/c/boehm_gc/mark.c:847-1134 | Every step of every marker keeps the protocol's invariant: slots below the first-nonempty marks dead, counters equal to the markers they count, every unmarked target still owed by some stack. |
| ParallelMark.StepCovered | tool/gec/backend/c/boehm_gc/mark.c:847-916 | No step loses work: stealing (also twice), splitting with or without overlap, giving back and marking leave every unscanned word with some stack, or flag the overflow. |
| ParallelMark.StepCounted | tool/gec/backend/c/boehm_gc/mark.c:978-1076 | The active and helper counts are the numbers of active and of present markers. |
| ParallelMark.LeaveDone | tool/gec/backend/c/boehm_gc/mark.c:978-1076 | Active count 0 with the first-nonempty index above the stack top means that no stack has work. |
| ParallelMark.PhaseOver | tool/gec/backend/c/boehm_gc/mark.c:1078-1110 | When the starter sees helper count 0, no marker is in the phase, as its assertions say. |
| ParallelMark.NothingAfterLeaving | tool/gec/backend/c/boehm_gc/mark.c:1112-1134 | A marker that leaves leaves no work behind, even if others join afterwards. |
| ParallelMark.ActiveCountRisesAgain | tool/gec/backend/c/boehm_gc/mark.c:784-792 | A run in which the active count returns to 0 and becomes 1 again in the same cycle, against the comment there. |
| ParallelMark.StaysZeroIff | tool/gec/backend/c/boehm_gc/mark.c:784-790 | From a reachable state with active count 0, the count stays 0 in every run exactly if no marker can still join. |
| ParallelMark.RisesNext | tool/gec/backend/c/boehm_gc/mark.c:784-790 | The next step can raise a count of 0 exactly if a marker can still join. |
| ParallelMark.NothingOverlooked | tool/gec/backend/c/boehm_gc/mark.c:1035-1060 | When no marker is active the first-nonempty index is at the stack top, so that no waiting marker resumes then. |
| ParallelMark.StepWatched | tool/gec/backend/c/boehm_gc/mark.c:978-1076 | While the index is below the stack top some active marker is going to find that out, whatever compare-and-swaps fail. |
| ParallelMark.RunRoom | tool/gec/backend/c/boehm_gc/mark.c:847-976 | In every run no local stack and not the shared stack ever hold more entries than they have room for, however markers steal, split, push and give back. |
| ParallelMark.FlagsExact | tool/gec/backend/c/boehm_gc/mark.c:883-905 | In every run the mark state is invalid exactly if some step dropped entries, and the stack counts as too small exactly if one of these gave entries back. |
| ParallelMark.DropsWhenFull | tool/gec/backend/c/boehm_gc/mark.c:883-905 | A step drops entries only for want of room on the stack it pushes to. |
| HeapBlocks.Heap.Run | tool/gec/backend/c/boehm_gc/allchblk.c:466-994 | Over every run of allocating, freeing, growing, unmapping and merging, each operation has the effect and the result that it promises, up to an abort; blocks tile the heap, each free block is on exactly the list for its size, list byte counts are the lists' sums, used plus free is the heap size, the header index is that of the blocks, every block is wholly mapped or free and wholly unmapped; and without unmapping no two free blocks are adjacent below the signed limit. |
| HeapBlocks.Heap.Allochblk | tool/gec/backend/c/boehm_gc/allchblk.c:677-732 | For every split limit the result is 0 exactly if no exact fit and no free block on the lists from the first split list up to the limit has an admissible start (from its very start, if it is unmapped and remapping to split is avoided); at the top limit, exactly if no free block has. An exact fit is preferred; else the block is on the lowest list that has one to serve, and on its list it is the first that is not passed over for a better next one. The request is placed at the first good start; nothing else changes but that useless blocks were dropped, every fourth of those met. |
| HeapBlocks.Heap.AllochblkNth | tool/gec/backend/c/boehm_gc/allchblk.c:752-932 | The search of one list finds its first block that could serve and is not passed over for a shorter clean next one, and misses none, in spite of skips and dropped blocks. |
| HeapLaws.NoneMissed | tool/gec/backend/c/boehm_gc/allchblk.c:752-775 | Blocks passed over do not hide a block that could serve: the last of a chain would have served. |
| HeapLaws.ChosenFound | tool/gec/backend/c/boehm_gc/allchblk.c:690-727 | The block chosen is an exact fit or on a list from the first split list up to the limit. |
| HeapLaws.ServedKeeps | tool/gec/backend/c/boehm_gc/allchblk.c:880-932 | The blocks given are a block in use of just that length, and every other block in use stays. |
| HeapLaws.OnePlace | tool/gec/backend/c/boehm_gc/allchblk.c:776-842 | Where in a free block a request goes is determined by the request and the black lists. |
| HeapBlocks.Heap.Freehblk | tool/gec/backend/c/boehm_gc/allchblk.c:935-994 | Freeing joins the block with its free mapped successor and then with its free mapped predecessor, each exactly if the two together are not too long, keeps all views in agreement and other blocks in use as they were; it aborts exactly on a free block. |
| HeapBlocks.Heap.SplitBlock | tool/gec/backend/c/boehm_gc/allchblk.c:632-661 | The split leaves everything in order but the list of the second part, which stands at the first part's place; the first part is at the front of its own list. |
| HeapBlocks.Heap.GetFirstPart | tool/gec/backend/c/boehm_gc/allchblk.c:591-625 | Taking the first part ends the exception for the misplaced block, whichever list it was on. |
| HeapBlocks.Heap.DropBlock | tool/gec/backend/c/boehm_gc/allchblk.c:848-877 | A dropped block becomes single blocks in use; nothing else changes. |
| HeapBlocks.Heap.RemoveFromFlAt | tool/gec/backend/c/boehm_gc/allchblk.c:301-325 | Unlinking removes exactly that block from that list and its bytes from the count. |
| HeapBlocks.Heap.AddToFl | tool/gec/backend/c/boehm_gc/allchblk.c:371-401 | Linking puts the block in front of the list for its length. |
| HeapBlocks.Heap.AddToHeap | tool/gec/backend/c/boehm_gc/alloc.c:1398-1437 | Growth adds the section's pages but the first two of the address space, free, mapped and joined with their neighbours as when a block is freed, and keeps used plus free equal to the heap size; it aborts exactly if the section is too long. |
| HeapBlocks.Heap.Conserved | tool/gec/backend/c/boehm_gc/checksums.c:124-138 | Used plus free bytes are the heap size, the free bytes being the pages of free blocks. |
| HeapBlocks.Heap.MergeUnmapped | tool/gec/backend/c/boehm_gc/allchblk.c:514-578 | The restarting loop ends, keeps blocks in use, lists, byte counts, index and mapping flags right, and leaves no adjacent free pair that fits a signed word. What it does is a sequence of merges of two adjacent free blocks, in each of which the part that is not longer gives way to the other's mapping. |
| HeapBlocks.Heap.MergeAt | tool/gec/backend/c/boehm_gc/allchblk.c:530-572 | One merge: the lengths, free blocks, flags and mapped pages afterwards. |
| Mapping.FewPagesChange | tool/gec/backend/c/boehm_gc/allchblk.c:536-564 | A merged block is mapped as the longer part was (the second if they are equally long), and at most half of its pages are mapped or unmapped for that. |
| HeapBlocks.Heap.UnmapOld | tool/gec/backend/c/boehm_gc/allchblk.c:466-508 | Exactly the free blocks old enough are unmapped, and every block stays wholly mapped or wholly unmapped. |
| HeapBlocks.Heap.AllocateAt | tool/gec/backend/c/boehm_gc/allchblk.c:806-908 | An unmapped block is mapped before it is split or handed out; lengths and free blocks change exactly as carving the request out says. |
| Mapping.UsedMapped | tool/gec/backend/c/boehm_gc/allchblk.c:884-890 | Pages in use are mapped. |
| Mapping.MapRegrouped | tool/gec/backend/c/boehm_gc/allchblk.c:510-513 | Pages may pass between blocks whose flags are alike. |
| Mapping.UnmergeableNoAdjacent | tool/gec/backend/c/boehm_gc/allchblk.c:514-578 | Below the signed limit merging leaves no two free blocks adjacent. |
| HeapBlocks.Heap.FreeBlockEndingAt | tool/gec/backend/c/boehm_gc/allchblk.c:355-367 | Through the index: the free block ending just before the given one, or none. |
| HeapIndex.SplitHeaders | tool/gec/backend/c/boehm_gc/allchblk.c:598-661 | Splitting a block splits it in the index. |
| HeapIndex.MergeHeaders | tool/gec/backend/c/boehm_gc/allchblk.c:959-986 | Merging two merges them in the index. |
| HeapIndex.AllocateHeaders | tool/gec/backend/c/boehm_gc/allchblk.c:899-915 | Handing a block out makes it a block in use of the index. |
| HeapIndex.ReleaseHeaders | tool/gec/backend/c/boehm_gc/allchblk.c:935-957 | Freeing it makes it a free one. |
| HeapIndex.ChopHeaders | tool/gec/backend/c/boehm_gc/allchblk.c:860-871 | Dropping it makes single blocks in use of it. |
| HeapIndex.AddHeaders | tool/gec/backend/c/boehm_gc/alloc.c:1414-1433 | A new section is one more free block of the index. |
| HeapIndex.OneEnding | tool/gec/backend/c/boehm_gc/allchblk.c:331-352 | At most one block ends at a page. |
| HeapBlocks.Heap.MapAlike | tool/gec/backend/c/boehm_gc/allchblk.c:536-564 | Of two blocks with different flags the one that is not longer, the first on a tie, is mapped or unmapped whole, and no other page or flag changes; with equal flags none does. |
| HeapLaws.ListForMonotone | tool/gec/backend/c/boehm_gc/allchblk.c:85-92 | Longer blocks are on later lists, and below the threshold each list has one length. |
| HeapLaws.AllSearched | tool/gec/backend/c/boehm_gc/allchblk.c:677-732 | The exact first pass and the skipped start list leave no block long enough unsearched. |
| HeapLaws.CarvedNoAdjacent | tool/gec/backend/c/boehm_gc/allchblk.c:591-661 | Carving a request out of a free block makes no two free blocks adjacent. |
| HeapLaws.PagesSplit | tool/gec/backend/c/boehm_gc/checksums.c:124-138 | Each page is either in a free block or in a block in use. |
| HeapLaws.FreePagesCounted | tool/gec/backend/c/boehm_gc/checksums.c:124-138 | The byte counts of the lists add up to the pages of the free blocks. |
| HeapLaws.MergedNoneMergeable | tool/gec/backend/c/boehm_gc/allchblk.c:514-578 | A merge makes no pair mergeable on the lists already done. |
| HeapLaws.Advance | tool/gec/backend/c/boehm_gc/allchblk.c:784-798 | Following the black list's advice never overshoots the free block and skips no good start. |
| HeapLaws.AdmissibleAnywhere | tool/gec/backend/c/boehm_gc/allchblk.c:776-842 | Where the start does not matter, a block can serve exactly if it is long enough and has a start that is not black-listed, or is very long. |
| FreeLists.RemovedOk | tool/gec/backend/c/boehm_gc/allchblk.c:301-325 | Unlinking by the link fields keeps all lists doubly linked, disjoint and summed. |
| FreeLists.SplitOk | tool/gec/backend/c/boehm_gc/allchblk.c:632-661 | So does putting the second part in the first part's place. |
| FreeLists.PushedOk | tool/gec/backend/c/boehm_gc/allchblk.c:371-401 | So does pushing at the front. |
| Tiling.TilesSplit | tool/gec/backend/c/boehm_gc/allchblk.c:632-661 | Splitting a block keeps the tiling. |
| Tiling.TilesMerge | tool/gec/backend/c/boehm_gc/allchblk.c:959-986 | Merging adjacent blocks keeps the tiling. |
| BlackList.IsBlackListed | tool/gec/backend/c/boehm_gc/blacklst.c:240-269 | The word-skipping search agrees with the block-by-block meaning: 0 exactly if the range is clean, else the start after the first block that is listed, every start before it being black-listed. |
| HeaderIndex.Index.Forwarded | tool/gec/backend/c/boehm_gc/headers.c:280-298 | From any page of a block the forwarding counts lead to the block's first page. |
| HeaderIndex.Index.PrevBlock | tool/gec/backend/c/boehm_gc/headers.c:393-423 | The last block starting at or before the page, or none. |
| HeaderIndex.Index.NextBlock | tool/gec/backend/c/boehm_gc/headers.c:357-391 | The first wanted block from the page on, or none, free blocks being skipped whole. |
| HeaderIndex.Index.BlockEndingAt | tool/gec/backend/c/boehm_gc/allchblk.c:331-352 | The block ending just before the page, or none. |
| HeaderIndex.Index.Base | tool/gec/backend/c/boehm_gc/misc.c:423-460 | The start of the object that contains the address, or 0 exactly if it is in no object. |
| HeaderIndex.Index.ApplyToAll | tool/gec/backend/c/boehm_gc/headers.c:327-355 | Each allocated block is visited exactly once, and nothing else. |
| HeaderIndex.Index.GetIndex | tool/gec/backend/c/boehm_gc/headers.c:209-259 | The new bottom index goes into its place in the ascending doubly linked list; no page's entry changes. |
| HeaderIndex.Index.InstallHeader | tool/gec/backend/c/boehm_gc/headers.c:264-277 | Exactly the page's entry is set, or none changes, for want of a bottom index or of a header. |
| HeaderIndex.Index.InstallCounts | tool/gec/backend/c/boehm_gc/headers.c:280-298 | Exactly the later pages get their counts, capped at MAX_JUMP, if as many new bottom indices can be had as the block's pages lack, and else none. |
| HeaderIndex.Index.RemoveHeader | tool/gec/backend/c/boehm_gc/headers.c:301-307 | Exactly the page's entry is cleared. |
| HeaderIndex.Index.RemoveCounts | tool/gec/backend/c/boehm_gc/headers.c:310-324 | Exactly the block's later pages are cleared. |
| HeaderIndex.Index.AddBlock | tool/gec/backend/c/boehm_gc/alloc.c:1414-1433 | A new section is one more block of the index. |
| HeaderIndex.Index.SplitFree | tool/gec/backend/c/boehm_gc/allchblk.c:598-661 | A split makes two blocks of one, in the index as in the heap. |
| HeaderIndex.Index.MergeFree | tool/gec/backend/c/boehm_gc/allchblk.c:959-986 | A merge makes one block of two. |
| HeaderIndex.Index.Allocate | tool/gec/backend/c/boehm_gc/allchblk.c:899-915 | Handing out a block installs its counts; the index stays that of a set of blocks. |
| HeaderIndex.Index.Release | tool/gec/backend/c/boehm_gc/allchblk.c:935-957 | Freeing a block removes them again. |
| PageIndex.Back | tool/gec/backend/c/boehm_gc/include/private/gc_hdrs.h:119-130 | Going back by a count stays in the page's block and passes no header. |
| PageIndex.OneBlock | tool/gec/backend/c/boehm_gc/include/private/gc_hdrs.h:119-130 | The block that a page belongs to is unique. |
| PageIndex.CountOne | tool/gec/backend/c/boehm_gc/headers.c:292-296 | A forwarding count is 1 exactly on a block's second page. |
| PageIndex.CountOneOccurs | tool/gec/backend/c/boehm_gc/headers.c:292-296 | An index with a count of 1. |
| PageIndex.AllocatedGood | tool/gec/backend/c/boehm_gc/headers.c:280-298 | Installing the counts of a whole free block keeps the index that of disjoint blocks. |
| PageIndex.FreedGood | tool/gec/backend/c/boehm_gc/headers.c:310-324 | Removing them does. |
| PageIndex.SplitGood | tool/gec/backend/c/boehm_gc/headers.c:264-277 | A header inside a free block splits it. |
| PageIndex.MergedGood | tool/gec/backend/c/boehm_gc/headers.c:301-307 | Removing the header between two free blocks merges them. |
| PageIndex.ListedInserted | tool/gec/backend/c/boehm_gc/headers.c:240-256 | Inserting between neighbours keeps both directions of the list. |
| PageIndex.BaseFound | tool/gec/backend/c/boehm_gc/misc.c:436-458 | What GC_base computes is the start of an object containing the address. |
| PageIndex.BaseOnly | tool/gec/backend/c/boehm_gc/misc.c:436-458 | No other object contains it. |
| StopWorld.StopWorldExact | tool/gec/backend/c/boehm_gc/pthread_stop_world.c:1056-1112 | Over every run in which each stop begins with no earlier suspend signal unanswered: when GC_stop_world returns, and until the restart, every thread has saved its stack pointer for this stop and sits in its handler, no acknowledgement is left over, and the lost-threads correction never fires. |
| StopWorld.StepInv | tool/gec/backend/c/boehm_gc/pthread_stop_world.c:340-541 | Each step of a thread or of the collector, with signals lost or resent, keeps acknowledgements and counts in balance and every thread where its phase says; that a start brings every thread back is stated by the results of Restarts. |
| StopWorld.ThreadPhase | tool/gec/backend/c/boehm_gc/pthread_stop_world.c:340-445 | Each step of a thread keeps what the phase promises of it. |
| StopWorld.PostsStopping | tool/gec/backend/c/boehm_gc/pthread_stop_world.c:389-393 | While stopping, a thread posts exactly when it newly acknowledges the stop. |
| StopWorld.NoneLost | tool/gec/backend/c/boehm_gc/pthread_stop_world.c:484-500 | A resending pass signals every thread that has not posted, so that the correction for lost threads does not fire. |
| StopWorld.AllPosted | tool/gec/backend/c/boehm_gc/pthread_stop_world.c:447-463 | Passing the barrier means that every thread has posted and the semaphore is 0. |
| StopWorld.QuietBetweenStops | tool/gec/backend/c/boehm_gc/pthread_stop_world.c:1092-1097 | Without resending, no suspend signal is unanswered whenever a run from the start is between stops. |
| StopWorld.NoRetryCareful | tool/gec/backend/c/boehm_gc/pthread_stop_world.c:1092-1097 | So the condition on the runs of the main theorem is about resending only. |
| LateSignals.StopExactIffQuiet | tool/gec/backend/c/boehm_gc/pthread_stop_world.c:933-1112 | GC_stop_world keeps its promise in every run from a state between stops exactly when no earlier suspend signal is unanswered there. |
| LateSignals.LeftoverBreaksStop | tool/gec/backend/c/boehm_gc/pthread_stop_world.c:953-955 | A thread that answers before it is looked at is skipped although its acknowledgement counts; with two threads the stop then returns while one is running. |
| LateSignals.LeftoverArises | tool/gec/backend/c/boehm_gc/pthread_stop_world.c:486-503 | With resending, any set of threads can come to have such a leftover signal. |
| LateSignals.RetryCanBreakStop | tool/gec/backend/c/boehm_gc/pthread_stop_world.c:1092-1097 | So with resending some run from the start breaks the promise. |
| Restarts.EveryStopResumes | tool/gec/backend/c/boehm_gc/pthread_stop_world.c:1352-1376 | From every return of GC_stop_world, in every run without resending and in every careful run with it, some run without another stop comes to where no start is under way, the semaphore is 0 and every thread is in ordinary code. |
| Restarts.ResumesIffQuiet | tool/gec/backend/c/boehm_gc/pthread_stop_world.c:933-1376 | From each return of the next GC_stop_world the world can come to be as before, exactly when no suspend signal of an earlier stop is unanswered before it. |
| Restarts.RetryCanBlockStart | tool/gec/backend/c/boehm_gc/pthread_stop_world.c:1310-1376 | With resending and two threads, a run from the start to a return of GC_stop_world from where the GC_start_world that follows can never return. |
| Restarts.NobodyForgotten | tool/gec/backend/c/boehm_gc/pthread_stop_world.c:1275-1369 | Without resending and with no restart signal lost, in every run: between stops a parked thread has its restart signal pending, and every thread can get back to ordinary code. |
| Restarts.ResumesIffNoneForgotten | tool/gec/backend/c/boehm_gc/pthread_stop_world.c:396-434 | Without resending, between stops all threads can get back to ordinary code exactly when none waits in its handler without a restart signal. |
| Restarts.IdleStops | tool/gec/backend/c/boehm_gc/pthread_stop_world.c:1056-1112 | Between stops another stop can be completed, with resending always, without it if no thread waits without a restart signal. |
| Finalization.Roots.Finalize | tool/gec/backend/c/boehm_gc/finalize.c:972-1138 | The whole of GC_finalize as a function of the tables' contents, the marks and the heap: which finalizers are queued, which links are cleared and removed, what is marked. |
| Finalization.QueuedExactly | tool/gec/backend/c/boehm_gc/finalize.c:995-1059 | An object is queued exactly if it has a finalizer, was unmarked, and no unmarked finalizable object leads to it. |
| Finalization.QueuedNotLedTo | tool/gec/backend/c/boehm_gc/finalize.c:995-1012 | No queued object is led to, by one or more pointers, by any registered object that did not ask for no order. |
| Finalization.SameQueue | tool/gec/backend/c/boehm_gc/finalize.c:1016-1059 | Bucket and chain order do not matter to what is queued. |
| Finalization.FinalizersConserved | tool/gec/backend/c/boehm_gc/finalize.c:1016-1059 | Table and queue together have every finalizer, unchanged, once. |
| Finalization.ReclaimSafe | tool/gec/backend/c/boehm_gc/finalize.c:607-656 | Afterwards no marked object points to an unmarked one exactly if the queued no-order objects do not. |
| Finalization.SurvivingLinks | tool/gec/backend/c/boehm_gc/finalize.c:919-967 | A surviving link refers to a marked object and is not inside an unmarked one. |
| Finalization.MakeLinksDisappear | tool/gec/backend/c/boehm_gc/finalize.c:919-967 | Exactly the entries that are dead are removed, and exactly their links are cleared. |
| Finalization.MarkFromFinalizable | tool/gec/backend/c/boehm_gc/finalize.c:995-1012 | Marks exactly what the unmarked finalizable objects lead to, whatever the order. |
| Finalization.MarkFo | tool/gec/backend/c/boehm_gc/include/private/gc_pmark.h:435-445 | Marking from one object keeps the marks closed and adds only what it leads to. |
| Finalization.Enqueue | tool/gec/backend/c/boehm_gc/finalize.c:1013-1059 | Exactly the finalizers of unmarked objects move from the table to the queue. |
| Finalization.ClearedClosed | tool/gec/backend/c/boehm_gc/finalize.c:945 | Clearing links leaves the marks closed. |
| LinkTable.Table.Register | tool/gec/backend/c/boehm_gc/finalize.c:161-227 | The table's map, less what a collection before growing removes, gets or updates exactly the link; the outcome is decided by that map and by memory, and the table's size by the entries that survive. |
| LinkTable.Table.Unregister | tool/gec/backend/c/boehm_gc/finalize.c:245-273 | Exactly the link leaves the map. |
| LinkTable.Table.Move | tool/gec/backend/c/boehm_gc/finalize.c:511-562 | The object moves to the new link, also within one bucket; an occupied target or a missing link changes nothing. |
| LinkTable.Table.Grow | tool/gec/backend/c/boehm_gc/finalize.c:94-149 | A large table is collected first, and not grown exactly if that left less than its size minus a quarter of its entries, or for want of memory; otherwise it has twice the buckets; the map loses exactly what the collection removes. |
| LinkTable.Table.Double | tool/gec/backend/c/boehm_gc/finalize.c:131-148 | Twice the buckets, the same map and count. |
| LinkTable.Table.Exchange | tool/gec/backend/c/boehm_gc/finalize.c:667-801 | Installing, replacing or removing a finalizer changes exactly the object's entry and returns the former one. |
| LinkTable.Table.EntriesExact | tool/gec/backend/c/boehm_gc/finalize.c:121-149 | The entry count is the number of keys. |
| HashChains.TableIsMap | tool/gec/backend/c/boehm_gc/finalize.c:94-149 | A table with every entry in the bucket its hash names and no key twice in a chain stands for a finite map with as many keys as entries. |
| HashChains.Moved | tool/gec/backend/c/boehm_gc/finalize.c:131-145 | Rehashing keeps map and count. |
| Exclusions.Table.Exclude | tool/gec/backend/c/boehm_gc/mark_rts.c:568-606 | The table stays sorted and disjoint and denotes the union; it has one entry more unless the range ends where another starts, which is then extended; it aborts exactly on an overlap, or when full and nothing adjoins. |
| Exclusions.Table.NextExclusion | tool/gec/backend/c/boehm_gc/mark_rts.c:545-564 | The first range ending after the address. |
| Exclusions.Table.PushWithExclusions | tool/gec/backend/c/boehm_gc/mark_rts.c:637-653 | The pieces pushed are ascending, not empty and apart from each other, and are exactly the range less the exclusions, so that there is one for each gap. |
| Exclusions.OverlapAtFirst | tool/gec/backend/c/boehm_gc/mark_rts.c:583-588 | The overlap check that the source calls incomplete is exact. |
| Exclusions.InsertedCovers | tool/gec/backend/c/boehm_gc/mark_rts.c:595-604 | Inserting adds exactly the new range. |
| SizeMap.Map.Extend | tool/gec/backend/c/boehm_gc/malloc.c:107-155 | Fills the requested size and a run up to the most its class holds. The class is the largest even one of which as many objects fit a block as of the size wanted: the rounded size itself if seven eighths of it had no class, else an eighth more than the first size above that without one. Every filled entry serves its size with at most 128 granules, filled sections ending at n stay at least n/4 long, and a class holds at most 27/16 of the rounded size and 24 bytes more. |
| SizeMap.GranulesLeast | tool/gec/backend/c/boehm_gc/include/private/gc_priv.h:984-985 | The rounded-up granules are the least that hold so many bytes. |
| SizeMap.EnlargedKeeps | tool/gec/backend/c/boehm_gc/malloc.c:137-147 | The enlarged class is the largest even one with as many objects to a block, is large enough and at most the maximum. |
| SizeMap.WasteBound | tool/gec/backend/c/boehm_gc/malloc.c:127-147 | No class is larger than 27/16 of what was asked for, rounded, and 24 bytes. |
| SizeMap.FilledSections | tool/gec/backend/c/boehm_gc/malloc.c:104-106 | The comment's claim on the length of filled sections is kept by each fill. |
| SizeMap.Map.constructor | tool/gec/backend/c/boehm_gc/misc.c:247-262 | Start-up fills exactly the tiny sizes, each with its rounded-up granules. |

## Left out

- Bitmap, procedure and per-object mark descriptors: only length descriptors are modelled.
- GC_push_marked1, GC_push_marked2 and GC_push_marked4 (unrolled forms of GC_push_marked), MS_PUSH_RESCUERS and incremental marking with dirty bits, the header cache, and black-listing of false pointers during marking.
- ParallelMark.ParallelMarkExact: an area is the sequence of its pointers to objects; words that point to none take no step. Memory accesses are sequentially consistent. Local stacks have room for at least 6 entries (the source's for 512 or 4096).
- Marker.Marker.StoppedMark: the stop function that ends a collection early never stops here. Phases may drop entries without marking anything when entries are given back to a full stack (`Completion.DropsWithoutMarking`); how often is not bounded.
- Marker.Marker.MarkFrom: bitmap, procedure and per-object descriptors, as above.
- HeapBlocks.Heap.Run: header allocation always succeeds; where it fails the source itself drops or leaks blocks. Address wrap-around in GC_add_to_heap, pages larger than a heap block, and the count of unmapped regions with its limit are not modelled. A block in use is entered in the index with its whole length as its object size.
- HeapBlocks.Heap.Allochblk: the split limit and whether remapping is avoided are parameters; GC_enough_large_bytes_left and the memory statistics that choose them are not modelled.
- HeapBlocks.Heap.UnmapOld: which blocks are old enough is a parameter; ages are not modelled.
- HeaderIndex.Index.GetIndex: the top level is a map from keys to bottom indices, without its hash chains; pointers to bottom indices are keys. The overflow check at the end of the address space in GC_install_counts is not modelled.
- StopWorld.StopWorldExact: the set of other live threads is fixed while signals are exchanged; GC_ENABLE_SUSPEND_THREAD, user signals that wake a parked thread, threads that vanish or are blocked, and the abort after 150 fruitless retries are not modelled.
- LinkTable.Table.Register: the out-of-memory handler runs without the lock; what other threads do to the table meanwhile is not modelled.
- LinkTable.Table.Grow: the collection before growing is any removal of entries.
- LinkTable.Table.Exchange: the object size kept beside a finalizer, which only feeds a byte counter.
- Finalization.Roots.Finalize: Java finalization, toggle-references, mark stack overflow while marking from finalizable objects, and the byte counter. The entries' own memory is not part of the heap.
- Exclusions.Table.Exclude: the rounding of the range in GC_exclude_static_roots before it.
- Finalizer invocation, thread registration, thread-local free lists, reclaiming and free-list building, debugging aids, disclaim kinds and all platform code.
