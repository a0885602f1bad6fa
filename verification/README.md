# Verified model of Lite's memory management, trees, page cache, virtqueue and paths

Lite is a small 32-bit kernel shaped like Linux 2.6. This project models its hardest parts in Dafny 4.11 and
proves what they promise. Structures that the kernel updates in place are classes here, with their fields and
their step-by-step updates: pointers are keys of a map from addresses to records, and 16- and 32-bit arithmetic is
written out where it can wrap. `dafny verify dfyconfig.toml` checks the whole project.

The parts, and the law at the centre of each:

- **Red-black trees** (`rbtree*.dfy`). Insertion and erasure, rotation by rotation, on a heap of nodes with parent
  links, give a valid red-black tree whose in-order sequence gains or loses exactly one node.
- **Buddy allocator** (`bits.dfy`, `buddy_*.dfy`, `page_*.dfy`). The free blocks are always the one coalesced
  set that covers the free frames; free and held blocks partition the managed frames; no allocation takes a zone to
  its min watermark.
- **Radix tree and id allocator** (`radix_*.dfy`, `idr.dfy`). A finite map on all 32-bit keys; gang lookup returns
  the first keys in order; the id allocator hands out the least unused id.
- **Address spaces** (`vma_*.dfy`, `mmap*.dfy`). The linked list of areas means a function from addresses to flags
  and lineage; each call changes that function on exactly its range, and the list stays sorted, disjoint and merged,
  which makes it the only such list for its function.
- **Copy on write** (`cow*.dfy`). Page tables, reference counts, map counts and reverse maps agree in every reachable
  state, a writable entry is its frame's only one, and every run refines one of processes with private memories.
- **Page cache** (`pagecache*.dfy`). Cache and device together are a flat array of bytes, which only writes change and
  every read returns; clean pages agree with the device.
- **Slab allocator** (`slab*.dfy`). Live objects never overlap, free lists run through the free objects' own memory,
  and a reclaimed page holds no live object.
- **Virtqueue** (`vring*.dfy`). A protocol between driver and device over two rings with wrapping 16-bit indices:
  descriptors are partitioned, slots are never overwritten early, and every run refines one of two plain queues.
- **Paths** (`paths.dfy`, `namei.dfy`, `symlink.dfy`). Normalising into a fixed buffer, relative links, and the round
  trip between them.

`machine.dfy`, `lists.dfy` and `kmalloc.dfy` hold what several parts share: the word and page size, lists without
repetition, and the existence of an unused pointer.

Some promises turn out to hold only under a condition. The model keeps the code and states the condition exactly:

- A mapping whose range wraps 32 bits reports success and maps nothing (`MmapCalls.DoMmap`,
  `MmapCalls.WrappingExample`).
- Shrinking with mremap drops the area's tail beyond the old range as well (`MmapCalls.ShrinkExact`,
  `MmapCalls.ShrinkExample`).
- A file write whose range wraps 32 bits escapes the size check and goes on at the start of the device
  (`PageCacheModel.ExactIff`, `PageCacheModel.ClampEscapes`, `PageCache.WrappingExample`).
- The slot of a waiting ring entry is never reused if and only if the ring size divides 65536
  (`VringModel.NoReuseIff`).
- A relative link resolves to its target if and only if directory and target have at most 32 components or are the
  same (`SysfsSymlink.RelpathResolves`, `SysfsSymlink.TooDeep`).
- An allocation runs reclaim in its last pass and then goes on to the next zone, so with a single zone it fails if and
  only if it would without reclaim (`PageOutcome.Exactly`).
- The map count of a shared page is right if and only if the page has fewer than 65536 users (`CowModel.AddUserIff`,
  `CowModel.Saturated`, `Cow.SharingIff`).
- A cache for objects of almost 4 GiB gets small objects, because rounding up wraps
  (`SlabAllocator.Allocator.KmemCacheCreate`, `SlabAllocator.RoundingExample`).

## Model

| member | source | states |
|---|---|---|
| RbTree.RbRoot.RotateLeft | lib/rbtree.c:4-21 | the heap after the pointer writes represents the tree rotated left at that node, in any context, with every other node untouched and the in-order sequence kept |
| RbTree.RbRoot.RotateRight | lib/rbtree.c:24-41 | the mirror image of the left rotation |
| RbTree.RbRoot.InsertUnderLeft | lib/rbtree.c:51-71 | the cases of the insertion fix-up where the parent is a left child: either the red violation moves two levels up or the tree is red-black; the in-order sequence is kept |
| RbTree.RbRoot.InsertUnderRight | lib/rbtree.c:72-93 | the same cases with left and right exchanged |
| RbTree.RbRoot.InsertClimb | lib/rbtree.c:48-94 | the fix-up loop ends, because it climbs, with a tree whose only possible defect is a red root |
| RbTree.RbRoot.InsertColor | lib/rbtree.c:44-97 | from a valid tree plus one red leaf, a valid red-black tree with the same in-order sequence and consistent parent links |
| RbTree.RbRoot.Insert | include/linux/rbtree.h:31-38 | linking a new node at an empty place and rebalancing gives a valid tree whose in-order sequence has the node at that place |
| RbTree.RbRoot.EraseUnderLeft | lib/rbtree.c:105-134 | the four sibling cases when the node short of a black is a left child: progress upwards or done, in-order sequence kept |
| RbTree.RbRoot.EraseUnderRight | lib/rbtree.c:135-165 | the same with left and right exchanged |
| RbTree.RbRoot.EraseClimb | lib/rbtree.c:104-166 | the recolouring loop ends by climbing towards the root, with black heights equal everywhere once the node left over is black |
| RbTree.RbRoot.EraseColor | lib/rbtree.c:100-169 | the tree short of one black on a path becomes a valid red-black tree with the same in-order sequence |
| RbTree.RbRoot.Leftmost | lib/rbtree.c:184-186 | walking left from the right child finds the in-order successor |
| RbTree.RbRoot.EraseInner | lib/rbtree.c:181-222 | a node with two children is replaced by its successor, which takes over its colour and links |
| RbTree.RbRoot.EraseOuter | lib/rbtree.c:224-241 | a node with at most one child is spliced out |
| RbTree.RbRoot.Erase | lib/rbtree.c:172-241 | on every valid tree: a valid red-black tree (root black, no red-red edge, equal black heights, consistent parent links) whose in-order sequence is the old one without the erased node; the other nodes are the same nodes |
| RbTree.RbRoot.First | lib/rbtree.c:244-253 | the first node of the in-order sequence, NULL for an empty tree |
| RbTree.RbRoot.Next | lib/rbtree.c:268-281 | the node after the given one in the in-order sequence, NULL after the last |
| RbColors.InsertPush | lib/rbtree.c:53-59 | recolouring parent, uncle and grandparent keeps all black heights and moves the red-red edge up |
| RbColors.InsertRaise | lib/rbtree.c:69-71 | the rotation at the grandparent ends with no red-red edge and equal black heights |
| RbColors.EraseSwap | lib/rbtree.c:107-112 | a red sibling is rotated away without changing any black height |
| RbColors.EraseFade | lib/rbtree.c:113-117 | a black sibling with black children turns red: the shortage moves to the parent |
| RbColors.EraseTurn | lib/rbtree.c:119-126 | a red near nephew is turned into a red far nephew |
| RbColors.EraseLift | lib/rbtree.c:127-133 | the final rotation restores every black height |
| RbColors.HeightBound | lib/rbtree.c:44-97 | a valid tree of n nodes has a height h with 2^h <= (n + 1)^2, that is h <= 2 log2(n + 1) |
| BuddyBlocks.Unique | mm/page_alloc.c:147-170 | two fully coalesced sets of free blocks that cover the same frames are equal |
| BuddyBlocks.BlocksDisjoint | mm/page_alloc.c:107-170 | free blocks do not overlap |
| BuddyBlocks.Split | mm/page_alloc.c:132-136 | giving back the upper half of the block in hand keeps the free blocks coalesced, disjoint from it and the frames covered the same |
| BuddyBlocks.Merge | mm/page_alloc.c:152-166 | merging with a free buddy of the same order, alignment given, covers the frames of both |
| BuddyBlocks.SplitToOk | mm/page_alloc.c:107-144 | splitting any number of times keeps alignment, disjointness, coalescing and the frames covered |
| BuddyBlocks.MergedOk | mm/page_alloc.c:147-170 | merging any number of times does the same |
| BuddyHeld.FreeRestores | mm/page_alloc.c:107-170 | a coalesced set of free blocks that loses the frames of a block and gets them back, coalesced again, is the same set |
| BuddyHeld.HoldOk | mm/page_alloc.c:208-234 | an allocated block is disjoint from everything free and everything held; free and held frames still make up the managed ones |
| BuddyHeld.DropOk | mm/page_alloc.c:283-323 | returning a held block keeps free and held frames a partition of the managed ones |
| BuddyCount.CountIsFrames | mm/page_alloc.c:53-61 | the sum over the free lists is the number of free frames of the zone |
| BuddyZones.MergedZone | mm/mmzone.c:62-67 | a block grown by merging stays in its zone |
| PageAlloc.PageAllocator.constructor | mm/mmzone.c:70-129 | empty lists over two adjacent zones; the maximum order is the largest one up to 10 whose blocks fit into memory |
| PageAlloc.FitOrder | mm/page_alloc.c:451-453 | the loop finds that order |
| PageAlloc.PageAllocator.ListAdd | mm/page_alloc.c:64-78 | the block joins the list of its order, is marked PG_BUDDY with that order, and nr_free grows by one; frame 0 is refused |
| PageAlloc.PageAllocator.ListRemove | mm/page_alloc.c:81-104 | the block leaves its list, mark and count |
| PageAlloc.PageAllocator.BuddyAlloc | mm/page_alloc.c:107-144 | fails exactly when the zone has no free block of that order or larger; otherwise a smallest sufficient block is split, its upper halves go back, the rest stays coalesced, and zone_free_pages falls by exactly 2^order |
| PageAlloc.PageAllocator.SplitDown | mm/page_alloc.c:132-136 | the inner loop gives back one block of each order below the one found |
| PageAlloc.PageAllocator.BuddyIsFree | mm/page_alloc.c:153-161 | the tests on the buddy succeed exactly when a free block of that order starts there |
| PageAlloc.PageAllocator.MergeUp | mm/page_alloc.c:152-166 | the merging loop stops exactly when no further merge is possible |
| PageAlloc.PageAllocator.Clamp | mm/page_alloc.c:167-168 | the loop that lowers the order leaves a block alone that ends within the zone |
| PageAlloc.PageAllocator.BuddyFreeBlock | mm/page_alloc.c:147-170 | the block's frames become free, no two buddies of the same order stay free, zone_free_pages grows by exactly 2^order |
| PageAlloc.PageAllocator.ZoneFreePages | mm/page_alloc.c:53-61 | the number of frames on the zone's lists |
| PageAlloc.PageAllocator.ZoneWatermarkOk | mm/page_alloc.c:173-180 | true exactly when the zone stays above the mark after the allocation |
| PageAlloc.PageAllocator.AllocIn | mm/page_alloc.c:223-232 | one attempt in one zone: the block is held, its frames have one reference each, others keep theirs |
| PageAlloc.PageAllocator.AllocPass | mm/page_alloc.c:209-233 | a pass against the high or the low mark: the block comes from the first zone of the list that can serve at that mark, or nothing changes because none can |
| PageAlloc.PageAllocator.Reclaim | mm/page_alloc.c:42-50 | the page that shrink_zone gives back, and no other block, becomes free; the free count of its zone grows by one; what stays held keeps its references |
| PageAlloc.PageAllocator.LastPass | mm/page_alloc.c:209-233 | the last pass: exactly one page is reclaimed for each zone passed over that was short of its min mark at that time, and it fails only if no zone of the list could serve to begin with |
| PageAlloc.PageAllocator.AllocPages | mm/page_alloc.c:184-237 | which zone serves, at which mark, and what is reclaimed before: a success takes a block that nobody holds and never takes a zone to or below the mark of its pass; a failure changes nothing but what reclaim did |
| PageOutcome.Preference | mm/page_alloc.c:209-233 | if some zone of the list can serve at the high mark, the first such zone does; otherwise, if some zone can at the low mark, the first such zone does; in both cases nothing is reclaimed |
| PageOutcome.Exactly | mm/page_alloc.c:209-233 | without reclaim, and always with a single zone, it fails if and only if no zone could give a large enough block without falling to its min mark: with one zone, what reclaim frees is never used |
| PageOutcome.MoreServe | mm/page_alloc.c:107-144 | a zone that could serve an order still can after more blocks are freed |
| PageAlloc.PageAllocator.FreePagesOf | mm/page_alloc.c:283-323 | one reference of each frame is dropped, and the block is freed exactly if no frame has another |
| PageAlloc.PageAllocator.AllocThenFree | mm/page_alloc.c:184-323 | allocating pages and freeing them leaves exactly the free and held blocks from before, whatever was split on the way, apart from what reclaim gave back |
| PageAlloc.PageAllocator.GetPage | mm/page_alloc.c:326-337 | one more reference, saturating at 65535; nothing else changes |
| PageAlloc.PageAllocator.SetWatermarks | mm/mmzone.c:32-43 | marks of 1/64, 1/32 and 1/16 of the managed frames |
| PageAlloc.PageAllocator.MemInit | mm/page_alloc.c:501-518 | from empty lists: exactly the frames that are not reserved are managed and free, in coalesced form; every aligned run of 2^k of them, k up to 10, lies in a free block of order k or more; the marks are 1/64, 1/32 and 1/16 of the managed frames of the zone |
| PageOutcome.OpenBlock | mm/page_alloc.c:147-170 | an aligned block of an order up to 10 whose frames are all free lies inside one free block |
| PageAlloc.PageAllocator.Conserved | mm/page_alloc.c:283-323 | free plus held frames of a zone are its managed frames, in every valid state |
| RadixTree.RadixRoot.MaxIndexOf | lib/radix-tree.c:17-23 | the largest 32-bit key a tree of that height reaches |
| RadixTree.RadixRoot.RequiredHeight | lib/radix-tree.c:25-31 | the least height that reaches the key |
| RadixTree.RadixRoot.Extend | lib/radix-tree.c:33-57 | more levels on top, no more than the key needs, without changing what is stored |
| RadixTree.RadixRoot.Lookup | lib/radix-tree.c:92-122 | the value of the finite map at the key, NULL if there is none |
| RadixTree.RadixRoot.Insert | lib/radix-tree.c:59-90 | adds the pair to the finite map, or -EEXIST and no change if the key is there; counts equal used slots, and the height grows only as far as the key needs |
| RadixTree.RadixRoot.FindPath | lib/radix-tree.c:320-333 | the path array holds the nodes from the root to the leaf, and its 8 entries are enough |
| RadixTree.RadixRoot.Clear | lib/radix-tree.c:335-341 | clearing the slot removes the key and no other |
| RadixTree.RadixRoot.PruneLoop | lib/radix-tree.c:343-358 | emptied nodes are freed bottom up until one is not empty |
| RadixTree.RadixRoot.Prune | lib/radix-tree.c:343-361 | after pruning, root->height is what it was before it served as a counter, unless the tree is empty |
| RadixTree.RadixRoot.Delete | lib/radix-tree.c:309-363 | returns the old value or NULL, removes the key and no other, leaves no empty node and restores the height |
| RadixGang.GangUnique | lib/radix-tree.c:149-197 | there is only one list of the first max keys from a given index |
| RadixGang.FirstItemsUnique | lib/radix-tree.c:190-197 | so there is only one right answer |
| RadixGang.GangNode | lib/radix-tree.c:149-188 | the keys of the subtree are appended in ascending order, up to the limit |
| RadixGang.GangChild | lib/radix-tree.c:174-186 | a child is skipped only if all its keys are below the first index, also where its last index wraps in 32 bits |
| RadixGang.GangLookup | lib/radix-tree.c:190-197 | exactly the first max_items stored items with index >= first_index, in ascending order |
| Idr.IdrTable.Alloc | lib/idr.c:28-50 | the least unused id in the range, -EINVAL for an empty or negative range, -ENOSPC exactly if all ids of the range are used |
| Idr.IdrTable.GetNew | lib/idr.c:83-96 | hands out the least unused id, keeps every id below cur in use and moves cur behind the new id |
| Idr.IdrTable.Find | lib/idr.c:98-103 | the pointer of the id, NULL for a free or negative id |
| Idr.IdrTable.Remove | lib/idr.c:194-200 | frees the id, keeps every id below cur in use and moves cur back exactly if a smaller id in use was freed |
| Idr.NextNode | lib/idr.c:105-145 | the least used id from start on within the node, or none that fits an int |
| Idr.IdrTable.GetNext | lib/idr.c:147-155 | the least used id >= start, NULL exactly if there is none |
| Idr.IdrTable.ForEach | lib/idr.c:157-175 | with a callback that leaves the table alone: every used id once, in ascending order, until the callback returns a value other than 0 |
| VmaModel.MergeAllAt | mm/mmap.c:145-160 | merging neighbours changes the mapping of no address and keeps the list sorted |
| VmaModel.MergeAllNoMergeable | mm/mmap.c:145-160 | after merging, no two neighbours can be merged |
| VmaModel.CutAt | mm/mmap.c:518-560 | cutting a range out of all areas unmaps exactly its addresses |
| VmaModel.AddAt | mm/mmap.c:162-218 | adding an area in a free range, with its merges, maps exactly its addresses |
| VmaModel.AddTidy | mm/mmap.c:162-218 | and keeps the list sorted, page-aligned, disjoint and without mergeable neighbours |
| VmaModel.TidyUnique | mm/mmap.c:145-160 | two sorted lists without mergeable neighbours that map every address alike are the same list, so each call has one possible outcome |
| VmaModel.PiecesAt | mm/mmap.c:630-636 | splitting an area into up to three pieces changes the flags of exactly the middle one |
| Mmap.MmStruct.MergeAdjacent | mm/mmap.c:145-160 | the linked list after the loop is the list with all mergeable neighbours merged |
| Mmap.MmStruct.AddAnon | mm/mmap.c:162-218 | the linked list after insertion and merging to both sides |
| Mmap.MmStruct.AddArea | mm/mmap.c:220-242 | the lineage id comes from the left neighbour with the same flags, then the right one, else it is new |
| Mmap.HeirIs | mm/mmap.c:220-242 | seen from the addresses: a new range takes the lineage of the address before it if that has the same flags, else of the address after it, else none |
| Mmap.MmStruct.AllocAnonId | mm/mmap.c:24-29 | the counter, with 0 skipped when it has wrapped 32 bits |
| Mmap.MmStruct.IsRangeFree | mm/mmap.c:245-258 | true exactly if no area overlaps the range |
| Mmap.MmStruct.FindCovering | mm/mmap.c:261-272 | an area that covers the whole range, NULL exactly if none does |
| MmapCalls.FindGap | mm/mmap.c:275-295 | the lowest page-step address at or above the start that fits below the limit, 0 exactly if there is none, if and only if the first candidate range does not wrap 32 bits or the result is 0: a wrapping one has no place at all |
| MmapCalls.FlagBits | mm/mmap.c:480-483 | the flags are the three low bits of the requested protection |
| MmapCalls.DoMmap | mm/mmap.c:452-486 | on success the range has the three low bits of prot as its flags, all of it and nothing else, if and only if it does not wrap 32 bits; a wrapping range reports success and maps nothing; the lineage is inherited or new |
| MmapCalls.WrappingExample | mm/mmap.c:466-485 | a request at 0xFFFFF000 for one page succeeds on an empty address space and leaves it empty |
| MmapCalls.CutRange | mm/mmap.c:514-560 | the walk over the linked list, with its five cases, cuts the range out of every area |
| MmapCalls.DoMunmap | mm/mmap.c:497-566 | unmaps the range, all of it and nothing else; -1 exactly for bad arguments |
| MmapCalls.DoMprotect | mm/mmap.c:604-641 | gives the range the three low bits of prot as its flags and changes nothing else, lineages included; succeeds exactly if one area covers the range |
| MmapCalls.DoMremap | mm/mmap.c:652-695 | grows an area into free addresses after it, or ends it at the new end; the exact condition for success |
| MmapCalls.ShrinkExact | mm/mmap.c:680-685 | shrinking unmaps exactly the addresses between the new and the old end if and only if the area ends with the old range |
| MmapCalls.ShrinkExample | mm/mmap.c:680-685 | three pages mapped, the first two shrunk to one: the third page is gone as well |
| MmapCalls.Allows | mm/mmap.c:722-740 | the access that the flags at the address permit, none where nothing is mapped |
| MmapRuns.FreeIff | mm/mmap.c:245-258 | a range is free exactly if no address in it is mapped |
| MmapRuns.CoveredIff | mm/mmap.c:261-272 | one area covers a range exactly if all its addresses are mapped in one way |
| MmapRuns.GapStartIs | mm/mmap.c:281-286 | the gap search starts at the lowest page above the heap end, the code and 0x1000 |
| MmapRuns.Run | mm/mmap.c:452-695 | every run of the four calls keeps the list sorted, page-aligned, disjoint, without mergeable neighbours and below TASK_SIZE; the list means what the calls with their results make of a function from addresses to flags and lineage, and every result is right for that function |
| MmapRuns.Untouched | mm/mmap.c:452-695 | what is mapped stays as it is over every run without mremap whose munmap and mprotect ranges avoid it |
| MmapRuns.MapThenAccess | mm/mmap.c:722-740 | after a successful mmap, vma_allows grants at every address of the range a read exactly if bit 0 of prot was set, a write exactly if bit 1 was, and execution only with bit 2 |
| MmapRuns.ProtectThenAccess | mm/mmap.c:604-641 | the same after a successful mprotect |
| CowModel.AddUserOk | mm/rmap.c:12-43 | one more user, none twice, and the count with it |
| CowModel.AddUserIff | mm/rmap.c:41-42 | the 16-bit map count stays the number of users if and only if it was below 65535 |
| CowModel.Saturated | mm/rmap.c:41-42 | a frame with 65535 users whose next one is not counted |
| CowModel.DropUserOk | mm/rmap.c:46-97 | that user and no other is removed, also when the primary user is replaced from the list |
| CowSteps.Share | mm/mmap.c:391-400 | a new entry for a frame nobody can write keeps page tables, reverse maps and counts in agreement |
| CowSteps.Unshare | mm/mmap.c:32-62 | removing an entry keeps them in agreement |
| CowSteps.RefcountIsMappings | mm/rmap.c:12-104 | the reference count of a frame is its map count and the number of page-table entries that map it |
| CowSteps.UsersBound | mm/mmap.c:350-405 | a frame has no more users than there are address spaces |
| Cow.SharingIff | mm/mmap.c:388-400 | sharing a page of the parent keeps page tables, counts and reverse maps in agreement if and only if the counts of its frame are below 65535 |
| Cow.FewForks | mm/mmap.c:350-405 | with fewer than 65535 address spaces that is always so |
| CowSteps.StoreView | mm/memory.c:414-447 | a store through a writable entry changes what its process sees and what nobody else sees |
| Cow.UserMemory.PageAddAnonRmap | mm/rmap.c:12-43 | the frame's record gains the user, once |
| Cow.UserMemory.PageRemoveRmap | mm/rmap.c:46-97 | the frame's record loses the user |
| Cow.UserMemory.ResolveCow | mm/memory.c:414-447 | the entry becomes writable, on a private copy if the frame is shared; no process sees a difference; it fails only for a frame with a second user and without memory, and then changes nothing |
| Cow.UserMemory.HandleMmFault | mm/memory.c:556-606 | no process sees a difference; on success the access can proceed; 0 exactly if the area forbids it or the entry already allows it, -1 only without memory; the branch for a stale permission is never taken |
| Cow.UserMemory.Store | mm/memory.c:556-606 | the byte changes for the storing process only; refused exactly where its area is not writable |
| Cow.UserMemory.Load | mm/memory.c:556-606 | the byte the process sees, zeros on a page never stored to |
| Cow.UserMemory.FreeMapped | mm/mmap.c:32-62 | the entry is gone and its frame has one user and one reference fewer |
| Cow.UserMemory.ZapPageRange | mm/mmap.c:80-118 | exactly the entries of that process in the range are gone |
| Cow.UserMemory.Munmap | mm/mmap.c:497-566 | the process sees nothing in the range; no other view changes |
| Cow.UserMemory.MapRange | mm/mmap.c:452-486 | the new range has the given flags and lineage and the process sees zeros in it; no other view changes |
| Cow.UserMemory.Exit | mm/mmap.c:408-449 | the address space and all its entries are gone; no other view changes |
| Cow.UserMemory.SharePage | mm/mmap.c:388-400 | parent and child map the same frame, neither of them writable |
| Cow.UserMemory.Fork | mm/mmap.c:350-405 | the child sees at every page what the parent sees; nobody's view changes; the invariant is kept as long as no frame of the parent has 65535 users |
| CowRuns.Run | mm/mmap.c:350-449 | over every run of fork, faults, loads, stores, mmap, munmap and exit on shared frames, the memories at the end are what the operations with their results make of memories that nobody shares, and every result is one such memories allow: a load returns its byte, a store is refused exactly where the area is not writable, and lack of memory is reported only if memory is withheld or as many pages have a frame as there are frames |
| CowWorld.StoreChanges | mm/memory.c:556-606 | a store with result 1 changes that byte of that process and nothing else |
| CowWorld.ForkCopies | mm/mmap.c:350-405 | the child begins with the memory of the parent; nobody else changes |
| CowWorld.IdleKeeps | mm/mmap.c:350-449 | over every run, a process that does nothing keeps its memory |
| CowRuns.FrameLeft | mm/memory.c:556-606 | with more frames than pages that have one, some frame is free |
| CowRuns.ForkThenRun | mm/mmap.c:350-405 | an idle child keeps seeing the parent's memory as it was at the fork, and an idle parent its own, whatever happens afterwards |
| PageCacheModel.PokeAllInside | mm/filemap.c:162-219 | bytes stored one by one inside the array replace the range, all of it and nothing else |
| PageCacheModel.PokeAllWraps | mm/filemap.c:169-174 | a write whose range passes 2^32 overwrites the start of the device |
| PageCacheModel.ExactIff | mm/filemap.c:162-219 | for every device and offset: a write of m bytes replaces the part of its range within the device and nothing else, whatever the bytes, if and only if it starts at or past the end, or its range ends before 2^32, or at 2^32 on a smaller device |
| PageCacheModel.ClampEscapes | mm/filemap.c:169-174 | a range that passes 2^32 is not cut by the size check |
| PageCacheModel.FlushOk | mm/page-writeback.c:45-71 | writing a dirty page back changes neither the flat array nor the agreement of any clean page with the device |
| PageCacheModel.FlatAgrees | mm/filemap.c:264-285 | a page that agrees with the device can be dropped without changing the flat array |
| PageCache.Mapping.FindGetPage | mm/filemap.c:52-62 | the cached page of the index, NULL exactly if there is none |
| PageCache.Mapping.HashDel | mm/filemap.c:71-83 | the page leaves its chain, the others stay in order |
| PageCache.Mapping.AddToPageCache | mm/filemap.c:86-109 | a new page of zeros, also when the allocation flushes and reclaims other pages first |
| PageCache.Mapping.ReadPage | fs/block_dev.c:200-212 | the page agrees with the device |
| PageCache.Mapping.FlushOne | fs/block_dev.c:214-226 | the device takes the page's bytes, the flat array stays |
| PageCache.Mapping.FlushAll | mm/page-writeback.c:45-71 | nothing is dirty any more and the device holds exactly the flat array |
| PageCache.Mapping.BalanceDirtyPages | mm/page-writeback.c:36-43 | at most 64 pages stay dirty; nothing happens below that; the flat array stays |
| PageCache.Mapping.ReclaimOne | mm/filemap.c:264-285 | drops the oldest clean page if there is one, which changes nothing that can be read |
| PageCache.Mapping.Read | mm/filemap.c:112-159 | exactly the bytes of the flat array in the range, all of those below i_size, the device size modulo 2^32, and no more; without memory possibly zeros in their place |
| PageCacheModel.ReadUnique | mm/filemap.c:112-159 | there is only one such answer |
| PageCache.Mapping.Write | mm/filemap.c:162-219 | the flat array with the bytes stored that the size check lets through; under the condition of ExactIff, exactly the range within the device is replaced; at most 64 pages are dirty afterwards |
| PageCache.Run | mm/filemap.c:112-285 | over any run of reads, writes, flushes and reclaims: every read returns the bytes of its range below the end in a flat array with the writes applied in order, after a flush the device holds that array, and never more than 64 pages stay dirty |
| PageCache.WrappingExample | mm/filemap.c:162-219 | on a device of two pages, a write at the second page whose range passes 2^32 changes the first byte |
| SlabModel.LiveDisjoint | mm/slab.c:98-110 | no two live objects overlap |
| SlabModel.InuseCounts | mm/slab.c:132-170 | inuse is the number of live objects of the slab |
| SlabModel.PageApart | mm/slab.c:98-110 | what is written into a page that no slab has reaches no live object |
| SlabModel.WordApart | mm/slab.c:159-170 | the link stored into a freed object reaches no other live object |
| SlabSteps.TakeOk | mm/slab.c:150-155 | taking the first free object keeps free lists, counts and disjointness |
| SlabSteps.PutOk | mm/slab.c:159-170 | returning a live object does too |
| SlabSteps.ScribbleOk | mm/slab.c:98-110 | a store inside a live object never damages a free list |
| SlabSteps.DropOk | mm/slab.c:285-303 | taking a slab without live objects apart keeps all others |
| SlabAllocator.Allocator.constructor | mm/slab.c:313-326 | no object is live, all 4096 records are free and the page map is empty |
| SlabAllocator.Allocator.KmemCacheCreate | mm/slab.c:113-123 | one more cache, the others as before; its objects are at least as large as asked for if and only if rounding up to a multiple of 8 does not wrap |
| SlabAllocator.RoundingExample | mm/slab.c:113-123 | a cache for objects of 0xFFFFFFFF bytes gets objects of 4 |
| SlabAllocator.Allocator.SlabFromPtr | mm/slab.c:84-95 | the slab whose page holds the address, NULL exactly if there is none |
| SlabAllocator.Allocator.InitObjects | mm/slab.c:98-110 | the free list runs through all objects of the page, last one first, and memory outside the page is untouched |
| SlabAllocator.Allocator.KmemCacheAlloc | mm/slab.c:132-156 | an object of that cache that was not live, NULL exactly if every slab is full and no new one can be made; memory changes at most within a new page, and every word of every live object stays |
| SlabAllocator.Allocator.KmemCacheFree | mm/slab.c:159-170 | a live object of that cache stops being live; anything outside the slabs and objects of other caches are ignored; only its own first word changes, so every other live object keeps its words |
| SlabAllocator.Allocator.Kmalloc | mm/slab.c:201-210 | an object of the smallest class that fits, that was not live; NULL exactly for size 0 or if that class is exhausted; a record and a page-map entry are used up exactly if a new slab is tried; every live object keeps its words |
| SlabAllocator.Allocator.Kfree | mm/slab.c:213-219 | exactly that object stops being live, and every other one keeps its words |
| SlabAllocator.Allocator.Scribble | mm/slab.c:98-110 | its owner may store anything inside a live object |
| SlabAllocator.Allocator.SlabReclaimOne | mm/slab.c:278-310 | gives a page back exactly if a built-in cache has a slab without live objects, and that page holds none |
| VringModel.NoReuseIff | drivers/virtio/virtio_ring.c:140-146 | from any count on, across the wrap of the 16-bit index, the slots of as many entries as the ring has never coincide, if and only if the ring size divides 65536 |
| VringModel.RingPush | drivers/virtio/virtio_ring.c:140-146 | a new entry goes into a slot that no waiting entry has |
| VringModel.ChainsBound | drivers/virtio/virtio_ring.c:107-149 | free descriptors and outstanding chains together are no more than the ring size |
| VringModel.SealOk | drivers/virtio/virtio_ring.c:107-149 | the descriptors taken for a chain and all others stay partitioned |
| VringModel.OpenOk | drivers/virtio/virtio_ring.c:89-105 | a chain taken apart leaves the others whole |
| Vring.Virtqueue.constructor | drivers/virtio/virtio_ring.c:21-59 | all descriptors are free, on one list that ends in 0xFFFF |
| Vring.Virtqueue.AllocDesc | drivers/virtio/virtio_ring.c:72-80 | the first free descriptor |
| Vring.Virtqueue.FreeDesc | drivers/virtio/virtio_ring.c:82-87 | the descriptor becomes the first free one |
| Vring.Virtqueue.Link | drivers/virtio/virtio_ring.c:128-137 | the descriptor holds its buffer and WRITE flag, and the one before gets NEXT and points to it |
| Vring.Virtqueue.AddBuf | drivers/virtio/virtio_ring.c:107-149 | a chain that lists the buffers in order with the right flags, offered behind all waiting ones; fails, and changes nothing, exactly if there are no buffers or too few free descriptors |
| Vring.Virtqueue.FreeChain | drivers/virtio/virtio_ring.c:89-105 | exactly the descriptors of that chain become free |
| Vring.Virtqueue.GetBuf | drivers/virtio/virtio_ring.c:173-187 | the device's completions in order, each once; 0 exactly if all were seen, across the wrap of the 16-bit indices |
| Vring.Virtqueue.DeviceTake | drivers/virtio/virtio_ring.c:107-149 | a device that follows the ring takes the chains in the order they were offered, none overwritten before |
| Vring.Virtqueue.ReadChain | drivers/virtio/virtio_ring.c:117-138 | following the descriptors yields the buffers as they were added |
| Vring.Virtqueue.DeviceUse | drivers/virtio/virtio_ring.c:173-187 | a completion never overwrites one the driver has not seen |
| VringRuns.Run | drivers/virtio/virtio_ring.c:89-187 | over any run of driver and device, across any wrap of the 16-bit indices, the rings do what the steps with their results do to two queues, and every result is right: a request is taken exactly if it fits, the device takes the chain offered first and finds its buffers, the driver gets the completion sent first; at most num chains are outstanding |
| VringRuns.FifoAll | drivers/virtio/virtio_ring.c:89-187 | what was waiting and what went in is what came out, in order and once, and what waits now, for chains and for completions |
| Paths.SplitRender | fs/namei.c:102-128 | splitting undoes rendering |
| Paths.NormalIdempotent | fs/namei.c:102-128 | normalising twice is normalising once |
| Paths.NormalShape | fs/namei.c:102-128 | a normal path is absolute and has no empty, "." or ".." component |
| Paths.RelativeLeads | fs/sysfs/symlink.c:87-180 | the relative path from one directory to another, followed from there, normalises to the target |
| Namei.AppendComponent | fs/namei.c:14-40 | one more component, and failure exactly if the longer path does not fit |
| Namei.PopComponent | fs/namei.c:43-62 | the parent directory, the root its own parent |
| Namei.NormalizePath | fs/namei.c:102-128 | the buffer holds the normal form with its NUL, within cap; it fails exactly if the path after some number of components is not shorter than cap |
| Namei.AllFitIff | fs/namei.c:102-128 | only a component that goes down can fail, and that is enough |
| SysfsSymlink.SplitComps | fs/sysfs/symlink.c:102-128 | the first 32 components |
| SysfsSymlink.CommonPrefix | fs/sysfs/symlink.c:130-145 | the number of leading components the paths share |
| SysfsSymlink.Relpath | fs/sysfs/symlink.c:87-180 | the relative path between what is seen of the two paths, terminated, within cap; it fails exactly if a path is not absolute or the result does not fit, with one character to spare if it ends in a name |
| SysfsSymlink.RelpathResolves | fs/sysfs/symlink.c:102-128 | for every directory and target, the link resolves to its target if and only if both have at most 32 components or they are the same |
| SysfsSymlink.TooDeep | fs/sysfs/symlink.c:102-128 | a link in a directory of 33 components and one to a target of 33 components do not resolve |

## Left out

- RbTree: rb_last and rb_prev mirror rb_first and rb_next; rb_replace_node only exchanges one node for another.
- PageAlloc: the boot-time path of the allocator before the buddy lists exist, LRU lists and the panics on bad addresses.
- PageAlloc.PageAllocator.AllocPages: reclaim is the choice of at most one held page for each zone, without a second reference; how shrink_zone picks it is not modelled.
- PageAlloc.PageAllocator.FreePagesOf: only for a block its caller holds, of the order it was allocated with.
- RadixTree.RadixRoot.Insert: the item is not NULL and nodes can be allocated; the source would count a stored NULL as a used slot.
- RadixTree: radix_tree_gang_lookup_slot, radix_tree_locate_item and radix_tree_destroy walk the tree the same way.
- Idr: idr_alloc_cyclic, idr_replace and idr_destroy; a failed node allocation.
- Mmap: allocation of list nodes does not fail; the source then drops the new area silently.
- MmapCalls: do_brk and mm_init_brk, which move the heap end without looking at other areas.
- Cow: mprotect and mremap inside the runs, because they change page tables without looking at sharing or leave entries behind; swapping; the two levels of page tables, whose own pages never run out here, and the allocation of reverse-map items, which does not fail.
- Cow.UserMemory.Fork: no frame of the parent has 65535 users, the condition that Cow.SharingIff shows exact; in CowRuns.Run a fork that does not meet it fails.
- Cow.UserMemory.MapRange: the effect of a successful mmap on what processes see; the call itself is MmapCalls.DoMmap.
- PageCache: one device and its mapping; the walk over several mappings, ramfs mappings without writepage, truncation, the buffer cache and I/O errors.
- SlabAllocator.Allocator.Kmalloc: requests above 2048 bytes, which go to the page allocator.
- SlabAllocator.Allocator.Kfree: pointers from such a request, which go back to the page allocator.
- SlabAllocator.Allocator.KmemCacheCreate: the allocation of the cache record itself does not fail.
- SlabAllocator.Allocator.KmemCacheFree: freeing an object twice, or an address inside a slab that is not an object, which the source does not detect.
- Vring: notification, interrupts and memory barriers; steps of driver and device are atomic.
- Vring.Virtqueue.constructor: 16-bit ring sizes that divide 65536; by NoReuseIff any other size reuses the slot of a waiting entry.
- Vring.Virtqueue.FreeChain: only for a chain the driver has got back; the timeout path of virtio-scsi frees chains the device may still own.
- Paths: a path is the characters before its NUL.
- The scheduler, file systems other than the page cache, device drivers other than the ring, boot and interrupt code.
