# Verified models of the ucore and river kernels

This project models the data structures and protocols at the heart of the ucore and river teaching
kernels and proves that they keep their promises over all inputs and all runs: a red-black tree with
parent links, the buddy page allocator, the paging and swap bookkeeping behind copy-on-write, the set
of virtual memory areas, the radix-heap and delta-list timers, a FAT file system, the slab allocator,
kernel semaphores with multi-level run queues, river's event loop, and pid allocation.

Code that works in place is modelled as classes whose methods follow the source's branches and loops;
each is proved against a specification on values, and the laws are lemmas about those values. Linked
lists are sequences, bit maps are sets of bit positions, and records updated in place are fields or maps
of a class. Only the red-black tree and the area descriptors keep real references between objects.

| files | what they hold |
|---|---|
| `RbShape.dfy`, `RbTree.dfy` | tree shapes, path contexts and their tie to node links; the pointer tree |
| `BuddyBlocks.dfy`, `Buddy.dfy` | canonical sets of free blocks; the allocator on page descriptors |
| `PagingCore.dfy`, `Paging.dfy` | exact reference counts and copy-on-write as an invariant; the operations |
| `VmaAreas.dfy`, `Vma.dfy` | sorted areas and cutting; list, tree and cache of an address space |
| `RadixDigits.dfy`, `RadixHeap.dfy`, `Timers.dfy` | digits of keys; the bucketed heap; river's timers |
| `Deadlines.dfy`, `DeltaTimers.dfy` | timers as a set of deadlines, over whole runs; ucore's delta list |
| `FatChains.dfy`, `Fat.dfy` | cluster chains and flat bytes; the file operations |
| `SlabLayout.dfy`, `SlabCore.dfy`, `Slab.dfy` | layout arithmetic; the allocator's invariant; kmalloc and kfree |
| `Kernel.dfy` | semaphores, wait queues, run queues and scheduling on one processor |
| `Events.dfy` | river's event loop with its wait and notify words |
| `Pid.dfy` | the scan for a free pid |
| `Lists.dfy`, `Powers.dfy` | lists without repetition, counting, powers of two |

## What the models show about the code

- `buddy_free_pages` asserts on the order while it climbs; the assertion fails exactly for runs that
  contain a whole aligned block of 2^17 pages (`Buddy.BuddyManager.FreePages`). `Buddy.FreeAtOnce` is a run
  from an empty allocator that ends there.
- `do_pgfault` returns success without mapping anything if and only if a permitted write hits a swap entry
  whose page is in the swap cache and has other uses while no frame is free (`Paging.Pager.PgFault`).
  Without the cached page it reports the lack of memory. `Paging.SilentFault` is a run that ends there.
- The assertion of `swap_duplicate` on a slot's count never fails: all entries of a page have one page address in
  different address spaces, so no count exceeds the number of address spaces (`PagingCore.SlotNeverFull`).
- `mm_map`, `mm_unmap` and `mm_brk` round a request with machine words. A request whose end wraps around can pass
  the access check and is then taken for the one page it starts in; the rounded range covers the request if and only
  if it does not wrap (`VmaAreas.RoundedRange`, with an instance in `VmaAreas.WrappedRequest`).
- `sfatfs_io_nolock` moves the file size to the offset of a write beyond the end even if the first block
  cannot be loaded, so the size can outrun the chain. `Fat.SizeAfterWrite` states exactly when it fits
  afterwards; `Fat.SizeCanOutrunChain` gives an instance. A read of such a file can then allocate a cluster or
  fail: `Fat.ReadGrows` states exactly when, and `Fat.ReadCanAllocate` gives an instance. A truncation of such a
  file cuts as many clusters as the size claims to lose, so its size fits afterwards only if one block holds it
  (`Fat.TruncSizes`).
- `get_pid` starts over at 1 although the idle processes, which are not in its list, have the lowest pids:
  `Pid.IdlePid` states exactly when it hands out one of theirs, and `Pid.IdlePidTaken` gives an instance.
- `crh_max_step` has branches for an empty rest of a level's bitmap and for rotating the top level's;
  with keys not below the base the first is never reached and the second changes nothing.
- The comment on `find_vma` speaks of an area around the address; the code returns the lowest area that
  ends above it, which is what is modelled.

Machine words matter in a few places and are written out there: page rounding and address sums wrap at
2^32, file offsets are signed 32-bit values, and structure sizes are those of a 32-bit machine.

## Model

| member | source | states |
|---|---|---|
| RbTree.RedBlackTree.constructor | src/kern-ucore/libs/rb_tree.c:30-65 | a new tree is valid and empty, with its own sentinel and dummy root |
| RbTree.RedBlackTree.RotateLinks | src/kern-ucore/libs/rb_tree.c:79-103 | both rotations, as one method over a direction: the link cells become exactly the rotated ones and no other cell changes |
| RbTree.RedBlackTree.Rotate | src/kern-ucore/libs/rb_tree.c:79-103 | in a tree, the far child takes the node's place with subtrees and colours kept, and the sentinel is untouched |
| RbTree.RedBlackTree.FindSlot | src/kern-ucore/libs/rb_tree.c:114-130 | the search path ends at an empty place with no larger key before it and no smaller or equal key after it |
| RbTree.RedBlackTree.InsertBinary | src/kern-ucore/libs/rb_tree.c:114-130 | the node is hung there as a leaf and every other node keeps its place |
| RbTree.RedBlackTree.InsertRecolor | src/kern-ucore/libs/rb_tree.c:134-172 | a red uncle: exactly parent, uncle and grandparent change colour, all links stay |
| RbTree.RedBlackTree.InsertRotate | src/kern-ucore/libs/rb_tree.c:134-172 | a black uncle: the heap becomes the shape that one or two rotations give, with the colours swapped |
| RbTree.RecolorFits | src/kern-ucore/libs/rb_tree.c:134-172 | recolouring keeps black heights and order and moves the clash two levels up |
| RbTree.RotateFits | src/kern-ucore/libs/rb_tree.c:134-172 | rotating keeps black heights and leaves no red node below a red node |
| RbTree.RotateAround | src/kern-ucore/libs/rb_tree.c:134-172 | rotating keeps the in-order sequence of the whole tree |
| RbTree.RedBlackTree.InsertStep | src/kern-ucore/libs/rb_tree.c:134-172 | one turn of the repair loop keeps every invariant but the one clash, keeps the order, and moves strictly upwards |
| RbTree.RedBlackTree.InsertFixup | src/kern-ucore/libs/rb_tree.c:134-172 | the repair loop ends with no clash left and the order unchanged |
| RbTree.RedBlackTree.Insert | src/kern-ucore/libs/rb_tree.c:134-172 | for every valid tree and new node, equal keys included: search order, no red below red, equal black heights, black top and all parent links hold again, and the in-order sequence gains exactly that node |
| RbTree.RedBlackTree.Extreme | src/kern-ucore/libs/rb_tree.c:180-225 | the leftmost or rightmost node below a node, with nothing beyond it |
| RbTree.RedBlackTree.Successor | src/kern-ucore/libs/rb_tree.c:180-199 | the next node in order, or the sentinel exactly for the last one |
| RbTree.RedBlackTree.Predecessor | src/kern-ucore/libs/rb_tree.c:206-225 | the previous node in order, or the sentinel exactly for the first one |
| RbTree.RedBlackTree.Search | src/kern-ucore/libs/rb_tree.c:233-240 | none exactly when no node has the key; otherwise the match highest in the tree |
| RbTree.RedBlackTree.DeleteRedSibling | src/kern-ucore/libs/rb_tree.c:247-289 | first fixup case: a red sibling goes above the parent, and the shortage keeps its place |
| RbTree.RedBlackTree.DeleteNearRed | src/kern-ucore/libs/rb_tree.c:247-289 | third fixup case: the near red nephew becomes the black sibling |
| RbTree.RedBlackTree.DeleteFarRed | src/kern-ucore/libs/rb_tree.c:247-289 | fourth fixup case: one rotation puts the missing black back, under the parent's old colour |
| RbTree.RedBlackTree.DeleteBlackNephews | src/kern-ucore/libs/rb_tree.c:247-289 | second fixup case: the shortage moves to the parent with the order kept |
| RbShape.RedSiblingFits | src/kern-ucore/libs/rb_tree.c:247-289 | black heights and colours still fit around the shortage after the first case |
| RbShape.BlackNephewsFits | src/kern-ucore/libs/rb_tree.c:247-289 | black heights fit one level up after the second case |
| RbShape.NearRedFits | src/kern-ucore/libs/rb_tree.c:247-289 | turning the near nephew keeps height, order and colour rules of the sibling's subtree |
| RbShape.FarRedFits | src/kern-ucore/libs/rb_tree.c:247-289 | after the fourth case the whole subtree has its full black height again |
| RbTree.RedBlackTree.DeleteStep | src/kern-ucore/libs/rb_tree.c:247-289 | one turn of the fixup loop either mends the tree or moves the shortage up, and the node compared with is the top of the path whenever the loop goes on, although it was read before rotating |
| RbTree.RedBlackTree.DeleteFixup | src/kern-ucore/libs/rb_tree.c:247-289 | the loop ends, every rotation's condition holds, and a red-black tree with the same order is left |
| RbTree.RedBlackTree.Splice | src/kern-ucore/libs/rb_tree.c:296-328 | a node with at most one child leaves its place to that child |
| RbTree.RedBlackTree.Transplant | src/kern-ucore/libs/rb_tree.c:296-328 | the spliced-out successor takes over place, links and colour of the deleted node; no key is copied |
| RbTree.RedBlackTree.UnlinkHere | src/kern-ucore/libs/rb_tree.c:296-328 | deleting a node with at most one child removes exactly it and says whether black height is missing |
| RbTree.RedBlackTree.UnlinkSuccessor | src/kern-ucore/libs/rb_tree.c:296-328 | deleting a node with two children removes exactly it, wherever its successor was |
| RbTree.RedBlackTree.Delete | src/kern-ucore/libs/rb_tree.c:296-328 | for every valid tree and node of it: all invariants hold again and the in-order sequence is the old one without exactly that node |
| RbTree.RedBlackTree.CheckTree | src/kern-ucore/libs/rb_tree.c:380-405 | on every valid tree all assertions of the source's own check hold and it returns the black height |
| RbShape.PlugRedBlack | src/kern-ucore/libs/rb_tree.c:380-405 | a subtree that fits its surroundings makes the whole tree red-black |
| RbShape.PlugInOrder | src/kern-ucore/libs/rb_tree.c:179-225 | the in-order sequence around a subtree is that of the whole tree |
| Buddy.BuddyManager.constructor | src/supervisor/mm/buddy_pmm.c:44-50 | all lists empty, no page managed |
| Buddy.BuddyManager.InitMemmap | src/supervisor/mm/buddy_pmm.c:54-77 | a zone's pages all become free, as blocks aligned within that zone, and no other page changes |
| Buddy.BuddyManager.ResetPages | src/supervisor/mm/buddy_pmm.c:54-77 | exactly the zone's descriptors lose the reserved mark and get its number |
| Buddy.BuddyManager.GetOrder | src/supervisor/mm/buddy_pmm.c:81-89 | the least order whose block holds n pages, if n is at most the largest block |
| Buddy.BuddyManager.AllocBlock | src/supervisor/mm/buddy_pmm.c:94-118 | takes exactly one aligned free block out of the free pages; fails exactly when no free block is large enough |
| Buddy.BuddyManager.Carve | src/supervisor/mm/buddy_pmm.c:94-118 | splitting gives back everything but the wanted block and keeps the canonical form |
| Buddy.BuddyManager.AllocPages | src/supervisor/mm/buddy_pmm.c:122-130 | n free pages of one zone, at an aligned block of the least order that holds them, leave the free pages, and only they (with the tail of a larger block given back); none if and only if no aligned block of that order is free; a panic exactly above the largest block |
| Buddy.BuddyManager.BuddyTest | src/supervisor/mm/buddy_pmm.c:135-142 | the descriptor test recognises exactly a free block of the given order and zone |
| Buddy.BuddyManager.MergeBuddy | src/supervisor/mm/buddy_pmm.c:159-186 | one turn merges exactly when the buddy is free, and the freed pages stay the same |
| Buddy.BuddyManager.FreeBlock | src/supervisor/mm/buddy_pmm.c:159-186 | freeing an aligned block adds exactly its pages and leaves no two free buddies |
| Buddy.BuddyManager.FreeUp | src/supervisor/mm/buddy_pmm.c:190-217 | the rising part frees exactly the pages it passes and stops aligned to an order the rest does not fill |
| Buddy.BuddyManager.FreeDown | src/supervisor/mm/buddy_pmm.c:190-217 | the falling part frees exactly the rest |
| Buddy.BuddyManager.FreePages | src/supervisor/mm/buddy_pmm.c:190-217 | a run of any length is freed exactly, in aligned blocks; the order assertion holds if and only if the run contains no whole aligned block of 2^17 pages |
| Buddy.FreeAtOnce | src/supervisor/mm/buddy_pmm.c:190-217 | a zone of 2^17 pages, allocated as two blocks of 2^16 and freed in one call, fails the order assertion |
| Buddy.BuddyManager.NrFreePages | src/supervisor/mm/buddy_pmm.c:221-227 | the counters add up to the number of free pages |
| BuddyBlocks.CanonUnique | src/supervisor/mm/buddy_pmm.c:159-217 | the free blocks of a valid state are determined by the set of free pages alone |
| BuddyBlocks.AllocFreeRestores | src/supervisor/mm/buddy_pmm.c:94-217 | taking pages and freeing them again, whole or in any pieces and order, restores the very same blocks |
| BuddyBlocks.Cover | src/supervisor/mm/buddy_pmm.c:159-186 | an aligned block whose pages are all free lies within one free block |
| BuddyBlocks.MergeStep | src/supervisor/mm/buddy_pmm.c:159-186 | removing a free buddy and doubling the block keeps the union of freed pages |
| BuddyBlocks.SplitStep | src/supervisor/mm/buddy_pmm.c:94-118 | giving back the upper half keeps canonical form and takes only the lower half |
| BuddyBlocks.NoFit | src/supervisor/mm/buddy_pmm.c:94-118 | with no free block of an order or above, no aligned block of that order is free |
| BuddyBlocks.AddBlock | src/supervisor/mm/buddy_pmm.c:159-186 | a block without a free buddy may be added: aligned, disjoint, merged as before |
| PagingCore.WritableSole | src/kern-ucore/mm/vmm.c:750-793 | in every valid state a writable entry is the only reference, present or swapped, to its page |
| PagingCore.FreeUnreferenced | src/kern-ucore/mm/swap.c:272-354 | no frame and no slot is free while an entry refers to it |
| PagingCore.ForkShares | src/kern-ucore/glue-ucore/pmm.c:350-396 | after a fork parent and child lead to the same pages, and neither may write one that both can reach |
| PagingCore.DropOk | src/kern-ucore/glue-ucore/pmm.c:123-144 | taking an entry out leaves exact counts, with one reference in hand |
| PagingCore.PlaceOk | src/kern-ucore/glue-ucore/pmm.c:155-174 | placing an entry uses up one reference in hand and keeps all counts exact |
| PagingCore.CowShare | src/kern-ucore/glue-ucore/pmm.c:350-396 | a read-only entry may be shared at the same page address without giving any writer a second reference, and all ways to the page keep one page address |
| PagingCore.SoleReference | src/kern-ucore/mm/vmm.c:750-793 | a use count of one means no other entry, present or swapped, leads to the page |
| PagingCore.CowSwapOut | src/kern-ucore/mm/swap.c:533-591 | turning an entry into a swap entry gives no writer a second reference |
| PagingCore.SlotNeverFull | src/kern-ucore/mm/swap.c:367-373 | in every valid state a slot's count is the number of its entries and at most the number of address spaces, far below its limit |
| Paging.Pager.constructor | src/kern-ucore/mm/swap.c:161-191 | every frame free, every slot unused, every hash list empty, invariant established |
| Paging.Pager.AllocPage | src/kern-ucore/glue-ucore/pmm.c:199-208 | a frame nothing refers to, or none exactly when none is free |
| Paging.Pager.FreePage | src/kern-ucore/mm/swap.c:272-276 | only an unreferenced frame outside the swap cache is freed |
| Paging.Pager.SwapPageAdd | src/kern-ucore/mm/swap.c:246-260 | the page becomes the one cached page of the given slot, on the hash list of its entry |
| Paging.Pager.SwapPageAddNew | src/kern-ucore/mm/swap.c:246-260 | a page gets a slot of its own, with no reference yet, if and only if some slot is unused or kept for a cached page only |
| Paging.Pager.SwapPageDel | src/kern-ucore/mm/swap.c:264-276 | the page leaves the cache and its hash list, and a slot nothing refers to becomes unused |
| Paging.Pager.SwapHashFind | src/kern-ucore/mm/swap.c:280-289 | walking the one hash list of the entry finds the page that has this entry and the swap mark, and finds none exactly when no page has |
| Paging.Pager.ScanSlots | src/kern-ucore/mm/swap.c:293-335 | once around the slots: an unused one if there is any, and a zero-count one seen on the way |
| Paging.Pager.TryAllocSwapEntry | src/kern-ucore/mm/swap.c:293-335 | an unused slot, if need be by dropping a cached page without swap references; none exactly when every slot has references; no reference count changes |
| Paging.Pager.SwapRemoveEntry | src/kern-ucore/mm/swap.c:340-354 | one reference to a slot goes; the slot and its cached page are dropped only when nothing else needs them, and mapped frames stay as they are |
| Paging.Pager.SwapInPage | src/kern-ucore/mm/swap.c:378-422 | the page cached for the slot, with nothing changed, or else the page read into a free frame, with all counts unchanged; fails if and only if the page is not cached and there is no frame or the read fails, and then changes nothing |
| Paging.Pager.SwapOutPte | src/kern-ucore/mm/swap.c:533-591 | an entry becomes the swap entry of its page's slot if and only if it was not accessed lately and its page has or gets a slot; an accessed one only loses its mark; the invariant holds |
| Paging.Pager.SwapOutCached | src/kern-ucore/mm/swap.c:533-591 | the reference moves from frame to slot |
| Paging.Pager.LaunderOne | src/kern-ucore/mm/swap.c:473-511 | an inactive page is freed exactly when nothing maps it and it is clean, unneeded or written out; otherwise no frame is freed |
| Paging.Pager.PageLaunder | src/kern-ucore/mm/swap.c:473-511 | the count returned is the number of frames freed, and the invariant holds |
| Paging.Pager.RefillInactiveScan | src/kern-ucore/mm/swap.c:515-529 | exactly the active pages that nothing maps become inactive |
| Paging.Pager.PageRemovePte | src/kern-ucore/glue-ucore/pmm.c:123-144 | exactly that entry goes, with its reference to frame or slot, and what becomes unreferenced is freed |
| Paging.Pager.PageInsert | src/kern-ucore/glue-ucore/pmm.c:155-174 | the entry maps the page, the old entry's reference is given up, and nothing else changes; without a page table nothing happens |
| Paging.Pager.PgdirAllocPage | src/kern-ucore/glue-ucore/pmm.c:199-208 | a new entry on a frame taken from the free ones, or failure exactly when there is none |
| Paging.Pager.UnmapRange | src/kern-ucore/glue-ucore/pmm.c:215-293 | exactly the entries of the range go, and the invariant holds |
| Paging.Pager.CopyPte | src/kern-ucore/glue-ucore/pmm.c:350-396 | one address forked: the child gets the parent's page read-only or its swap entry, the parent loses write permission, and only the slot of a copied swap entry gains one reference |
| Paging.Pager.CopyRange | src/kern-ucore/glue-ucore/pmm.c:350-396 | exactly the addresses before the first one whose page table the child does not get are forked, all of them if there is none; the slot count assertion holds at each; the invariant holds throughout |
| Paging.Pager.ResolveFault | src/kern-ucore/mm/vmm.c:750-793 | the page itself is mapped exactly when nothing else leads to it or the fault may not copy; otherwise the fresh copy; nothing is mapped if and only if a copy is needed and there is no page for it |
| Paging.Pager.PgFault | src/kern-ucore/mm/vmm.c:666-801 | a fault is refused exactly by the area's permissions; it maps something if and only if the page is found and a needed copy has a frame; the entry maps the page itself when reading or when nothing else leads to it, and otherwise a fresh frame, writable only as allowed; success without a mapping happens if and only if a write meets a swap entry whose page is cached and otherwise used while no frame is free |
| Paging.Pager.FaultOnSwapped | src/kern-ucore/mm/vmm.c:750-793 | for a swap entry success is reported if and only if the page is cached or can be read, and then the entry is mapped if and only if no copy is needed or there is a page for it |
| Paging.SilentFault | src/kern-ucore/mm/vmm.c:750-793 | from an empty system: one frame written, forked, swapped out of both; the parent's next write succeeds and its entry is still the swap entry |
| VmaAreas.RoundedRange | src/supervisor/libs/types.h:65-74 | for every request that passes the access check, the rounded range is the least page-aligned one holding the request if and only if the request does not wrap around; a wrapping one becomes the one page it starts in |
| VmaAreas.WrappedRequest | src/kern-ucore/mm/vmm.c:371-431 | a request of almost 4 GB from 0x200800 passes the access check as the single page at 0x200000 |
| VmaAreas.First | src/kern-ucore/mm/vmm.c:151-179 | the lowest area whose end exceeds the address |
| VmaAreas.InsertedOk | src/kern-ucore/mm/vmm.c:220-268 | inserting an area apart from all others keeps the list sorted and disjoint and adds exactly its addresses |
| VmaAreas.CutAt | src/kern-ucore/mm/vmm.c:371-431 | after cutting a range every address outside it has the flags it had, and none inside has any |
| VmaAreas.CutSorted | src/kern-ucore/mm/vmm.c:371-431 | what a cut leaves is page-aligned, disjoint and in order |
| Vma.FindVmaRb | src/kern-ucore/mm/vmm.c:130-147 | for a search tree of any shape the descent finds the lowest area whose end exceeds the address |
| Vma.TreeInsert | src/kern-ucore/mm/vmm.c:209-216 | the new node enters the in-order sequence at its place by start address and its predecessor comes back |
| Vma.PruneInOrder | src/kern-ucore/mm/vmm.c:272-283 | deleting a node takes it out of the in-order sequence and moves no other |
| Vma.TreeDelete | src/kern-ucore/mm/vmm.c:272-283 | deletion as callers know it: the in-order sequence without that node, for any shape of the result |
| Vma.RbInsertAgrees | src/kern-ucore/mm/vmm.c:193-216 | over nodes keyed by start address, the place where red-black insertion puts a node is the place that the area order demands, so tree and descriptors stay in step |
| Vma.RbDeleteAgrees | src/kern-ucore/mm/vmm.c:272-283 | red-black deletion leaves exactly the descriptors that the deletion promises, in order |
| Vma.TreeOf | src/kern-ucore/mm/vmm.c:255-267 | the tree built from the list holds the list in order |
| Vma.MmStruct.constructor | src/kern-ucore/mm/vmm.c:84-101 | no area, no tree, no cached area |
| Vma.MmStruct.FindVma | src/kern-ucore/mm/vmm.c:151-179 | by cache, by tree and by list the answer is the same: the lowest area whose end exceeds the address, or none |
| Vma.CacheHit | src/kern-ucore/mm/vmm.c:151-179 | a cached area holding the address is the answer a search would give |
| Vma.MmStruct.InsertVmaStruct | src/kern-ucore/mm/vmm.c:220-268 | the area enters list and tree at its place, neither overlap assertion fails, and the tree appears only from 32 areas on |
| Vma.NeighboursApart | src/kern-ucore/mm/vmm.c:201-205 | the overlap assertions hold for an area apart from all others |
| Vma.MmStruct.RemoveVmaStruct | src/kern-ucore/mm/vmm.c:272-283 | exactly that descriptor leaves list, tree and cache |
| Vma.MmStruct.MmMap | src/kern-ucore/mm/vmm.c:308-336 | refused exactly when the rounded range is not a user range or some address of it is mapped; on success exactly that range is added, never shared |
| Vma.MmStruct.Resize | src/kern-ucore/mm/vmm.c:361-368 | only the bounds change, in place |
| Vma.OkResized | src/kern-ucore/mm/vmm.c:361-368 | resizing in place between the neighbours keeps list, tree and cache consistent |
| Vma.MmStruct.UnmapInside | src/kern-ucore/mm/vmm.c:371-431 | a range strictly inside an area leaves its two ends |
| Vma.MmStruct.Detach | src/kern-ucore/mm/vmm.c:395-405 | the first pass takes out exactly the areas that meet the range |
| Vma.MmStruct.Reclaim | src/kern-ucore/mm/vmm.c:407-429 | the second pass puts back exactly what sticks out and releases exactly the mapped part of the range |
| Vma.MmStruct.MmUnmap | src/kern-ucore/mm/vmm.c:371-431 | unmapping is exact: the areas afterwards are the old ones cut by the rounded range, and the ranges handed on for page-table unmapping cover exactly the mapped addresses in it; out of memory only when one area must be split, and then nothing changes |
| Vma.MmStruct.GetUnmappedArea | src/kern-ucore/mm/vmm.c:476-495 | the highest user range of the length that meets no area, and 0 exactly when there is none (or the length is 0) |
| Vma.MmStruct.MmBrk | src/kern-ucore/mm/vmm.c:498-519 | afterwards the range is mapped read-write and every other address is as before, whether an area grew or a new one was made; the ranges handed on for page-table unmapping cover exactly what was mapped in it, and nothing when it is refused |
| Vma.MmStruct.UserMemCheck | src/kern-ucore/mm/vmm.c:522-546 | true exactly when it is a user range and every address of it may be accessed that way, stack guard pages included |
| RadixDigits.TopDigitIs | src/kern-river/libs/crh.c:11-25 | a quarter of the highest differing bit is the highest differing base-16 digit |
| RadixDigits.BucketKept | src/kern-river/libs/crh.c:28-73 | raising the base up to the lowest key changes no key's bucket but those in the new base's own |
| RadixDigits.BucketMoves | src/kern-river/libs/crh.c:28-73 | keys of that bucket move to a strictly lower level |
| RadixHeap.PlacedRebase | src/kern-river/libs/crh.c:28-73 | after emptying that one bucket every node is where its highest differing digit puts it, relative to the new base |
| RadixHeap.ShiftsFit | src/kern-river/libs/crh.c:83-108 | below 2^28 the mask, any bit position of a level and any distance of digits, shifted as in the step computation, fit a signed 32-bit integer |
| RadixHeap.FirstBit | src/kern-river/libs/crh.c:83-108 | the lowest set bit |
| RadixHeap.FloorOfLowest | src/kern-river/libs/crh.c:83-108 | the start of the lowest occupied bucket on the lowest occupied level is above the base and not above any pending key |
| RadixHeap.Crh.constructor | src/kern-river/libs/crh.c:5-8 | an empty heap with base 0 |
| RadixHeap.Crh.Push | src/kern-river/libs/crh.c:11-25 | the node joins its bucket, with both bitmaps kept exact |
| RadixHeap.Crh.Insert | src/kern-river/libs/crh.c:76-81 | a key equal to the base is refused; any later key becomes a deadline and no other deadline changes |
| RadixHeap.Crh.Detach | src/kern-river/libs/crh.c:28-50 | moving the base takes out one bucket, which holds every node due at the new base |
| RadixHeap.Crh.Relink | src/kern-river/libs/crh.c:47-70 | every detached node goes back to its bucket, unless it is due now |
| RadixHeap.Crh.SetBase | src/kern-river/libs/crh.c:28-73 | exactly the nodes due at the new base come out, each once, and all other deadlines stay |
| RadixHeap.Crh.MaxStep | src/kern-river/libs/crh.c:83-108 | 0 exactly when nothing is pending; otherwise the step ends at a pending key with its digits below the first difference cleared, and passes no pending key |
| RadixHeap.Crh.Remove | src/kern-river/libs/crh.c:111-136 | exactly that deadline goes |
| Deadlines.FiresExactlyOnce | src/kern-river/drivers/timer.c:105-166 | over any run, a timer neither closed nor reopened is activated exactly once when its deadline has passed, at that very tick, and not before |
| Deadlines.ClosedStaysQuiet | src/kern-river/drivers/timer.c:121-132 | over any run, a closed timer is not activated until it is opened again |
| Deadlines.TickTwice | src/kern-river/drivers/timer.c:141-166 | ticking in two parts is ticking once |
| Timers.TimerDriver.constructor | src/kern-river/drivers/timer.c:169-179 | no timer open, at tick 0 |
| Timers.TimerDriver.QueueAppend | src/kern-river/drivers/timer.c:27-60 | every timer of the ring is closed and activated once, in order |
| Timers.TimerDriver.OpenTimer | src/kern-river/drivers/timer.c:106-118 | refines opening: at once for the current tick, otherwise a deadline |
| Timers.TimerDriver.CloseTimer | src/kern-river/drivers/timer.c:121-132 | refines closing, whether the timer is pending or not |
| Timers.TimerDriver.TickHandler | src/kern-river/drivers/timer.c:141-166 | refines ticking by any amount: every deadline reached fires once, in order, at its own tick, and what the idle branch drops is empty |
| FatChains.ChainUnique | src/kern-module/mod-sfatfs/sfatfs_inode.c:92-114 | a file's chain is determined by the table and its first cluster |
| FatChains.FatAppend | src/kern-module/mod-sfatfs/sfatfs_inode.c:92-114 | appending a free cluster keeps every chain acyclic, ended and apart from the others |
| FatChains.FatCut | src/kern-module/mod-sfatfs/sfatfs_inode.c:120-139 | cutting the last cluster keeps every chain acyclic, ended and apart from the others |
| FatChains.FatCreate | src/kern-module/mod-sfatfs/sfatfs_inode.c:493-535 | a new file on a free cluster keeps every chain acyclic, ended and apart from the others |
| FatChains.FlatPatch | src/kern-module/mod-sfatfs/sfatfs_inode.c:214-297 | writing part of one cluster patches the flat file at that cluster's place |
| FatChains.WrittenContent | src/kern-module/mod-sfatfs/sfatfs_inode.c:214-297 | bytes written in pieces from within the file make the old content with them spliced in |
| Fat.Sfatfs.FindFree | src/kern-module/mod-sfatfs/sfatfs_inode.c:76-84 | the lowest free cluster, or none exactly when none is free |
| Fat.Sfatfs.BmapLoad | src/kern-module/mod-sfatfs/sfatfs_inode.c:92-114 | the cluster at the index; one past the end appends a free cluster to that chain only; further is refused; no free cluster changes nothing; the clusters of the file and the free ones together stay as many |
| Fat.Sfatfs.BmapTruncate | src/kern-module/mod-sfatfs/sfatfs_inode.c:120-139 | exactly the last cluster goes, and the only one is kept with the size cleared |
| Fat.Sfatfs.LastTwo | src/kern-module/mod-sfatfs/sfatfs_inode.c:128-135 | the walk ends at the last two clusters |
| Fat.Sfatfs.Chunk | src/kern-module/mod-sfatfs/sfatfs_inode.c:249-287 | one piece within a block, read or written, moved at its place, the chain grown by at most that block, other files untouched |
| Fat.Sfatfs.Transfer | src/kern-module/mod-sfatfs/sfatfs_inode.c:245-287 | head, middle and tail together move one contiguous range; how much is moved, the result and the length of the chain afterwards are those computed from the length of the chain and the number of free clusters |
| Fat.Sfatfs.Io | src/kern-module/mod-sfatfs/sfatfs_inode.c:214-297 | in every sound table, whatever the sizes: rejected exactly by the signed range checks, and otherwise the exact effect on bytes, chain, size and result |
| Fat.IoOthers | src/kern-module/mod-sfatfs/sfatfs_inode.c:214-297 | a transfer leaves entry, chain and bytes of every other file alone |
| Fat.ReadWithin | src/kern-module/mod-sfatfs/sfatfs_inode.c:214-297 | if the size fits the chain a read returns the slice of the flat file and changes nothing |
| Fat.ReadGrows | src/kern-module/mod-sfatfs/sfatfs_inode.c:214-297 | a read allocates if and only if it starts in the chain or right after it, goes past its end and a cluster is free; it fails if and only if it starts further or clusters run out; neither happens while the size fits |
| Fat.WriteWithin | src/kern-module/mod-sfatfs/sfatfs_inode.c:214-297 | a write at or before the end of a file whose size fits leaves the old flat file with the reported bytes spliced in, even when clusters run out, and the size still fits |
| Fat.WriteBeyond | src/kern-module/mod-sfatfs/sfatfs_inode.c:214-297 | a write beyond the end that leaves a fitting size yields the old flat file, then what the clusters held before, then the reported bytes |
| Fat.SizeAfterWrite | src/kern-module/mod-sfatfs/sfatfs_inode.c:289-297 | after a write the size fits the chain if and only if it fitted and the write starts within the chain's bytes or can grow it, or it did not fit and the bytes that the clusters allow reach the block of the last byte |
| Fat.SizeCanOutrunChain | src/kern-module/mod-sfatfs/sfatfs_inode.c:289-297 | writing one byte at 8192 into an empty file stores nothing, is refused, and leaves size 8192 on a one-cluster chain |
| Fat.ReadCanAllocate | src/kern-module/mod-sfatfs/sfatfs_inode.c:92-114 | reading one byte at 4096 of that file succeeds and appends a cluster |
| Fat.RechainedBytes | src/kern-module/mod-sfatfs/sfatfs_inode.c:437-467 | growing or cutting a chain keeps the bytes both versions hold |
| Fat.Sfatfs.Extend | src/kern-module/mod-sfatfs/sfatfs_inode.c:447-453 | the chain grows to the wanted length or to all there is, and is refused exactly when it is too short to start |
| Fat.Sfatfs.Shrink | src/kern-module/mod-sfatfs/sfatfs_inode.c:454-461 | as many clusters go as asked, but never the last one |
| Fat.Sfatfs.TruncFile | src/kern-module/mod-sfatfs/sfatfs_inode.c:437-467 | in every sound table, whatever the sizes: the exact result, new size and length of the chain, which only grows or loses its end |
| Fat.TruncWithin | src/kern-module/mod-sfatfs/sfatfs_inode.c:437-467 | if the size fitted it still does, and the bytes both sizes cover are kept; only the lack of clusters makes it fail |
| Fat.TruncSizes | src/kern-module/mod-sfatfs/sfatfs_inode.c:437-467 | after a truncation the size fits if and only if it did before or one block holds the length asked for |
| Fat.TruncOthers | src/kern-module/mod-sfatfs/sfatfs_inode.c:437-467 | a truncation leaves entry, chain and bytes of every other file alone |
| Fat.Sfatfs.Create | src/kern-module/mod-sfatfs/sfatfs_inode.c:493-535 | a new empty file on one of the free clusters with all others unchanged, or the exact reason why not |
| Fat.StepIsFlat | src/kern-module/mod-sfatfs/sfatfs_inode.c:214-535 | any call on any file acts on a file whose size fits as the flat file operation, or not at all if it is another's |
| Fat.FlatOverRun | src/kern-module/mod-sfatfs/sfatfs_inode.c:214-535 | over any run of transfers, truncations and creations, a file whose size fits at the start and whose own writes land is at every point the flat file its own calls make of it, whatever becomes of the other files' sizes |
| SlabLayout.EstimateLargest | src/kern-ucore/mm/slab.c:156-179 | on the slab, the number of objects is the largest that fits beside its own control area |
| SlabLayout.EstimateOff | src/kern-ucore/mm/slab.c:156-179 | off the slab, one more object would not fit |
| SlabLayout.CacheEstimate | src/kern-ucore/mm/slab.c:156-179 | number and waste as specified, never reaching the limit of an index |
| SlabLayout.CalculateSlabOrder | src/kern-ucore/mm/slab.c:189-213 | the least page order that holds an object and wastes at most an eighth, with no order up to it whose off-slab control area is larger than an object; a panic if and only if such an order comes first or no order will do |
| SlabLayout.ChosenUnique | src/kern-ucore/mm/slab.c:189-213 | that choice is unique |
| SlabLayout.ChoiceFits | src/kern-ucore/mm/slab.c:189-255 | for the chosen order objects and control area lie within the slab |
| SlabLayout.GetOrder | src/kern-ucore/mm/slab.c:217-225 | the least size order holding n bytes, or none exactly above the largest |
| SlabLayout.InitKmemCache | src/kern-ucore/mm/slab.c:229-255 | a cache's objects and control area lie within its slab, and an off-slab control area comes from the least cache it fits in |
| SlabLayout.SmallChoice | src/kern-ucore/mm/slab.c:112-120 | the caches below 512 bytes hold 113, 59, 30 and 15 objects on one page |
| SlabLayout.LargeChoice | src/kern-ucore/mm/slab.c:112-120 | above a page one object fills a slab, and smaller slabs hold none |
| SlabLayout.SlabInit | src/kern-ucore/mm/slab.c:112-120 | setting up the thirteen caches never panics, and every off-slab control area fits an object of a cache that keeps its own on the slab |
| SlabCore.ObjectsApart | src/kern-ucore/mm/slab.c:344-354 | in every valid state two allocated objects never overlap |
| SlabCore.ObjectWithin | src/kern-ucore/mm/slab.c:344-354 | an object lies within its slab's pages, past the control area |
| SlabCore.ControlApart | src/kern-ucore/mm/slab.c:265-281 | no allocated object reaches a control area kept on a slab |
| SlabCore.ObjectNumber | src/kern-ucore/mm/slab.c:418-434 | the number computed from an object's address is the object's |
| SlabCore.PageOf | src/kern-ucore/mm/slab.c:444-456 | an object's page leads back to its slab |
| SlabCore.ChainTake | src/kern-ucore/mm/slab.c:344-354 | taking the first free object leaves a chain of exactly the others |
| SlabCore.ChainGive | src/kern-ucore/mm/slab.c:418-434 | giving an object back puts exactly it on the chain |
| SlabCore.TakenUser | src/kern-ucore/mm/slab.c:344-354 | taking an object makes exactly that address a user's |
| SlabCore.GivenUser | src/kern-ucore/mm/slab.c:418-434 | giving an object back takes exactly that address from the users |
| SlabCore.GrownInv | src/kern-ucore/mm/slab.c:300-340 | a new slab keeps the invariant and allocates nothing |
| SlabCore.DroppedInv | src/kern-ucore/mm/slab.c:397-413 | giving up a slab keeps the invariant and frees exactly its last object |
| SlabCore.KeyFresh | src/kern-ucore/mm/slab.c:265-281 | a new control area is never at the address of another |
| SlabCore.NothingLeft | src/kern-ucore/mm/slab.c:397-434 | when users hold no object, no slab and no page is held |
| Slab.SlabAllocator.constructor | src/kern-ucore/mm/slab.c:112-120 | valid, holding no page and no object |
| Slab.SlabAllocator.AllocOne | src/kern-ucore/mm/slab.c:344-354 | the first free object of the slab, which moves to the full list exactly when it was the last |
| Slab.SlabAllocator.InitBufctl | src/kern-ucore/mm/slab.c:322-326 | the new slab's links list every object in order |
| Slab.SlabAllocator.Grow | src/kern-ucore/mm/slab.c:300-340 | a new empty slab at the head of the list, or everything returned; the users' objects are unchanged; an off-slab control area costs one step of recursion only |
| Slab.SlabAllocator.Alloc | src/kern-ucore/mm/slab.c:359-379 | one new object of the cache for the users, or no change for them; no empty slab is kept |
| Slab.SlabAllocator.KMalloc | src/kern-ucore/mm/slab.c:384-391 | an object large enough that no user held, or none; a panic exactly above the largest size |
| Slab.SlabAllocator.SlabDestroy | src/kern-ucore/mm/slab.c:397-413 | the slab's pages are returned and its off-slab control area freed, in one step of recursion |
| Slab.SlabAllocator.Free | src/kern-ucore/mm/slab.c:418-456 | exactly the one object is freed, and its slab is relisted or given up |
| Slab.SlabAllocator.KFree | src/kern-ucore/mm/slab.c:460-462 | the users lose exactly that object |
| Slab.SlabAllocator.SlabAllocated | src/kern-ucore/mm/slab.c:124-146 | the total equals the sizes of all allocated objects |
| Kernel.Holders | src/kern-ucore/sync/sem.c:61-125 | grants never exceed releases by more than the initial value, and reach it exactly at value 0: mutual exclusion from 1 |
| Kernel.FirstComeFirstServed | src/kern-ucore/sync/sem.c:61-103 | the semaphore is handed on in order of arrival |
| Kernel.FirstWaiter | src/kern-ucore/sync/sem.c:61-76 | the first waiter is asleep for this kind of semaphore, so the assertion before waking it holds |
| Kernel.RunEnter | src/kern-ucore/schedule/sched.c:131-149 | a process that becomes ready is queued once and only on its level |
| Kernel.RunLeave | src/kern-ucore/schedule/sched.c:156-241 | the chosen process leaves its queue and every other ready one stays in exactly one |
| Kernel.EnqueuedPlaced | src/kern-ucore/schedule/sched_MLFQ.c:22-32 | a queued process is on an existing level with a slice between 1 and that level's limit |
| Kernel.Cpu.constructor | src/kern-ucore/schedule/sched.c:111-128 | four empty levels and the idle process running |
| Kernel.Cpu.RrEnqueue | src/kern-ucore/schedule/sched_RR.c:14-22 | to the tail of the level, the counter exact, a used-up or too large slice renewed |
| Kernel.Cpu.MlfqEnqueue | src/kern-ucore/schedule/sched_MLFQ.c:22-32 | one level down for a used-up slice, staying on the last level, and to the top otherwise |
| Kernel.Cpu.MlfqDequeue | src/kern-ucore/schedule/sched_MLFQ.c:35-38 | exactly that process leaves its level |
| Kernel.Cpu.MlfqPickNext | src/kern-ucore/schedule/sched_MLFQ.c:41-51 | the head of the first level that is not empty, or none exactly when all are empty |
| Kernel.Cpu.ProcTick | src/kern-ucore/schedule/sched_RR.c:41-48 | only the running process changes: its slice runs down and its end asks for rescheduling |
| Kernel.Cpu.WakeupProc | src/kern-ucore/schedule/sched.c:131-149 | a sleeping process becomes runnable and is queued unless it is the running one; a runnable one is left alone |
| Kernel.Cpu.Spawn | src/kern-ucore/process/proc.c:440-504 | a new process starts with half of the parent's time slice, rounded down, which the parent loses; it is runnable and queued, with all queues and semaphores still right |
| Kernel.Cpu.Schedule | src/kern-ucore/schedule/sched.c:156-241 | idle runs exactly when nothing else can; otherwise a process of the best level among the ready; every other runnable process is in exactly one queue once |
| Kernel.Cpu.SemInit | src/kern-ucore/sync/sem.c:53-59 | a semaphore with the value and no waiter |
| Kernel.Cpu.WakeupFirst | src/kern-ucore/sync/wait.c:84-98 | the first waiter leaves the queue, marked with the semaphore's flag, and is runnable |
| Kernel.Cpu.Up | src/kern-ucore/sync/sem.c:61-76 | one more release: handed to the first waiter, or added to the value exactly when nobody waits |
| Kernel.Cpu.Down | src/kern-ucore/sync/sem.c:78-103 | taken at once exactly when the value is positive; otherwise the process sleeps at the tail of the queue |
| Kernel.Cpu.FinishDown | src/kern-ucore/sync/sem.c:78-114 | a process that gets to run again was handed the semaphore, so the assertion on the flags holds |
| Kernel.Cpu.TryDown | src/kern-ucore/sync/sem.c:117-125 | succeeds exactly on a positive value, and then nobody waits: no barging |
| Kernel.Cpu.Sleep | src/kern-ucore/sync/wait.c:118-124 | a wait for anything else keeps every queue right |
| Kernel.Cpu.Wake | src/kern-ucore/schedule/sched.c:131-149 | a wake-up from elsewhere reaches only processes that do not wait for a kernel semaphore |
| DeltaTimers.DuesInserted | src/kern-ucore/schedule/sched.c:244-263 | inserting adds one deadline and moves no other |
| DeltaTimers.DuesDeleted | src/kern-ucore/schedule/sched.c:266-282 | deleting removes one deadline and moves no other |
| DeltaTimers.DuesTick | src/kern-ucore/schedule/sched.c:285-314 | one tick off the head is one tick for every timer |
| DeltaTimers.TimerList.AddTimer | src/kern-ucore/schedule/sched.c:244-263 | refines opening: due exactly that many ticks from now, whatever else is in the list |
| DeltaTimers.TimerList.DelTimer | src/kern-ucore/schedule/sched.c:266-282 | refines closing, whether the timer is in the list or not |
| DeltaTimers.TimerList.RunTimerList | src/kern-ucore/schedule/sched.c:285-314 | refines one tick: exactly the timers due wake, each once, and the head is never 0 afterwards |
| Events.StepInv | src/kern-river/proc/event.c:42-136 | every step keeps: an event is queued at most once and exactly when its status is not WAIT, and the process never sleeps, nor is about to, while the queue holds something |
| Events.NeverAsleepOnWork | src/kern-river/proc/proc.c:157-178 | with work queued the process is not waiting, and an attempt to wait does not sleep |
| Events.Advances | src/kern-river/proc/event.c:79-136 | a queued event moves one place forward with every look and never back |
| Events.HandlerStarts | src/kern-river/proc/event.c:79-136 | in any run with enough steps of the owning process, at most two for each event before it and two more, a queued event's handler is started, and until then the process always has a step to take |
| Events.NoLostActivation | src/kern-river/proc/event.c:42-136 | in any interleaving an activation is followed by a start of the event's handler once the owning process has taken two steps for each queued event and two more, and until then it is never asleep or otherwise without a step |
| Events.OwnerProgress | src/kern-river/proc/event.c:79-136 | with work queued the process looks at the queue after at most one other step of its own |
| Events.OwnerCanStep | src/kern-river/proc/event.c:79-136 | with work queued the process can always take its next step |
| Events.EventProc.constructor | src/kern-river/proc/event.c:13-27 | an empty pool and a waiting process satisfy the invariant |
| Events.EventProc.Open | src/kern-river/proc/event.c:30-39 | a new event is not queued |
| Events.EventProc.Notify | src/kern-river/proc/proc.c:181-197 | a waiting process becomes runnable, a runnable one remembers the notification |
| Events.EventProc.ActivateEvent | src/kern-river/proc/event.c:42-76 | an activation is one step of the state machine, from any state |
| Events.EventProc.LookOnce | src/kern-river/proc/event.c:79-136 | one look at the queue is one step of the state machine |
| Events.EventProc.TryWait | src/kern-river/proc/proc.c:157-178 | an attempt to wait is one step of the state machine |
| Pid.SomeFree | src/kern-ucore/process/proc.c:141-172 | with no more processes than allowed some pid is free |
| Pid.ProcTable.Scan | src/kern-ucore/process/proc.c:153-169 | the restarting scan ends, by the distance to a free pid around the wrap, at the first pid no process has from its start on and then from 1, with no process in the interval after it |
| Pid.ProcTable.GetPid | src/kern-ucore/process/proc.c:141-172 | the first pid from 1 below the maximum that no listed process has, counted from the next one and around the wrap; inside the remembered interval it is just the next one |
| Pid.IdlePid | src/kern-ucore/process/proc.c:141-172 | an idle process' pid is handed out if and only if the scan meets one that is not listed, on its way up or after the wrap with every pid from its start on used |
| Pid.IdlePidTaken | src/kern-ucore/process/proc.c:141-172 | with the pids from 5000 up in use the next one is 1, an idle process' pid on two processors |
| Pid.ProcTable.Fork | src/kern-ucore/process/proc.c:440-504 | over any sequence of forks and exits pids stay unique and the interval stays free |
| Pid.ProcTable.Exit | src/kern-ucore/process/proc.c:125-137 | exactly that pid becomes free, and the interval stays free |

## Left out

- RbTree.RedBlackTree.Insert: the comparator is a fixed rank of each node, so changing a key while a node is in the tree is not covered here; `Vma` covers it for areas that shrink in place.
- Vma.TreeInsert: works on an uncoloured tree and promises its in-order sequence only, which is all its callers use; the red-black tree with its links is `RbTree`, whose effect on that sequence `Vma.RbInsertAgrees` shows to be the same at any one moment. Start addresses change in place, so the two are not one heap structure.
- Vma.TreeDelete: the same for deletion, with `Vma.RbDeleteAgrees`.
- Vma.PruneInOrder: the same; it is the deletion on the uncoloured tree.
- Buddy.BuddyManager.FreeBlock: the exclusive or on one bit of a page index is written as adding or subtracting the block size; page reference fields are not modelled.
- Address spaces carry numbers below twice the process limit: each process has at most one, and at most one more that it sets up for a child.
- Whether the swap device can be read or written, and whether a page table can be had, are parameters.
- RadixHeap.Crh.MaxStep: shifts are read as 64-bit; below 2^28 the 32-bit ones agree (`RadixHeap.ShiftsFit`). A shift by a negative count is read as moving every bit out.
- Timers.TimerDriver.TickHandler: ticks stay below 2^64; the time slice of the running process is not part of it.
- Slab.SlabAllocator.Alloc: control areas are records beside the memory they occupy, not bytes in it; the page allocator may return any pages not in hand, or none.
- Kernel.Cpu.Schedule: one processor; switching stacks and page tables, and the collected statistics, are not modelled.
- Events.EventProc.LookOnce: stopping the loop is not modelled; run-queue links of river's scheduler are left to the wait and notify words.
- Pid.ProcTable.Fork: everything of a fork but the choice of the pid.
- Page contents, dirty-bit accuracy and TLB flushes: they depend on hardware updates of page table entries.
- Shared memory areas (`VM_SHARE`, `shmem.c`), in paging and in the area operations: a separate sharing regime.
- `dup_mmap`, `exit_mmap` and the kswapd loops: they only repeat the modelled operations over lists.
- FAT directories, names, the free-block counter, superblock synchronisation and device errors.
- User semaphores with timeouts, mailboxes and ucore's own events: they add user-memory copies and timer races.
- Boot code, drivers, console, string and print libraries, user programs, image tools and the module loader: hardware plumbing or simpler than the parts above.
