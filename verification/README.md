# A verified model of the ddos kernel

The kernel is a small RISC-V teaching system.  This project models its memory
management, its red-black tree, its packet handling and its scheduling in Dafny
and proves what each part is there for.  `dafny verify dfyconfig.toml` checks all
of it.

- **Red-black tree** (`RbShape`, `RbHeap`, `RbLinks`, `RbTree`).  Node records with
  parent, child and colour fields, the nil sentinel and the fake root are memory;
  a tree and the path to a place in it describe that memory.  Insertion and
  deletion are the pointer code, with both repair loops.
- **Pages** (`BuddyBlocks`, `Buddy`) and **objects** (`Slab`).  The buddy free
  lists are exactly the maximal aligned free blocks; a slab cache keeps acyclic
  chains of free objects.
- **Paging** (`PageState`, `PageSteps`, `PageFork`, `Paging`, `PagingRuns`).  Page-table
  entries, reference counts, the swap cache, slot counts, dirty marks and disk
  slots.  Whatever happens, every address space sees a private memory.
- **Memory areas** (`VmaShape`, `VmaMap`).  The list, the tree (the one above) and
  the cached area answer alike; mapping and unmapping change exactly their range.
- **Packet buffers** (`PktBlocks`, `Pktbuf`) and **checksum** (`Checksum`).  A chain
  of blocks is a flat byte string, and the checksum does not see the blocks.
- **IPv4 fragments** (`IpFrag`) and **TCP receiving** (`TcpRing`, `TcpStream`,
  `TcpReassembly`).  Pieces in any order become the payload and the stream.
- **Scheduling and time** (`Cfs`, `Timers`, `Semaphore`, `Rto`).
- `Common` holds what several of these use.

Records that the code updates in place are fields of classes.  Where one step
touches many tables, the tables form one record that the methods update part by
part.  Locks make operations atomic, except in `Semaphore`, where every process
takes single steps between those of the others.  C assertions and panics are
preconditions or outcomes of their own.  Addresses that kmalloc gives out, frames
that the allocator picks, elapsed times and what lies in fresh memory are
parameters or arbitrary.

## Where the code falls short of what one would expect

Each item names the member with the exact condition and one with an input.

- `tcp_ofo_seq_insert` stops the kernel exactly when a new segment lies inside a
  queued one behind its start (`TcpReassembly.Insert`, `InsertStopsHappens`).
- `copy_data_to_rcvbuf` signals a segment behind the window with -1 in an unsigned
  type; the caller then moves rcv.nxt back by one (`Receiver.DataIn`,
  `BehindWindowHappens`).  The acceptance test keeps such segments away (`SegmentIn`).
- `tcp_seq_acceptable`, like the table in RFC 793, turns away a segment that begins
  before the window and ends behind it, new data included (`NothingNew`,
  `SpanningHappens`).
- `do_pagatable_fault` returns 0 without mapping the page when a shared cached page
  has to be copied and there is no frame (`Paging.Fault`, `LostFaultReached`).
- `mm_unmap` of an empty range strictly inside an area splits the area and drops
  one page that stays covered.  `do_munmap` refuses the length 0, so this takes a
  length that wraps around, such as 2^64 - 1 (`Mm.Unmap`, `EmptyUnmapHappens`).
- `mm_unmap` of a range backwards inside an area, again by a length that wraps
  around, stops the kernel in insert_vma_struct (`Mm.Unmap`, `ReversedUnmapHappens`).
- `get_unmapped_area` finds a place above TRAPFRAME(NPROC), and misses those below,
  exactly when there is room just below an area that starts above that limit
  (`Mm.GetUnmappedArea`, `TooHighHappens`).  It returns 0 for lengths it does not
  look for.
- `do_mmap` keeps the result of `get_unmapped_area` in an unsigned variable before it
  tests for a negative one, so that it never notices that there is no place
  (`Mm.Mmap`, `NoPlaceHappens`).
- `do_brk` rounds an address in the last page of the 64-bit space up to 0, which it
  does not compare with the start of the heap again, and unmaps everything below the
  old break (`Mm.DoBrk`, `WrappedBreakHappens`).
- `pktbuf_add_header` leaves mem_size too large when it refuses a header, which
  happens exactly when a contiguous header exceeds a block (`Pool.AddHeader`,
  `RefusedHeaderHappens`).
- A datagram of more than 200 fragments is never put together (`IpFrag.Transmit`,
  `TooManyHappens`).
- `buddy_free_pages` uses order 11, for which there is no list, exactly when the range
  ends 2048 pages behind the first multiple of 2048 at or after its start
  (`Buddy.FreePages`, `OverrunHappens`).  Ranges of fewer than 2048 pages never do, so
  what `buddy_alloc_pages` gives out can be freed (`SmallRange`).

Two more cases do not occur, because no caller asks for them.  `mm_brk` for a range
that wraps around would cut the heap area back, below its own start in some cases
(`Mm.CutHeap`, `InvertedBrkHappens`), but `do_brk`, its only caller, does not pass one.
A timer for no ticks at all would stop the count of all others for one tick
(`Timers.TimerList.Tick`), but do_sleep, timer_func_add and ipc_timer_init, through
which every timer comes, do not add one.

## Model

| member | source | states |
|---|---|---|
| `RbTree.RbTree.constructor` | code/kernel/util/rbtree.c:20-43 | An empty tree with its two sentinels is a valid red-black tree. |
| `RbTree.RbTree.Rotate` | code/kernel/util/rbtree.c:45-62 | A rotation relinks parent and child pointers to exactly the rotated shape, on either side. |
| `RbTree.RbTree.InsertBinary` | code/kernel/util/rbtree.c:68-82 | The new node becomes a leaf at the place the search for its key ends, with all pointers consistent. |
| `RbTree.RbTree.InsertRecolour` | code/kernel/util/rbtree.c:91-95 | Red uncle: recolouring keeps black heights and order and moves the only possible red-red edge two levels up. |
| `RbTree.RbTree.InsertRotate` | code/kernel/util/rbtree.c:96-104 | Black uncle: one or two rotations remove the red-red edge for good. |
| `RbTree.RbTree.InsertFixup` | code/kernel/util/rbtree.c:107-114 | The insertion loop ends, and leaves a red-black tree with the same in-order sequence. |
| `RbTree.RbTree.Insert` | code/kernel/util/rbtree.c:84-118 | Afterwards the tree is valid (pointers, colours, black height, order), and the node stands behind all keys <= its own and before all larger ones. |
| `RbTree.RbTree.DeleteRedSibling` | code/kernel/util/rbtree.c:165-203 | Red sibling: a rotation gives the short subtree a black sibling. |
| `RbTree.RbTree.DeleteBlackSibling` | code/kernel/util/rbtree.c:165-203 | Black sibling: the short subtree moves up a level, or is repaired for good. |
| `RbTree.RbTree.DeleteFixup` | code/kernel/util/rbtree.c:165-203 | The deletion loop, which compares with a root read once before it, ends and restores equal black heights with the same in-order sequence. |
| `RbTree.RbTree.Delete` | code/kernel/util/rbtree.c:205-233 | Exactly the given node leaves the in-order sequence, also when its successor takes its place, and the tree stays valid. |
| `RbTree.RbTree.Search` | code/kernel/util/rbtree.c:156-163 | A node with the key if there is one, and otherwise the proof that there is none. |
| `RbTree.RbTree.Successor` | code/kernel/util/rbtree.c:120-135 | The next node in order, nil after the last. |
| `RbTree.RbTree.Predecessor` | code/kernel/util/rbtree.c:137-154 | The node before in order, nil before the first. |
| `RbTree.RbTree.Leftmost` | code/kernel/schedule/sched_CFS.c:90-99 | The walk to the left ends at the first node in order. |
| `RbShape.InsertRotateKeeps` | code/kernel/util/rbtree.c:88-105 | The shape after the insertion rotations is red-black with the same nodes in the same order. |
| `RbShape.FarNephewKeeps` | code/kernel/util/rbtree.c:165-203 | The last deletion rotation evens out the black heights. |
| `RbShape.Balanced` | code/kernel/util/rbtree.c:266-290 | No path of a tree with n nodes, to wherever it leads, is longer than 2 log2(n + 1). |
| `RbShape.Sparsest` | code/kernel/util/rbtree.c:266-290 | For every black height there is a red-black tree with only 2^h - 1 nodes. |
| `RbShape.Deepest` | code/kernel/util/rbtree.c:266-290 | For every black height there is a red-black tree with a path of length 2h: neither half of the bound can be improved. |
| `Buddy.Buddy.constructor` | code/kernel/mm/buddyPmm.c:19-24 | No page is free before the memory map is set up. |
| `Buddy.Buddy.InitMemmap` | code/kernel/mm/buddyPmm.c:26-50 | All pages of the zone become free, as maximal aligned blocks. |
| `Buddy.Buddy.GetOrder` | code/kernel/mm/buddyPmm.c:52-59 | The least order whose block holds n pages. |
| `Buddy.Buddy.AllocSub` | code/kernel/mm/buddyPmm.c:61-85 | Takes a block of the order from the first listed block of the smallest sufficient order, splitting it; every other free block stays; fails, changing nothing, only when every free block is smaller. |
| `Buddy.Buddy.AllocPages` | code/kernel/mm/buddyPmm.c:87-93 | Exactly n pages leave the free set, the first ones of the block that best fit and first listed prescribe; none are returned exactly when no aligned free run of 2^order pages exists. |
| `Buddy.Buddy.PageIsBuddy` | code/kernel/mm/buddyPmm.c:95-102 | Says whether the page heads a free block of that order. |
| `Buddy.Buddy.FreeSub` | code/kernel/mm/buddyPmm.c:108-133 | The block becomes free and merges with its buddies as far as possible; the merged block is the newest of its list. |
| `Buddy.Buddy.FreePages` | code/kernel/mm/buddyPmm.c:135-162 | Exactly the n pages become free, whatever their number and alignment, and the free blocks stay maximal, if and only if the range ends before 2048 pages behind the first multiple of 2048 at or after its start; if it ends there an order without a list is used, and if it ends later the assertion stops the kernel. |
| `Buddy.SmallRange` | code/kernel/mm/buddyPmm.c:87-93 | A range of fewer than 2048 pages, so all that buddy_alloc_pages gives out, is freed well wherever it lies. |
| `Buddy.OverrunHappens` | code/kernel/mm/buddyPmm.c:135-162 | Freeing 2048 pages from the start of a zone uses an order without a list. |
| `Buddy.Buddy.NrFreePages` | code/kernel/mm/buddyPmm.c:164-168 | The number of free pages. |
| `Buddy.Buddy.AllocThenFree` | code/kernel/mm/buddyPmm.c:87-162 | Freeing what was allocated restores the identical set of free blocks. |
| `BuddyBlocks.Canonical` | code/kernel/mm/buddyPmm.c:108-133 | Two coalesced sets of blocks over the same free pages are the same set: the free lists are determined by the free pages. |
| `BuddyBlocks.HeadsAreMaximal` | code/kernel/mm/buddyPmm.c:118-127 | The listed blocks are exactly the maximal aligned runs of free pages. |
| `BuddyBlocks.NoRun` | code/kernel/mm/buddyPmm.c:61-85 | With all lists from an order on empty, no aligned free run of that order exists. |
| `Slab.Estimate` | code/kernel/mm/slab.c:52-69 | The largest number of objects that fits with its bookkeeping, and what is left over. |
| `Slab.EstimatedOnce` | code/kernel/mm/slab.c:52-69 | No other pair of numbers satisfies this. |
| `Slab.InitCache` | code/kernel/mm/slab.c:71-123 | Uses the first order at which at most an eighth of the slab is left over, with the number of objects that fit at it; the objects of a slab lie inside it, behind the header and array when those are in the slab; which sizes fail, and none of those that slab_init sets up does. |
| `Slab.NewSlab` | code/kernel/mm/slab.c:186-210 | The chain of a new slab visits every object once. |
| `Slab.TakeFirst` | code/kernel/mm/slab.c:212-222 | Allocation takes the first object off an acyclic chain and leaves an acyclic chain of the others. |
| `Slab.PutFirst` | code/kernel/mm/slab.c:278-282 | Freeing an object in use puts it in front of the chain. |
| `Slab.SlabCache.Alloc` | code/kernel/mm/slab.c:224-238 | Exactly one object that was not in use becomes used, from the first slab that has one, and only without such a slab from a new one; the chain and list invariants of every slab are kept. |
| `Slab.SlabCache.Free` | code/kernel/mm/slab.c:278-290 | Exactly that object stops being used; the slab is given back exactly when no other object of it is in use; every slab kept is on the list that fits its chain. |
| `Slab.NoOverlap` | code/kernel/mm/slab.c:212-222 | Objects in use overlap neither each other nor the bookkeeping of their slab. |
| `Slab.ObjectNumber` | code/kernel/mm/slab.c:278-280 | The object number is recovered from the address. |
| `Paging.Paging.constructor` | code/kernel/mm/swap.c:91-114 | With every slot unused and every frame free the paging invariant holds. |
| `Paging.Paging.AllocPage` | code/kernel/mm/pmm.c:219-230 | A free frame full of zeros; no address space sees a change. |
| `Paging.Paging.SwapRemoveEntry` | code/kernel/mm/swap.c:232-248 | The count of the slot goes down by one; with the last reference, and only then, the slot becomes unused and its copy leaves the cache, free unless an entry refers to it. |
| `Paging.Paging.RemovePte` | code/kernel/mm/pmm.c:488-508 | One entry goes; its page reads as zero, every other page as before, and all counts stay exact. |
| `Paging.Paging.PageInsert` | code/kernel/mm/pmm.c:510-526 | The entry now maps the frame, and no other page of any address space changes. |
| `Paging.Paging.SwapInPage` | code/kernel/mm/swap.c:263-296 | The cached copy of a slot, read from disk if there was none; fails only for lack of a frame. |
| `Paging.Paging.Resolve` | code/kernel/mm/vmm.c:628-663 | Copy on write: the entry keeps the frame exactly when no other entry, in any address space, refers to the frame or to its slot, and otherwise gets the copy; fails exactly when a copy is needed and there is no frame. |
| `Paging.Paging.Fault` | code/kernel/mm/vmm.c:564-673 | No address space sees a change; returns -E_NO_MEM in exactly the stated states; otherwise the access can go on, except in the one state where the fault reports success without mapping the page.  Whether a page is shared is stated as: another entry refers to its frame or slot. |
| `PageSteps.CountIsViewers` | code/kernel/mm/swap.c:250-261 | The mappings of a frame and the references to its slot, added up, are the number of entries that refer to either. |
| `PageSteps.SharedIs` | code/kernel/mm/vmm.c:628-663 | That number exceeds 1 exactly when an entry other than the faulting one refers to the frame or its slot. |
| `Paging.Paging.Store` | code/kernel/mm/pmm.h:99-109 | A store through a writable entry changes that page of that address space only. |
| `Paging.Paging.CopyPage` | code/kernel/mm/pmm.c:336-376 | The child's page reads as the parent's; stops the kernel exactly without a frame for a stack page or at the limit of slot references. |
| `PagingRuns.LostFaultReached` | code/kernel/mm/vmm.c:628-663 | From the start, with one frame: a store, a fork and two swap-outs lead to the fault that reports success without mapping the page. |
| `Paging.Paging.Fork` | code/kernel/mm/vmm.c:331-358 | The child sees, page by page, what the parent saw, and nobody else sees a change; the copy goes through if and only if there is a frame for every stack page and room for one more reference in every slot for each of its pages. |
| `PageFork.CopyingStep` | code/kernel/mm/pmm.c:336-376 | After every page copied, free frames and slot references are those at the start, less or more one for each stack page or swapped page copied. |
| `PageFork.CopyingStops` | code/kernel/mm/pmm.c:336-376 | Where a page cannot be copied there was no room for all of them. |
| `Paging.Paging.Unmap` | code/kernel/mm/pmm.c:246-259 | Exactly the pages of the range lose their entries. |
| `Paging.Paging.FindSlot` | code/kernel/mm/swap.c:152-185 | The circular search finds the first unused slot from its starting point on, exactly when there is one. |
| `Paging.Paging.SwapOutPage` | code/kernel/mm/swap.c:379-430 | Nobody sees a change; a used entry only loses its mark; otherwise it refers to a slot afterwards exactly when there is one; the kernel stops exactly at the limit of references to the slot. |
| `Paging.Paging.SwapOutVma` | code/kernel/mm/swap.c:379-430 | Nobody sees a change; the count is the number of pages that left memory; only entries of the area change; after a whole pass no page left in memory counts as used. |
| `Paging.Paging.Refill` | code/kernel/mm/swap.c:363-377 | Afterwards exactly the mapped frames of the active list are left on it, in their order, and the others follow the inactive ones in theirs. |
| `Paging.SiftIs` | code/kernel/mm/swap.c:363-377 | What stays on a list, or leaves it, are exactly its frames with, or without, a mapping. |
| `Paging.Paging.Launder` | code/kernel/mm/swap.c:329-361 | Nobody sees a change; the inactive list is empty: its mapped frames follow the active ones in their order, the others are free, and as many as were counted. |
| `Paging.Accounting` | code/kernel/mm/swap.c:218-261 | Between steps: reference counts are the numbers of entries, a frame is free exactly when unmapped and uncached, and an uncached or clean slot holds what its pages see. |
| `PagingRuns.Access` | code/kernel/mm/vmm.c:564-673 | With at most one fault the access succeeds if and only if the entry allows it, or there is memory for the fault and it is not lost. |
| `PagingRuns.Perform` | code/kernel/mm/vmm.c:564-673 | Every operation acts on the pages as it would on one private memory per address space; a load, store or fork goes through if and only if a stated condition on the state before holds; with two free frames a load or store succeeds; the kernel stops only in a fork without room or a swap-out at the limit of slot references. |
| `PagingRuns.Run` | code/kernel/mm/swap.c:329-430 | Every interleaving of loads, stores, forks, unmappings, swapping and laundering returns what private memories would, up to its end or the point where frames or slot references are exhausted. |
| `VmaMap.FindRb` | code/kernel/mm/vmm.c:90-103 | The descent through the tree finds what the search along the list finds. |
| `VmaMap.InsertRb` | code/kernel/mm/vmm.c:150-157 | The tree holds the new record where it belongs in the list, and its predecessor is the record before it. |
| `VmaMap.BuildTree` | code/kernel/mm/vmm.c:181-187 | The tree built at 32 areas holds all of them in order. |
| `VmaMap.Mm.FindVma` | code/kernel/mm/vmm.c:105-128 | The first area that ends behind the address, whether cache, tree or list answers; it becomes the cached one. |
| `VmaMap.Mm.InsertVma` | code/kernel/mm/vmm.c:159-188 | List, tree, cache and count describe the same areas, in order, without overlap; the tree is built exactly when there are RB_MIN_MAP_COUNT areas and none yet. |
| `VmaMap.Mm.RemoveVma` | code/kernel/mm/vmm.c:190-201 | The record leaves list and tree, and the cache does not point to it. |
| `VmaMap.Mm.Map` | code/kernel/mm/vmm.c:229-246 | Maps exactly the rounded range, as one area, if it was free; each of the other outcomes if and only if its condition holds. |
| `VmaMap.Mm.Split` | code/kernel/mm/vmm.c:286-294 | Cutting a range out of one area leaves its two sides, with the key of a node in the tree changed in place. |
| `VmaMap.Mm.Unmap` | code/kernel/mm/vmm.c:276-329 | Exactly the rounded range stops being covered, everything else keeps its flags; pages dropped are those in the range, except for an empty range inside an area; every failure, and the stop on a range backwards inside an area, if and only if its condition holds. |
| `VmaMap.EmptyUnmapHappens` | code/kernel/mm/vmm.c:286-294 | The call munmap(0x5000, 2^64 - 1) on an area around it drops a page that stays covered. |
| `VmaMap.ReversedUnmapHappens` | code/kernel/mm/vmm.c:286-294 | The call munmap(0x5000, 2^64 - 0x2000) on an area around it stops the kernel. |
| `VmaMap.Mm.MapHeap` | code/kernel/mm/vmm.c:421-431 | The area below grows exactly when the address below the range is mapped with the flags of the heap; otherwise a new area is inserted. |
| `VmaMap.Mm.CutHeap` | code/kernel/mm/vmm.c:421-431 | For a range that wraps around, the heap area that ends at its start is cut back to its end; the map stays in order if and only if that lies above the start of the area. |
| `VmaMap.InvertedBrkHappens` | code/kernel/mm/vmm.c:415-432 | A call whose length wraps around leaves a heap area that ends before it starts. |
| `VmaMap.Mm.Brk` | code/kernel/mm/vmm.c:415-432 | For every address and length: the range ends up mapped with the heap flags, everything else as before; each failure if and only if its condition holds, and what it leaves behind; a range that wraps around cuts an area back instead. |
| `VmaMap.Mm.DoBrk` | code/kernel/kernel/proc.c:1060-1083 | The heap ends at the rounded address afterwards, with exactly the range between mapped or unmapped, or where it was, each by its condition; it comes to end below its start if and only if the address lies in the last page of the 64-bit space. |
| `VmaMap.WrappedBreakHappens` | code/kernel/kernel/proc.c:1060-1083 | The break 2^64 - 1 is taken for 0, and an area below the heap goes away. |
| `VmaMap.Mm.GetUnmappedArea` | code/kernel/mm/vmm.c:379-391 | In every map a result >= 0 is free; it lies below TRAPFRAME(NPROC), and is then the highest that does, if and only if no range of the length is free just below an area that starts above that limit, and is the highest such range otherwise; a negative result means exactly that there is no place, or that the place lies at 2^63 or above; 0 for lengths that are never looked for. |
| `VmaMap.PlacedOnce` | code/kernel/mm/vmm.c:379-391 | What is stated about the result allows one value only. |
| `VmaMap.TooHighHappens` | code/kernel/mm/vmm.c:379-391 | With one area above the limit the result is the limit itself, although a range below it fits. |
| `VmaMap.NoPlaceHappens` | code/kernel/mm/vmm.c:379-391 | A map without a place, for which the result is minus one page. |
| `VmaMap.Mm.Mmap` | code/kernel/kernel/proc.c:1332-1354 | Without an address the call succeeds if and only if there is a place, and then maps exactly a free range of the length; without one it goes on to mm_map all the same, which refuses or stops the kernel. |
| `VmaMap.Mm.Copy` | code/kernel/mm/vmm.c:331-358 | The copy has the same areas in the same order. |
| `VmaShape.InsertMaps` | code/kernel/mm/vmm.c:159-188 | An inserted area adds exactly its own addresses. |
| `PktBlocks.AllocList` | code/kernel/net/pktbuf.c:93-111 | Adds non-empty blocks for exactly the bytes asked for, at the end asked for. |
| `PktBlocks.AddHeader` | code/kernel/net/pktbuf.c:160-194 | Prepends bytes to the flat string; a header that has to be contiguous lies in the first block. |
| `PktBlocks.RemoveHeader` | code/kernel/net/pktbuf.c:196-223 | Drops exactly the first bytes of the flat string. |
| `PktBlocks.Grow` | code/kernel/net/pktbuf.c:232-252 | Extends the flat string at its end. |
| `PktBlocks.Shrink` | code/kernel/net/pktbuf.c:253-274 | Truncates the flat string. |
| `PktBlocks.Join` | code/kernel/net/pktbuf.c:280-290 | Concatenates the flat strings; a cursor before the end keeps its place. |
| `PktBlocks.SetCont` | code/kernel/net/pktbuf.c:292-334 | The flat string stays, and its first bytes lie in one block. |
| `PktBlocks.Reset` | code/kernel/net/pktbuf.c:336-349 | Puts the cursor at position 0. |
| `PktBlocks.MoveForward` | code/kernel/net/pktbuf.c:357-371 | The cursor stands at the flat position, across block boundaries. |
| `PktBlocks.Write` | code/kernel/net/pktbuf.c:373-392 | Replaces the flat bytes at the cursor. |
| `PktBlocks.SpliceIs` | code/kernel/net/pktbuf.c:373-392 | What Write does to the flat string: the bytes at the cursor are the written ones, all others stay. |
| `PktBlocks.Read` | code/kernel/net/pktbuf.c:394-413 | Returns the flat bytes at the cursor. |
| `PktBlocks.Seek` | code/kernel/net/pktbuf.c:415-443 | Moves the cursor to the flat position; the error cases exactly. |
| `PktBlocks.Copy` | code/kernel/net/pktbuf.c:445-466 | Copies flat bytes between buffers of different layouts. |
| `PktBlocks.Fill` | code/kernel/net/pktbuf.c:468-486 | Fills flat bytes at the cursor. |
| `Pktbuf.Pool.Alloc` | code/kernel/net/pktbuf.c:113-133 | A buffer of the size, counted in mem_size, in blocks that are filled up to their ends. |
| `Pktbuf.Pool.Free` | code/kernel/net/pktbuf.c:135-158 | The buffer's bytes are no longer counted. |
| `Pktbuf.Pool.AddHeader` | code/kernel/net/pktbuf.c:160-194 | mem_size stays the sum of the sizes, except on the failing return, after which it is too large by the size asked for. |
| `Pktbuf.RefusedHeaderHappens` | code/kernel/net/pktbuf.c:160-194 | A contiguous header of 513 bytes is refused and stays counted. |
| `Pktbuf.Pool.RemoveHeader` | code/kernel/net/pktbuf.c:196-223 | mem_size stays the sum of the sizes. |
| `Pktbuf.Pool.Resize` | code/kernel/net/pktbuf.c:225-278 | Truncates or extends, and mem_size stays the sum of the sizes. |
| `Pktbuf.Pool.Join` | code/kernel/net/pktbuf.c:280-290 | Two buffers become one, and mem_size, untouched, stays the sum of the sizes. |
| `Pktbuf.Pool.SetCont` | code/kernel/net/pktbuf.c:292-334 | Contents and mem_size stay. |
| `Checksum.Checksum16` | code/kernel/net/nettool.c:21-38 | The folded sum of the bytes by position, for an even or odd start, without 32-bit overflow. |
| `Checksum.FoldIs` | code/kernel/net/nettool.c:35-36 | Folding is the remainder modulo 65535, with 65535 for non-zero multiples. |
| `Checksum.FoldPlus` | code/kernel/net/nettool.c:35-36 | Folding between blocks does not change the result. |
| `Checksum.FoldIsOnesSum` | code/kernel/net/nettool.c:21-38 | The result is the one's complement sum of section 2 of RFC 1071. |
| `Checksum.BufSum` | code/kernel/net/pktbuf.c:494-516 | The sum of a buffer is that of its flat bytes for every block layout. |
| `Checksum.ChecksumPeso` | code/kernel/net/nettool.c:40-54 | The checksum is, in network byte order, the complement of the one's complement sum of source, destination, protocol, length and the flat bytes read as big-endian words, for up to 65535 bytes and any layout of the buffer. |
| `Checksum.PesoInNetOrder` | code/kernel/net/nettool.c:40-54 | The sum that is computed in the byte order of the machine is the swapped sum in network byte order. |
| `Checksum.FoldTurned` | code/kernel/net/nettool.c:21-38 | Swapping the bytes of every word swaps the bytes of the folded sum (section 2(B) of RFC 1071). |
| `Checksum.StampedPasses` | code/kernel/net/tcp_out.c:18-19 | What send_out stamps makes the check of the receiver come out zero, on any buffer with the same bytes. |
| `IpFrag.FragOut` | code/kernel/net/ipv4.c:474-527 | Fragments tile the payload: the offset fields, times 8, are where the data stands in it; all but the last announce more and are as long as the mtu allows; their number as a function of length and mtu. |
| `IpFrag.OneFrag` | code/kernel/net/ipv4.c:474-527 | Cutting one fragment off leaves one less to be cut. |
| `IpFrag.Transmit` | code/kernel/net/ipv4.c:318-527 | A payload cut up, sent in any order with duplicates and put together comes out as it was if and only if all fragments arrive and there are at most 200. |
| `IpFrag.Insert` | code/kernel/net/ipv4.c:318-348 | A new fragment goes to its place in order; a second copy is refused. |
| `IpFrag.AllArrived` | code/kernel/net/ipv4.c:350-367 | True exactly when the list starts at 0, has no gap, and ends with the last fragment. |
| `IpFrag.CompleteIsAll` | code/kernel/net/ipv4.c:350-367 | That is the case exactly when every fragment is in the list. |
| `IpFrag.JoinAll` | code/kernel/net/ipv4.c:369-398 | The first header, and the data of all fragments in order. |
| `IpFrag.FragIn` | code/kernel/net/ipv4.c:400-432 | The datagram comes out with its last missing fragment, and the list is freed when it is too long. |
| `IpFrag.Deliver` | code/kernel/net/ipv4.c:318-432 | In any order with duplicates: out exactly when all have arrived, with the payload; never with more than 200 fragments. |
| `IpFrag.TooManyHappens` | code/kernel/net/ipv4.c:400-527 | A payload of 1608 bytes cut for an mtu of 28 never comes out, although every fragment arrives. |
| `TcpStream.SeqCompare` | code/kernel/net/tcp.h:18-19 | Within half the number space, sequence numbers compare as the positions they stand for. |
| `TcpRing.Ring.Write` | code/kernel/net/tcp_buf.c:47-64 | Appends as many bytes as fit, around the end of the array. |
| `TcpRing.Ring.Read` | code/kernel/net/tcp_buf.c:66-76 | Hands out the oldest bytes. |
| `TcpReassembly.AcceptableIsInWindow` | code/kernel/net/tcp_in.c:34-58 | The acceptance test on sequence numbers is that of section 3.3 of RFC 793 on positions. |
| `TcpReassembly.NothingNew` | code/kernel/net/tcp_in.c:125-138 | What is turned away has nothing new inside the window, unless it spans the whole window. |
| `TcpReassembly.Insert` | code/kernel/net/tcp_in.c:151-211 | The queue stays sorted with gaps and covers what it covered and the new segment; the kernel stops exactly when the segment lies inside a queued one behind its start. |
| `TcpReassembly.AbsorbNext` | code/kernel/net/tcp_in.c:166-189 | The new segment swallows what it reaches, the last one possibly in part. |
| `TcpReassembly.Receiver.CheckOfo` | code/kernel/net/tcp_in.c:213-251 | The queued segment that continues the stream is delivered whole; the truncating branch is never needed. |
| `TcpReassembly.Trim` | code/kernel/net/tcp_in.c:253-286 | A segment is cut to the window; it is refused exactly when it starts behind it. |
| `TcpReassembly.Receiver.DataIn` | code/kernel/net/tcp_in.c:300-339 | Received positions grow by exactly the segment's part of the window; the ring gets the stream up to the first missing position; a segment behind the window moves rcv.nxt back by one. |
| `TcpReassembly.Receiver.SegmentIn` | code/kernel/net/tcp_in.c:125-141 | With the acceptance test in front rcv.nxt never moves back and the right edge of the window stays; exactly when the kernel is stopped, and then the first byte had been received. |
| `TcpReassembly.Receiver.Read` | code/kernel/net/tcp.c:493-519 | The reader gets the next bytes of the stream, and the right edge of the window does not move back. |
| `TcpReassembly.Receiver.Run` | code/kernel/net/tcp_in.c:151-339 | Over a run of any length, with segments in any order, duplicates and overlaps, what the reader gets is the stream without gap; every segment that fits the first window is received, and nothing that did not come; the kernel is stopped only if some byte comes twice; the run ends early only at a segment 2^31 or more positions away from the one reached. |
| `TcpReassembly.InsertStopsHappens` | code/kernel/net/tcp_in.c:190-203 | Bytes 12 to 14 after bytes 10 to 19 stop the kernel. |
| `TcpReassembly.BehindWindowHappens` | code/kernel/net/tcp_in.c:253-315 | With a window of 4 bytes, byte 6 moves rcv.nxt back by one. |
| `TcpReassembly.SpanningHappens` | code/kernel/net/tcp_in.c:34-58 | A segment around the window is turned away with a byte that is new. |
| `TcpReassembly.Receiver.FirstMissing` | code/kernel/net/tcp_in.c:312-315 | rcv.nxt is the first position not received. |
| `Cfs.RunQueue.Enqueue` | code/kernel/schedule/sched_CFS.c:50-78 | The process joins the list behind those of its own priority, and the tree if it is runnable; slice and virtual run time are those of a queue that already lists the process. |
| `Cfs.RunQueue.Dequeue` | code/kernel/schedule/sched_CFS.c:80-88 | The process leaves list and tree, and the others keep their order. |
| `Cfs.RunQueue.Pick` | code/kernel/schedule/sched_CFS.c:90-107 | A runnable process with the least virtual run time, none exactly when nobody is runnable; its slice is the share of its weight (see Slice). |
| `Cfs.RunQueue.PutBack` | code/kernel/schedule/sched_CFS.c:123-137 | Back in the tree; one that ran is charged for its ticks by its weight (see Charge), one that slept gets the mean of the runnable ones. |
| `Cfs.RunQueue.Tick` | code/kernel/schedule/sched_CFS.c:159-167 | The slice counts down by one and stops at 0, where rescheduling is asked for; nothing else changes. |
| `Cfs.RunQueue.GoToSleep` | code/kernel/kernel/proc.c:508-528 | A running process that goes to sleep stays listed and out of the tree, and nothing else of it changes. |
| `Cfs.Slice` | code/kernel/schedule/sched_CFS.c:144-156 | The slice s is the exact share of the weight in the latency, rounded down, between 5 and 200 ticks: above 5, s * (total + 1) <= latency * weight; below 200, latency * weight < (s + 1) * (total + 1). |
| `Cfs.Charge` | code/kernel/schedule/sched_CFS.c:126-128 | The charge c for t ticks at weight w is the one with c * w <= 1024 * t < (c + 1) * w. |
| `Cfs.WeightsFall` | code/kernel/schedule/sched_CFS.c:12-21 | Weights fall strictly as the priority number rises, with 1024 at 0. |
| `Cfs.SliceGrows` | code/kernel/schedule/sched_CFS.c:144-156 | Who weighs more gets no shorter slice. |
| `Cfs.SliceCosts` | code/kernel/schedule/sched_CFS.c:144-156 | A whole slice of a runnable process always costs at least 1, whatever the priorities in the queue. |
| `Cfs.Average` | code/kernel/schedule/sched_CFS.c:131-132 | The mean a over n processes and one more is the one with a * (n + 1) <= sum < (a + 1) * (n + 1). |
| `Cfs.NobodyRuns` | code/kernel/schedule/sched_CFS.c:31-48 | With nobody runnable the totals are 0. |
| `Cfs.OneMoreRuns` | code/kernel/schedule/sched_CFS.c:31-48 | A process that becomes runnable adds itself, its weight and its virtual run time to the totals. |
| `Cfs.RunQueue.Turns` | code/kernel/schedule/sched_CFS.c:90-137 | With everybody runnable, virtual run times never lie further apart than at the start or than one full slice costs; with turns that last until the slice is used up, everybody of n processes with times at most d apart is picked within (n - 1) * (d + 1) + 1 turns. |
| `Cfs.NobodyStarves` | code/kernel/schedule/sched_CFS.c:90-137 | If every turn costs at least 1, each of n processes with virtual run times at most d apart is picked within (n - 1) * (d + 1) + 1 turns, whatever the priorities. |
| `Cfs.FullTurnsCharge` | code/kernel/schedule/sched_CFS.c:90-137 | Turns that last until the slice is used up cost at least 1 each. |
| `Cfs.OwedStep` | code/kernel/schedule/sched_CFS.c:123-129 | A charged turn of another process makes what is left to run before a process by at least 1 smaller. |
| `Cfs.TurnSpread` | code/kernel/schedule/sched_CFS.c:123-129 | Charging the least process keeps the spread within that bound. |
| `Cfs.RunInfo` | code/kernel/schedule/sched_CFS.c:31-48 | Counts and sums over the runnable processes of the list. |
| `Timers.TimerList.Add` | code/kernel/kernel/proc.c:1105-1126 | The new timer has its ticks to go, and nobody else's time changes. |
| `Timers.TimerList.Del` | code/kernel/kernel/proc.c:1128-1139 | Only the deleted timer goes; nobody else's time changes. |
| `Timers.TimerList.Tick` | code/kernel/kernel/proc.c:1184-1209 | Exactly the timers whose time has come fire and all others have one tick less; with a timer for at once at the head the count stands still. |
| `Timers.Perform` | code/kernel/kernel/proc.c:1105-1244 | The list acts as a map from timers to deadlines, and the first delta stays positive; what would add a timer for no ticks adds nothing. |
| `Timers.Run` | code/kernel/kernel/proc.c:1105-1244 | Over a run of any length, every timer, on the list at the start or added later, fires at exactly the tick it was set for unless it is deleted before. |
| `Timers.FiresOnTime` | code/kernel/kernel/proc.c:1184-1209 | A timer with t ticks to go fires on exactly the t-th tick, whatever else is added or deleted. |
| `Semaphore.DoKeeps` | code/kernel/syn/sem.c:27-111 | Every step of every process keeps the invariant on locks, queue, wakeups and units. |
| `Semaphore.Conserved` | code/kernel/syn/sem.c:27-111 | In every interleaving initial value + ups = value + downs + granted waiters; nobody waits while there are units; service is first come, first served. |
| `Semaphore.UpGives` | code/kernel/syn/sem.c:27-41 | In every state of the invariant with the locks free, an up that runs alone counts as one up; with nobody waiting it raises the value by 1, otherwise it leaves the value and grants the unit to the first waiter. |
| `Semaphore.UpEnds` | code/kernel/syn/sem.c:27-41 | It then returns with the locks free; a first waiter that was asleep has been woken by then, and nobody else. |
| `Semaphore.TryDownTakes` | code/kernel/syn/sem.c:102-111 | A try_down that runs alone returns without sleeping, and takes a unit exactly when the value is positive. |
| `Semaphore.DownTakes` | code/kernel/syn/sem.c:55-63 | A down that runs alone takes a unit and returns if the value is positive, and otherwise joins the end of the queue and takes nothing. |
| `Semaphore.DownSleeps` | code/kernel/syn/sem.c:64-70 | In the second case it then sleeps, with the lock of the semaphore free. |
| `Semaphore.NoLostWakeup` | code/kernel/kernel/proc.c:508-528 | A served waiter sleeps only while its waker has still to wake it; the assertion on wait_state holds. |
| `Semaphore.WakerNotBlocked` | code/kernel/kernel/proc.c:569-591 | The waker can always take the lock of a process that is asleep. |
| `Semaphore.MarkFacts` | code/kernel/kernel/proc.c:569-591 | Who is made RUNNABLE has gone to sleep by then. |
| `Semaphore.NoDeadlock` | code/kernel/syn/sem.c:27-111 | In every interleaving a process that is not asleep can go on, or the one with the lock of the semaphore can, or the waiter this one is about to wake. |
| `Semaphore.WokenInTime` | code/kernel/kernel/proc.c:569-591 | A served waiter that sleeps is made runnable within two more steps of the one that serves it, whatever the others do in between. |
| `Semaphore.ServedIsWoken` | code/kernel/kernel/proc.c:569-591 | In every run from the start: a served waiter that sleeps is made runnable by the time the process that holds the lock of the semaphore has had two more turns. |
| `Semaphore.Exclusion` | code/kernel/syn/sem.c:95-111 | If only holders give back, at most as many hold a unit as there were at the start: mutual exclusion with one. |
| `Rto.Estimator.Update` | code/kernel/net/tcp_out.c:279-300 | Samples between m and M keep 8m <= srtt <= 8M and rttvar <= max(2M, 4(M - m)), and the timeout between 200 and the larger of 200 and their sum. |
| `Rto.Estimator.Updates` | code/kernel/net/tcp_out.c:279-300 | After any number of samples the timeout lies between 200 and max(200, 5M), and the estimator has not started over. |
| `Rto.Estimator.Steady` | code/kernel/net/tcp_out.c:279-300 | With one constant time, from any state that samples lead to, the smoothed time becomes that time and the timeout settles at most 3 above it. |
| `Rto.Closer` | code/kernel/net/tcp_out.c:283-285 | Every sample brings the smoothed time nearer and not past it; it rests exactly where its eighth is the sample. |
| `Rto.SmoothBounds` | code/kernel/net/tcp_out.c:283-285 | The smoothed time stays between the samples despite rounding. |
| `Rto.Smooth` | code/kernel/net/tcp_out.c:283-285 | 7/8 of the old time and 1/8 of the sample: 8 times the new number lies within 7 above 7 * srtt + 8 * sample. |
| `Rto.Vary` | code/kernel/net/tcp_out.c:286-287 | 3/4 of the old variation and 1/4 of the distance d of the sample: 4 times the new number lies within 3 above 3 * rttvar + 4 * d. |
| `Rto.VaryReaches` | code/kernel/net/tcp_out.c:286-287 | A sample at distance d leaves a variation of at least d, and one farther off leaves more, by as much. |

## Left out

- Shared memory (VM_SHARE) in paging and areas: a second owner of frames.
- Page-table pages and their allocation; get_pte always succeeds here.
- TLB invalidation, the swap daemon as a process of its own, try_free_pages: each paging operation is one atomic step.
- Writes to mappings without write permission and the lookup of the area in do_pagatable_fault: a fault comes with its area.
- Buddy.Buddy.FreePages: one memory zone; what the access behind the end of free_area does.
- Paging.Paging.Fork: the address ranges of the parent are given as one list of pages.
- rb_tree_create running out of memory at the 32nd area; the tree is always built.
- TcpReassembly.Receiver.Run: a segment 2^31 or more positions away from the one reached ends the run, since its sequence number then stands for another position.
- TcpReassembly.Receiver.DataIn: data segments only, without SYN, FIN and the state machine, and without the assertion in line 301 that stops every call.
- The send side of the TCP ring buffer, congestion control and retransmission.
- The list of datagrams under reassembly (lookup, timeout, eviction): one datagram at a time, since fragments of different datagrams never meet.
- IpFrag.FragOut: payloads up to 65535 bytes, more than an IPv4 total length allows; an mtu of at least 28 bytes, since with less no fragment carries anything; header fields other than offset and the flag for more fragments are opaque bytes.
- PktBlocks.AddHeader: a header that is not contiguous and does not fit before the first block needs that block to be full, as the assertion in line 185 of net/pktbuf.c demands.
- Waiting for room in pktbuf_alloc, pktbuf_add_header and pktbuf_resize: there is room when they go on.
- Slab.SlabCache.Alloc: one cache; the slab headers of large objects, kept in another cache, are that cache's objects.
- Cfs.RunQueue.Enqueue: one processor, without load balancing; virtual run times do not wrap around 64 bits.
- The assertion in line 631 of mm/vmm.c that a write fault on a page that is writable by now comes from a second thread: that branch returns 0 here.
- Which locks stay held on the error returns of pktbuf_add_header (line 178) and pktbuf_read (lines 400-401) of net/pktbuf.c: locks are not part of the buffers here.
- Semaphore.WokenInTime: that a woken waiter gets the lock of the semaphore again, which a spin lock does not promise.
- Timed and interruptible semaphores, sem_free and user-level semaphore queues.
- Function timers that reload, and timers for processes: firing is all that is modelled.
- 64-bit overflow of counters and of the retransmission estimates.
- Devices, traps, file systems, sockets, ARP, DNS, routing and printing.
