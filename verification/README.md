# Rigoros in Dafny

A model of the parts of the Rigoros kernel and its image tool where most can go wrong, and proofs about
them for all inputs, all runs and all reachable states: the buddy allocator, the map of dynamic memory and
the page tables built inside it, the slab allocator, the interrupt message protocol with its ring buffer,
and the FAT editing of `edimg`. Check everything with `dafny verify dfyconfig.toml`.

## What is proved

**Buddy allocator** (`BuddyTree`, `BuddyHeap`, `BuddyInfo`, `BitBytes`, `BuddyBlock`). The number of pages
need not be a power of two. The reference is `Canonical`: the bitmaps as a function of the occupied pages
alone (bit *i* of level *k* is set exactly if that block exists, is wholly free, and its parent does not
exist or is not wholly free). `alloc` and `dealloc`, down to the packed bytes and the counts, keep the
bitmaps canonical. It follows that free and live blocks partition the heap, that allocation fails exactly
if no aligned block of the fitting level is wholly free, that it is otherwise best fit, that `used` never
exceeds the pages, and that allocators with the same pages occupied agree byte for byte, whatever they went
through.

**Dynamic memory** (`DynMap`, `PageTables`, `MemoryInit`). The memory map has exactly the pages that lie
wholly inside some usable e820 entry, for any order and overlap of the entries. The page-table walker
writes its tables through virtual addresses that the very same tables translate: in the model each write
goes to the frame that a hardware walk finds at that moment. No write faults, every table is mapped before
it is cleared, and at the end the hardware translates every byte address as the linear search does, and no
other one of the lower half if the first three tables held nothing else. `MemoryInit.InitMemory` joins the pieces from the e820 list to an empty heap behind the tables.

**Slab allocator** (`SlabLayout`, `Slab`, `SlabAllocator`). Free chains inside pages, the doubly linked
list of pages with a free slot, and the counters stay consistent; the allocator is, to its clients, a map
from live pointers to payloads.

**Interrupt messages** (`RingBuffer`, `MessageLoop`). The ring buffer is a bounded sequence, the
`kmain` loop with its locks and handlers a step system over one CPU: no lost wakeup, first in first out, no
handler that waits for a lock, the exact condition for a deadlock, and a bound on the steps until an accepted
message is handled.

**FAT images** (`Fat`, `FatImage`, `FatCodec`). Resizing a chain, with the exact clusters taken and the
exact condition for success; writing, reading and deleting files as operations on a map from names to
contents; the packed table forms and which entries survive them.

### Where the code does not do what one expects

- `BuddyBlockInfo::new` panics on some ordinary sizes. Its last assertion wants the metadata to be
  *smaller* than the pages reserved for it, so it fires when the metadata fills its pages to the last byte
  and stays that long for the smaller heap, for example on 15466 pages (`BuddyInfo.NewPanics`).
  `BuddyInfo.New` states exactly when it succeeds. A machine with 15499 pages of dynamic memory does not boot
  for that reason (`MemoryInit.BootPanics`).
- A chunk that is not a whole number of pages makes the last page of the buddy heap overhang the data area
  (`BuddyInfo.PagesCoverData`); what includes that page can be allocated and not freed, and `left` can
  underflow. A chunk that does not start at a page border can be allocated from, and dealloc never finds the
  block of what alloc returned (`BuddyAllocator.FindsItsOwn`, `BuddyAllocator.BuddyBlock.Accounting`).
- `dealloc` with another length of the same level frees the block and takes the wrong amount off `used`
  (`BuddyAllocator.BuddyBlock.Dealloc`).
- `IrqMutex::lock` of a mutex that is held stops the kernel for good, interrupts included
  (`MessageLoop.SelfLockCause`, `Deadlock`).
- `create_tmp_page` takes the frames at the start of dynamic memory for granted;
  `PageTables.FirstFrames` says exactly when they are the frames of the first three pages.
- The number of table pages that the tests of `kernel/src/memory.rs` (lines 524-530) expect is what the code
  builds if and only if there are between 1 and 261632 pages (`PageTables.ExpectedPages`). The model follows
  the code (`PageTables.TableCount`).
- A FAT12 table holds only 12 bits of an entry and the loader widens reserved values, so the 16-bit entries
  from 0xff7 to 0xfff6, and only those, do not come back (`FatCodec.ReloadTable`).
- `writefile` with the default size and an empty buffer, and `readfile` of a file without clusters, end in
  the error exit; `FatImage.Image.WriteFile` and `ReadFile` state the exact conditions.

## Model

| member | source | states |
|---|---|---|
| BuddyTree.Take | buddyblock/src/lib.rs:215-216 | occupying a maximal free block removes that bit from the canonical bitmaps and changes no other, at any level |
| BuddyTree.BuddyBit | buddyblock/src/lib.rs:257-263 | while a free block is held, its own bit is clear and its buddy's bit says whether the buddy exists and is wholly free, padding bits included |
| BuddyTree.Give | buddyblock/src/lib.rs:260-276 | giving back a held block whose buddy bit is clear adds just its bit to the canonical bitmaps |
| BuddyTree.Merge | buddyblock/src/lib.rs:262-273 | with the buddy bit set, clearing the buddy and holding the parent is canonical; the parent exists and there is a level above, so the break at the top level is unreachable |
| BuddyTree.Split | buddyblock/src/lib.rs:219-223 | holding the left half and setting the bit of the right half of a held block is canonical |
| BuddyHeap.SplitKeepsCanonical | buddyblock/src/lib.rs:218-223 | the whole split loop turns canonical bitmaps with a block held into canonical bitmaps with its leftmost fitting part held |
| BuddyHeap.MergeKeepsCanonical | buddyblock/src/lib.rs:255-277 | the whole merge loop ends in the canonical bitmaps without the block, and along it every block exists and has its bit clear |
| BuddyHeap.AllocBits | buddyblock/src/lib.rs:208-229 | clearing the first bit found and splitting gives the canonical bitmaps of the heap with the new allocation |
| BuddyHeap.DeallocBits | buddyblock/src/lib.rs:250-277 | merging from a live allocation gives the canonical bitmaps of the heap without it |
| BuddyHeap.Freeing | buddyblock/src/lib.rs:235-280 | freeing an allocation leaves a consistent heap in which exactly its block became free |
| BuddyHeap.Completeness | buddyblock/src/lib.rs:196-233 | allocation fails if and only if no block of the fitting level is wholly free |
| BuddyHeap.BestFit | buddyblock/src/lib.rs:208-229 | otherwise it gets a fresh block: the leftmost part of the free block of smallest sufficient level and, there, smallest index |
| BuddyHeap.Partition | buddyblock/src/lib.rs:196-280 | every page is in exactly one live block or exactly one free block |
| BuddyHeap.RangesDisjoint | buddyblock/src/lib.rs:196-280 | the pages of two live allocations do not overlap and lie inside the heap |
| BuddyHeap.TotalBounded | buddyblock/src/lib.rs:138-140 | live allocations together never ask for more pages than there are |
| BuddyHeap.RunSafe | buddyblock/src/lib.rs:196-280 | in every state of every run of allocations and matching frees the heap is consistent |
| BuddyHeap.StepPossible | buddyblock/src/lib.rs:196-280 | in a run any number of pages above 0 can be asked for at any time and exactly the live allocations be freed |
| BuddyHeap.EmptyHeap | buddyblock/src/lib.rs:157-184 | the canonical bitmaps of the empty heap have just the unpaired last block of each odd level |
| BuddyHeap.Fit | buddyblock/src/lib.rs:340-346 | the level chosen is the smallest that holds the pages |
| BuddyInfo.CountLevels | buddyblock/src/lib.rs:79-94 | the sizing loop counts the levels and the bitmap bytes of all of them |
| BuddyInfo.FromChunk | buddyblock/src/lib.rs:76-107 | the info it computes, and exactly when its assertions hold |
| BuddyInfo.New | buddyblock/src/lib.rs:109-122 | it succeeds if and only if the chunk has at least 3 pages and its metadata does not fill its pages exactly; then metadata and data do not overlap |
| BuddyInfo.NewPanics | buddyblock/src/lib.rs:114 | 15466 pages are a chunk on which it panics |
| BuddyInfo.PagesCoverData | buddyblock/src/lib.rs:82 | the pages cover the data area exactly if and only if the chunk is a whole number of pages |
| BitBytes.SetBit | buddyblock/src/lib.rs:303-309 | setting a bit in its byte adds just that index to the bitmap |
| BitBytes.ClearBit | buddyblock/src/lib.rs:311-317 | clearing a bit in its byte removes just that index from the bitmap |
| BitBytes.FirstOne | buddyblock/src/lib.rs:323-337 | the search over bytes and bits finds the smallest index set |
| BitBytes.MaskCases | buddyblock/src/lib.rs:299-317 | the masks are 1, 2, 4, up to 128 |
| BuddyAllocator.BitAt | buddyblock/src/lib.rs:287-301 | block i of a level is marked free exactly if bit i % 8 of byte i / 8 of that level's part of the bitmap area is set |
| BuddyAllocator.SameBits | buddyblock/src/lib.rs:287-297 | the bitmap area is determined, to the byte, by the bits set |
| BuddyAllocator.BitmapIndexForSize | buddyblock/src/lib.rs:340-346 | it finds the fitting level, and the shifted unit stays within 64 bits |
| BuddyAllocator.LayOut | buddyblock/src/lib.rs:157-187 | the levels tile the bitmap area exactly and hold the unpaired blocks, with matching counts |
| BuddyAllocator.MarkUnpaired | buddyblock/src/lib.rs:165-171 | the byte written for an odd level sets just the bit of its last block |
| BuddyAllocator.BuddyBlock.constructor | buddyblock/src/lib.rs:145-193 | from a computed info, for any start and length of the chunk: a valid and empty allocator |
| BuddyAllocator.BuddyBlock.Create | buddyblock/src/lib.rs:142-194 | BuddyBlock::new: a valid, empty allocator, or a panic of BuddyBlockInfo::new, and exactly when |
| BuddyAllocator.BuddyBlock.Get | buddyblock/src/lib.rs:299-301 | reads membership in the bitmap of a level |
| BuddyAllocator.BuddyBlock.Set1 | buddyblock/src/lib.rs:303-309 | adds a block to its level, changes no other level, keeps every count |
| BuddyAllocator.BuddyBlock.Set0 | buddyblock/src/lib.rs:311-317 | removes a block from its level, changes no other level, keeps every count |
| BuddyAllocator.BuddyBlock.First1 | buddyblock/src/lib.rs:323-337 | a level with a nonzero count has a smallest free block, and this is it |
| BuddyAllocator.BuddyBlock.Alloc | buddyblock/src/lib.rs:196-233 | the best fit or None if there is none; exactly that allocation is new, `used` grows by its pages and the bitmaps stay canonical; the bytes returned start at a page of the data area, end inside its pages, and meet neither the metadata nor any other live allocation |
| BuddyAllocator.BuddyBlock.TakeBlock | buddyblock/src/lib.rs:216-223 | clearing the bit found and splitting leaves the canonical bitmaps of the heap with the allocation |
| BuddyAllocator.BuddyBlock.SplitDown | buddyblock/src/lib.rs:218-223 | the split loop on bytes does what SplitBits does on sets |
| BuddyAllocator.BuddyBlock.Locate | buddyblock/src/lib.rs:240-255 | for any address and length: whether the assertions at the head of dealloc hold, and the level, block and length it computes |
| BuddyAllocator.BuddyBlock.Dealloc | buddyblock/src/lib.rs:235-280 | whenever the block it computes is that of a live allocation, whatever length led there: exactly when it panics, and otherwise that allocation goes and no other, the bitmaps stay canonical and `used` falls by the pages named |
| BuddyAllocator.FindsItsOwn | buddyblock/src/lib.rs:227-255 | for the address alloc returned and any length, dealloc finds the block if and only if the chunk starts at a page border, the length fits the same level, and the pages end inside the data area |
| BuddyAllocator.BuddyBlock.MergeUp | buddyblock/src/lib.rs:255-277 | the merge loop on bytes does what MergeBits does on sets; the assertion in it holds every time |
| BuddyAllocator.BuddyBlock.Accounting | buddyblock/src/lib.rs:138-140 | `left` underflows if and only if every page is in use and the last page overhangs the data area |
| BuddyAllocator.SameLiveSameState | buddyblock/src/lib.rs:142-280 | same occupied pages, same bitmap bytes and counts, whatever lengths were asked for; same live allocations, same `used` |
| BuddyAllocator.EmptyAgain | buddyblock/src/lib.rs:157-280 | with nothing live, whatever happened before, `used` is 0 and every level holds just its unpaired last block, as at the start |
| Ring.RingBuffer.constructor | kernel/src/ring_buffer.rs:17-24 | a new buffer is empty |
| Ring.RingBuffer.Len | kernel/src/ring_buffer.rs:26-34 | the length of the sequence |
| Ring.RingBuffer.WrapIndex | kernel/src/ring_buffer.rs:48-57 | the slot of a logical index, or None past the end |
| Ring.RingBuffer.Get | kernel/src/ring_buffer.rs:40-42 | the element at an index, or None |
| Ring.RingBuffer.Put | kernel/src/ring_buffer.rs:169-173 | writing at an index changes that element only |
| Ring.RingBuffer.TryPeek | kernel/src/ring_buffer.rs:59-65 | the first element, or None |
| Ring.RingBuffer.TryPush | kernel/src/ring_buffer.rs:71-85 | appends, or refuses exactly when full |
| Ring.RingBuffer.PushForce | kernel/src/ring_buffer.rs:91-112 | the contents get the element at their end and lose their first one exactly when full |
| Ring.RingBuffer.InsertForce | kernel/src/ring_buffer.rs:114-136 | not full: inserted at pos; full: the oldest goes, the elements up to pos move down by one and the new one is at pos, or at the end if pos was the length |
| Ring.RingBuffer.ShiftUp | kernel/src/ring_buffer.rs:124-126 | the loop that opens a gap is right across the wrap-around |
| Ring.RingBuffer.ShiftDown | kernel/src/ring_buffer.rs:130-132 | the loop that closes a gap is right across the wrap-around |
| Ring.RingBuffer.TryPop | kernel/src/ring_buffer.rs:138-154 | removes and returns the first element, or None when empty |
| MessageLoop.StepKeeps | kernel/src/lib.rs:64-81 | every step of the loop, of a guard and of a handler keeps the invariant on flag, locks, loop and queue |
| MessageLoop.RunInv | kernel/src/lib.rs:64-81 | the invariant holds in every state of every interleaving |
| MessageLoop.NoSelfDeadlock | kernel/src/irq_mutex.rs:47-78 | a held lock implies interrupts are off, and a handler never finds the queue's lock taken |
| MessageLoop.NoLostWakeup | kernel/src/lib.rs:65-80 | the CPU is never halted with a message waiting |
| MessageLoop.Fifo | kernel/src/interrupt_queue.rs:21-30 | messages are handled in the order accepted; the rest is in hand or waiting |
| MessageLoop.DropsOnlyWhenFull | kernel/src/interrupt_queue.rs:21-26 | a push drops its message if and only if 4096 are waiting, and otherwise accepts it |
| MessageLoop.Starts | kernel/src/lib.rs:55-64 | a run may start with any queue of up to 4096 messages |
| MessageLoop.InterruptPossible | kernel/src/lib.rs:64-81 | an interrupt can be taken if and only if the flag is set, whatever the loop and its guards are at; the handler has its message and the main context is as before |
| MessageLoop.LockPossible | kernel/src/irq_mutex.rs:47-68 | code that handles a message can lock any mutex, also under other guards, exactly when its innermost guard holds its lock |
| MessageLoop.WaitingGuard | kernel/src/irq_mutex.rs:47-68 | a waiting guard gets a free lock; a try_lock gives up if and only if the lock is taken |
| MessageLoop.Arrivals | kernel/src/interrupt_queue.rs:21-30 | as long as no push finds 4096 waiting, the messages that interrupts brought are, in order and without loss or repetition, those handled, in hand, waiting and in flight |
| MessageLoop.RestoreOutermost | kernel/src/irq_mutex.rs:32-38 | dropping a guard sets the flag if and only if it is the outermost and the loop runs with interrupts on |
| MessageLoop.SelfLockCause | kernel/src/irq_mutex.rs:47-54 | the main context comes to spin on what it holds exactly by a `lock` of a mutex it holds |
| MessageLoop.Progress | kernel/src/irq_mutex.rs:19-78 | some step other than an interrupt is possible if and only if the CPU is not halted and the main context does not spin on what it holds |
| MessageLoop.Deadlock | kernel/src/irq_mutex.rs:47-78 | no step at all is possible, not even an interrupt, if and only if the main context spins on what it holds |
| MessageLoop.DistanceStep | kernel/src/lib.rs:64-81 | while an accepted message is not handled, every step but an interrupt and a further lock brings it nearer by at least one |
| MessageLoop.Reached | kernel/src/lib.rs:64-81 | in every run an accepted message is handled within 10 steps for each message up to it, 14 for what is under way, 3 for each guard, 6 for each interrupt and 4 for each lock on the way |
| MessageLoop.IntmsgPush | kernel/src/interrupt_queue.rs:21-26 | on the ring buffer, a push is the enqueue of the step system |
| MessageLoop.IntmsgPop | kernel/src/interrupt_queue.rs:28-30 | on the ring buffer, a pop is the dequeue of the step system |
| DynMap.SliceRemove | kernel/src/memory.rs:469-482 | keeps the elements not removed, in order, at the front, by permuting the slice |
| DynMap.SortByBase | kernel/src/memory.rs:124 | some permutation sorted by base |
| DynMap.NormaliseInPlace | kernel/src/memory.rs:126-144 | the loop over the sorted entries computes Normalised |
| DynMap.CreateDynmemMap | kernel/src/memory.rs:120-147 | the map is page-aligned, increasing and disjoint, and has exactly the pages above the start that lie inside one usable entry |
| DynMap.RunsExact | kernel/src/memory.rs:126-146 | the runs of a sorted list hold exactly the pages not yet taken that some usable entry holds |
| DynMap.RunsWellFormed | kernel/src/memory.rs:126-146 | the runs are aligned, nonempty, increasing and disjoint |
| DynMap.VirtToPhys | kernel/src/memory.rs:280-295 | the scan with its running sum finds PhysAt, or panics exactly where that is None |
| DynMap.PhysToVirt | kernel/src/memory.rs:297-309 | the scan finds OffsetOf, or panics exactly where that is None |
| DynMap.PhysAtRun | kernel/src/memory.rs:280-295 | offset d into run i, counted behind the runs before it, is physical address base + d |
| DynMap.PhysAtInverse | kernel/src/memory.rs:280-309 | every offset below the total length, and no other, has a physical address, and it leads back |
| DynMap.OffsetOfInverse | kernel/src/memory.rs:297-309 | every address in a run, and no other, has an offset, and it leads back |
| DynMap.PhysAtIncreases | kernel/src/memory.rs:280-295 | translation keeps the order of addresses |
| DynMap.WholePage | kernel/src/memory.rs:280-295 | a virtual page is one aligned physical page |
| PageTables.WalkMapped | kernel/src/memory.rs:206-227 | at every step of the construction, a hardware walk finds the frame of every page mapped so far |
| PageTables.WalkExact | kernel/src/memory.rs:206-227 | with nothing else in the first tables, a walk finds a frame for the pages mapped so far and for no other page of the lower half |
| PageTables.WithTableOnly | kernel/src/memory.rs:261-268 | a fresh table brings no entry that was not set |
| PageTables.WithEntryOnly | kernel/src/memory.rs:274-276 | setting an entry brings no other one |
| PageTables.WithTableGood | kernel/src/memory.rs:261-268 | starting a fresh table keeps all earlier entries, and its page is already mapped when it is cleared |
| PageTables.WithEntryGood | kernel/src/memory.rs:274-276 | setting the entry that is due keeps all earlier entries and links the fresh table below |
| PageTables.RoomForTables | kernel/src/memory.rs:261-268 | when a page table is full, enough pages are mapped for all tables the next step can need |
| PageTables.FirstFrames | kernel/src/memory.rs:171-200 | the frames create_tmp_page takes are those of the first three pages if and only if the map has them |
| PageTables.TableCount | kernel/src/memory.rs:245-247 | the number of table pages, from the number of pages mapped |
| PageTables.ExpectedPages | kernel/src/memory.rs:524-530 | the number of table pages the tests expect is the number built if and only if there are between 1 and 511 * 512 pages |
| PageTables.CountCap | kernel/src/memory.rs:258-277 | at every step no level has more entries than 256 root entries lead to |
| PageTables.OutOfBound | kernel/src/memory.rs:258-272 | the tables are full at every level, up to 256 entries of the root, if and only if all pages the lower half of the root covers are mapped |
| PageTables.HeapWriteKeepsTables | kernel/src/memory.rs:334-341 | for every content of memory that differs only behind the tables, the tables are in order and every page stays mapped as it was |
| PageTables.PageInitWalker.constructor | kernel/src/memory.rs:230-243 | the walker starts valid on what create_tmp_page leaves |
| PageTables.PageInitWalker.FreshTable | kernel/src/memory.rs:262-268 | clears the next page through its virtual address, without a fault, and makes it the current table |
| PageTables.PageInitWalker.SetEntry | kernel/src/memory.rs:274-276 | writes the entry that is due through the virtual address of its table, without a fault |
| PageTables.PageInitWalker.Rollover | kernel/src/memory.rs:261-272 | a full table is followed by a fresh one that the level above points to, recursively; it panics exactly at the bound of the level |
| PageTables.PageInitWalker.NextSetRecur | kernel/src/memory.rs:258-277 | sets the entry that is due at a level, across any rollover; the assertion at the root fails if and only if the level is at its bound |
| PageTables.PageInitWalker.NextSet | kernel/src/memory.rs:249-256 | maps the next page, the first three being skipped; it panics exactly on a page the root has no room for |
| PageTables.PageInitWalker.MapRun | kernel/src/memory.rs:215-220 | maps the pages of one run in order; it panics if and only if the root has no room for one of them |
| PageTables.PageInitWalker.CreateDynPage | kernel/src/memory.rs:206-227 | the hardware translates every byte address of dynamic memory as the linear search does, and, if the first tables were empty otherwise, no other address of the lower half; both lengths are exact; it panics if and only if there are more pages than the root has room for |
| MemoryInit.InitDynPage | kernel/src/memory.rs:149-163 | the page tables of the whole map, from the state create_tmp_page leaves, with the translation of every byte address, or a panic of the walker, and exactly when |
| MemoryInit.BootPanics | kernel/src/memory.rs:334-343 | 15499 pages of dynamic memory are an amount on which init_memory panics |
| MemoryInit.InitDynAlloc | kernel/src/memory.rs:334-343 | an empty heap behind the tables, or a panic, and exactly when |
| MemoryInit.InitMemory | kernel/src/memory.rs:107-114 | from the e820 list: exactly the offered pages are mapped, the hardware translates every byte of dynamic memory as the search does, the heap is valid, starts right behind the tables, ends with the memory, and every byte of it is mapped; and exactly when it panics |
| SlabLayout.AlignCeil | slab_alloc/src/lib.rs:58-61 | the result is not below its argument and less than one alignment above it |
| SlabLayout.AlignCeilMultiple | slab_alloc/src/lib.rs:58-61 | the result is a multiple of the alignment |
| SlabLayout.Layout.Tiling | slab_alloc/src/lib.rs:63-86 | a 4-byte header, redzones of at least 16 bytes and no longer than alignment asks, and the payload tile a slot; the slots start right behind the 24-byte page header, up to alignment |
| SlabLayout.Layout.SlotsDisjoint | slab_alloc/src/lib.rs:221-246 | slots of a page do not overlap |
| SlabLayout.Layout.OffsetAt | slab_alloc/src/lib.rs:231-246 | every slot lies inside the page, one slot size behind the other |
| SlabLayout.Layout.PayloadAligned | slab_alloc/src/lib.rs:75-86 | every payload is aligned as its type asks, for every accepted size and alignment |
| SlabLayout.PageOfSlot | slab_alloc/src/lib.rs:149-152 | masking the address of a slot recovers its page |
| Slab.InitSlots | slab_alloc/src/lib.rs:221-246 | the slots built are free, undamaged and chained in order |
| Slab.OffsetsNext | slab_alloc/src/lib.rs:239-245 | another slot follows, one slot size further, exactly if at least one byte of the page is left behind it |
| Slab.SlotBytes | slab_alloc/src/lib.rs:88-119 | header, redzones of 0xf1 and payload of an undamaged slot have the sizes of the layout and make up the slot; a free payload is all 0xf2 |
| Slab.TakeSlot | slab_alloc/src/lib.rs:251-272 | popping and starting a slot: the checks of on_alloc hold, the chain loses its head, full is reported exactly for the last free slot |
| Slab.GiveSlot | slab_alloc/src/lib.rs:275-281 | ending and pushing a live slot: the checks of on_dealloc hold, the chain gains a head |
| Slab.DoubleFreeCaught | slab_alloc/src/lib.rs:141-143 | on an undamaged page the check of on_dealloc passes exactly for the slots in use |
| Slab.UnlinkedOk | slab_alloc/src/lib.rs:192-207 | removal from any place leaves a well-formed doubly linked list without that page |
| Slab.AppendedOk | slab_alloc/src/lib.rs:179-189 | push_back leaves a well-formed doubly linked list with the page at its end |
| Slab.ContentsChange | slab_alloc/src/lib.rs:294-345 | a change in one slot changes one live object and no other |
| SlabAllocation.SlabAllocator.constructor | slab_alloc/src/lib.rs:285-292 | a new allocator is valid and has no object |
| SlabAllocation.SlabAllocator.Remove | slab_alloc/src/lib.rs:192-207 | the list loses the page, and only links change |
| SlabAllocation.SlabAllocator.PushBack | slab_alloc/src/lib.rs:179-189 | the list gains the page at its end, and only links change |
| SlabAllocation.SlabAllocator.AllocPage | slab_alloc/src/lib.rs:312-320 | a page from the source becomes the list, and no object changes |
| SlabAllocation.SlabAllocator.PopFirst | slab_alloc/src/lib.rs:299-304 | the first page gives its first free slot and leaves the list exactly if that was its last |
| SlabAllocation.SlabAllocator.TakeFirst | slab_alloc/src/lib.rs:299-309 | one new object, aligned, zeroed, at a pointer that was not live |
| SlabAllocation.SlabAllocator.Alloc | slab_alloc/src/lib.rs:294-310 | None if and only if the source refuses while every owned page is full; otherwise one new zeroed object |
| SlabAllocation.SlabAllocator.GiveBack | slab_alloc/src/lib.rs:324-333 | no check fails on a live pointer; its slot goes to the head of its page's chain |
| SlabAllocation.SlabAllocator.Relist | slab_alloc/src/lib.rs:335-343 | the list after a free: without a released page, with one that was full |
| SlabAllocation.SlabAllocator.Retire | slab_alloc/src/lib.rs:339 | releasing an empty page changes no object |
| SlabAllocation.SlabAllocator.Dealloc | slab_alloc/src/lib.rs:323-345 | exactly that object goes; the page is released if and only if it was its last |
| SlabAllocation.SlabAllocator.ClientWrite | slab_alloc/src/lib.rs:128-131 | writing inside a live payload keeps the allocator valid and changes that object only |
| SlabAllocation.ObjectPlace | slab_alloc/src/lib.rs:128-131 | a live pointer is behind the header and redzone of a slot of an owned page, and a redzone follows its payload in the same slot |
| SlabAllocation.ObjectsDisjoint | slab_alloc/src/lib.rs:221-246 | between the payloads of two live pointers lie two redzones and a slot header |
| Fat.FreeCluster | tools/edimg/edimg.c:1071-1080 | the first free cluster from a number on, none before it being free, or the full error exactly if there is none |
| Fat.FreeFromExact | tools/edimg/edimg.c:1071-1080 | the free clusters from a number on are all of them, in increasing order |
| Fat.FreeChain | tools/edimg/edimg.c:1089-1095 | frees the clusters of the chain and no other |
| Fat.GrowStep | tools/edimg/edimg.c:1114-1118 | taking the next free cluster keeps the chain, the unused free clusters and every other entry |
| Fat.Walk | tools/edimg/edimg.c:1102-1120 | the loop that shortens or lengthens a nonempty chain |
| Fat.ResizeFile | tools/edimg/edimg.c:1082-1121 | succeeds if and only if enough clusters are free from alloc0 on; the chain keeps its beginning and takes the first free clusters, a chain that changed ends in 0xffff, what it drops is zeroed, no other entry changes |
| Fat.GrowsIntoData | tools/edimg/edimg.c:1071-1121 | what a file becomes stays among the data clusters if and only if it does not grow or no reserved entry from alloc0 on is zero |
| FatImage.WriteCluster | tools/edimg/edimg.c:1223-1233 | byte for byte, cluster j at (j - 2) * size gets its part of the buffer and then zeros, no other byte changes |
| FatImage.WriteChain | tools/edimg/edimg.c:1215-1236 | the chain holds the buffer, other clusters are unchanged; it fails exactly if the chain is empty or too short |
| FatImage.ReadChain | tools/edimg/edimg.c:1029-1045 | reads the bytes of the file off its chain; it fails exactly if there is no cluster |
| FatImage.OtherChain | tools/edimg/edimg.c:1082-1121 | resizing one file leaves the chain of every other file unchanged and apart |
| FatImage.Stored | tools/edimg/edimg.c:1032-1045 | byte i of a file is byte i % size of cluster number i / size of its chain, cluster 2 being the first in the data area |
| FatImage.Image.ReadFile | tools/edimg/edimg.c:1017-1045 | the contents of the file, byte for byte off the clusters of its chain, and exactly when it fails |
| FatImage.NeededClusters | tools/edimg/edimg.c:1179-1180 | the default number of clusters holds the buffer and one less does not |
| FatImage.Image.WriteFile | tools/edimg/edimg.c:1178-1237 | afterwards the buffer is, byte for byte, on the clusters of the chain, which are as many as asked for or as few as hold it, and every other file has its old contents; and exactly when it fails |
| FatImage.Image.DeleteFile | tools/edimg/edimg.c:1339-1353 | the file is gone, its clusters are zero, every other file and entry is unchanged |
| FatCodec.Load12 | tools/edimg/edimg.c:1551-1563 | every entry is the FAT12 entry of the specification, reserved values widened |
| FatCodec.Store12 | tools/edimg/edimg.c:1627-1640 | every entry that fits reads back cut to 12 bits; nothing else changes |
| FatCodec.EvenEntry | tools/edimg/edimg.c:1551-1563 | an even entry is a byte and the low half of the next |
| FatCodec.OddEntry | tools/edimg/edimg.c:1551-1563 | an odd entry is the high half of a byte and the next byte |
| FatCodec.SameTable | tools/edimg/edimg.c:1627-1640 | a table is determined by its entries and what belongs to none |
| FatCodec.RepackTable | tools/edimg/edimg.c:1551-1563 | unpacking then packing restores the bytes |
| FatCodec.ReloadTable | tools/edimg/edimg.c:1627-1640 | packing then unpacking restores an entry if and only if it is below 0xff7 or at least 0xfff7 |
| FatCodec.ExpandCut | tools/edimg/edimg.c:1555-1558 | which 16-bit values survive 12 bits |
| FatCodec.EncodeEfat | tools/edimg/edimg.c:709-718 | entry i becomes 0xfffe exactly if it was i + 1, others stay; error exactly if a 0xfffe is in use |
| FatCodec.DecodeEfat | tools/edimg/edimg.c:1540-1547 | a 0xfffe at entry i becomes i + 1, others stay |
| FatCodec.EfatRoundTrip | tools/edimg/edimg.c:709-718 | decoding undoes encoding whenever encoding does not fail |

## Left out

- BuddyAllocator.BuddyBlock.Dealloc: says nothing of calls that pass the assertions and compute a block that is not one of a live allocation.
- BuddyAllocator.BuddyBlock.Alloc: asks for a length above 0, on which the source asserts, and up to 2^63, above which its shift leaves 64 bits.
- BuddyAllocator.BuddyBlock.Create: asks for a chunk of at most 2^63 bytes.
- Ring.RingBuffer.Put: asks for an index inside the contents; the source panics otherwise.
- Ring.RingBuffer.InsertForce: asks for a position up to the length; the source panics otherwise.
- DynMap.CreateDynmemMap: asks that the list fits the buffer, as the copy in the source does, and that no sum leaves 64 bits.
- DynMap.VirtToPhys: asks for an address at or above the start of dynamic memory; below it the subtraction in the source leaves its type.
- PageTables.PageInitWalker.CreateDynPage: that nothing else is mapped rests on empty first tables (`CleanTmp`), because the source never clears those three.
- BuddyAllocator.BuddyBlock.constructor: the bitmap area is an array of its own; where the metadata lies inside the chunk is not modelled beyond its length.
- MemoryInit.InitMemory: starts from what `create_tmp_page` leaves (`TmpState`) and asks that the e820 list offers the first three pages.
- Fat.ResizeFile: asks, for a file that grows, that no reserved entry from alloc0 on is zero, as in any formatted image; `Fat.GrowsIntoData` shows that there is no chain otherwise.
- FatImage.Image.WriteFile: the state after an error is not described, because the program ends there.
- Bit masks and shifts on addresses and sizes are written as division and multiplication; only the bytes of bitmaps are bit vectors.
- Machine words: sizes are unbounded except where a contract bounds them (`MAX_LEN`, `NoWrap`, `Cap`).
- `create_tmp_page` itself: a temporary recursive mapping through raw pointers.
- Raw memory aliasing, TLB and caches: slab pages are records in a map from addresses, page tables are frames in a map.
- The page source of the slab allocator, device input and host files are parameters.
- Directory layout, attributes, times and paths of `edimg`: a directory is a map from names to entries.
- `ovrwritefile`, `exe2bin`, the compression formats and the script language of `edimg`.
- MessageLoop.Reached: counts locks and interrupts and takes the code that handles a message for one step; how often that code locks and how often devices interrupt is not bounded.
- Terminal, shell, keyboard decoding, GDT, IDT, PIC, PIT, serial, context switch and boot code.
