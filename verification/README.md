# KoalemOS memory subsystem: a verified model

KoalemOS is a small x86-64 kernel for several processors. This project models the parts of it that are hardest to
get right and proves what they keep:

- **Page tables** (`PageTables`, `EntryWords`, `RecursiveWindow`, `KernelPaging`, `LargePages`, `VirtMapping`):
  `map_page`, `unmap_page` and `unmap_page_fix_size` edit a four-level tree of tables only through the recursive slot
  of the root. Every access goes through the processor's walk of the tables being edited. The result is a finite map
  from pages to frames, and each call is an update of that map.
- **The boot loader's mapper** (`BootPaging`): the same update in three page sizes, with allocation failures.
- **TLB shootdown** (`Shootdown`, `Spinlock`, `LockOrder`): any number of processors, one access to shared memory a
  step, TLBs that fill and evict at will, the inter-processor call round and the start-up barrier; and the order in
  which all memory entry points take their mutexes.
- **The kernel heap** (`HeapSpec`, `HeapList`, `Heap`, `HeapCheck`): blocks with headers in the memory they manage.
  The class follows the links as the kernel does and is proved to compute functions on a list of blocks; what those
  functions keep is proved separately, for every run. `HeapCheck` is the kernel's own consistency check.
- **Page ranges** (`Mmap`, `PhysInit`, `VirtMap`): the array of free ranges, its set-up from the firmware's memory
  map while page tables already take frames from it, and its growth and reduction for virtual memory.
- **The glyph cache** (`GlyphCache`): 100 entries with request numbers.
- **The C library's routines with real loops** (`LibcString`, `Strstr`, `Strtol`, `Qsort`).

`Wrappers`, `Pages`, `CString` and `Facts` hold what several of these share.

`dafny verify dfyconfig.toml` checks everything. The page-table modules follow section 4.5, and the shootdown
section 4.10.5, of the Intel SDM, volume 3A; the library modules are compared with sections 7.22.1.4, 7.22.5.2,
7.24.2.2 and 7.24.5.7 of ISO/IEC 9899:2011.

## Where the code does not do what it is for

The code is modelled as it is. Where a promised property fails, the condition under which it holds is proved exactly:

- `krealloc` that shrinks a block with a free successor moves the successor's header down but keeps the block's own
  size, so the list always has an overlap afterwards; `krealloc` that grows into a free successor forgets the block's
  own size, so it keeps the tiling only if that was 0 (`HeapSpec.ResizeKeepsValidIff`). One `kmalloc(100)` and a
  resize to 50 or to 200 bytes show either (`HeapSpec.ShrinkHarmIsReachable`, `HeapSpec.GrowHarmIsReachable`).
- `kfree`'s tail trim writes the size 2^64 - 16 when the free tail starts 16 bytes before a page boundary and
  reaches over more than the page behind it (`HeapSpec.FreeKeepsValidIff`); a run of six ordinary calls leads there
  (`HeapSpec.UnderflowIsReachable`), and `heap_consistency_check` adds modulo 2^64 and accepts the result
  (`HeapCheck.UnderflowPasses`). For the same reason it may walk in a circle: it ends exactly when the chain of
  accepted `next` links has no cycle (`HeapCheck.EndsIff`).
- `kmalloc` and `krealloc` grant requests in full exactly up to 2^64 - 48 bytes (`HeapSpec.GrantedInFullIff`,
  `HeapSpec.ResizedInFullIff`): for the 32 next larger ones the sum with the header wraps, one page is taken and its
  header overwritten, so that the list is lost (`HeapList.UndercutIsNoList`); still larger ones are rounded to 0.
- `map_page` with CR0.WP set faults when it adds flags to an entry below a read-only one
  (`KernelPaging.StoresAllowedExactly`); a second read-only mapping in the same 2 MiB does so when the first one had to
  add the page directory or found a read-only entry on its way (`KernelPaging.SecondReadOnlyMappingFaults`). So
  `unmap_page_fix_size` faults while it splits a read-only 1 GiB page, and a read-only 2 MiB page below a read-only
  entry, but splits a read-only 2 MiB page below writable ones (`LargePages.UnmapPageFixSize`).
- `unmap_page_fix_size` takes bit 12 of a large entry, a caching bit, for part of the address
  (`LargePages.DemotionPreservesView`), so with that bit set pages change frames (`LargePages.CachingBitMovesPages`).
- The boot loader's NEXT_STRUCT keeps bits 48 to 63 of an entry in the address of the next table, so it follows
  exactly entries that have these bits clear (`EntryWords.NextStructIff`).
- `create_virt_mapping` and `delete_virt_mapping` map and unmap one page too many; deleting a mapping unmaps the first
  page of the one made right after it (`VirtMapping.DeleteReachesNeighbour`).
- `free_virt_pages` retries without end from an empty array (`VirtMap.RetrySucceedsIff`).
- `strstr` goes on behind a partial match; it finds every first occurrence exactly of needles that repeat themselves
  from each recurrence of their first character on (`Strstr.FindsFirstIffRepeats`).
- `strtol` reports numbers close to the limits as out of range although they fit, and after an overflow `str_end`
  may point past the terminator (`Strtol.AcceptedRange`, `Strtol.EndAfterOverflow`).
- `qsort` does not scale indices by the element size: it sorts exactly arrays of one-byte elements and arrays of
  fewer than two elements (`Qsort.SortsIffOneByte`).
- The glyph cache is least-recently-used in all runs of fewer than 2^31 requests, and in no longer ones: request 2^31
  may replace the character asked for just before it (`GlyphCache.ExactIff`).

## Model

| member | source | states |
|---|---|---|
| EntryWords.EntryLossless | include/common/paging.h:4-16 | taking an entry apart into fields loses nothing: different words are different entries |
| EntryWords.OrIsRaise | src/kernel/memory.c:206-207 | or-ing flags into a present entry adds the flags to its fields and leaves its frame |
| EntryWords.OrWriteIsRaiseWrite | src/kernel/memory.c:261-265 | or-ing READ_WRITE into an entry sets the write permission and nothing else, present or not |
| EntryWords.OrIsPointer | src/kernel/memory.c:266 | the address of a frame or-ed with PRESENT and flags is the entry that points to that frame with those flags |
| EntryWords.ZeroWord | src/kernel/memory.c:288 | the word 0 that unmapping writes is the entry nothing is mapped by |
| EntryWords.NextStructIff | src/boot/paging.c:10 | the boot loader's mask gives the address of the next table iff bits 48 to 63 of the entry are clear |
| PageTables.WriteKeepsTables | src/kernel/memory.c:202-275 | in a tree of distinct tables a write to one entry moves only the tables below that entry |
| PageTables.WriteKeepsPages | src/kernel/memory.c:202-275 | ... and changes only the pages whose walk reads that entry |
| RecursiveWindow.EntryAddrReachesEntry | src/kernel/memory.c:194-197 | walking the self-mapped tables on the address a macro computes for `v` lands on exactly the slot of `v`'s entry of that level |
| RecursiveWindow.EntryAddrsDistinct | src/kernel/memory.c:194-197 | entries at different places have different addresses |
| RecursiveWindow.PteSlot | src/kernel/memory.c:197 | the walk that reaches a page table entry, and its write permission: that of the three entries above it |
| KernelPaging.AddressSpace.MapPage | src/kernel/memory.c:202-275 | `map_page`: faults iff CR0.WP is set and a flag store has a read-only entry above it, else panics iff frames for the missing tables run out; either way every mapping is as before; otherwise maps that page and no other, adds no table but those on its path, keeps a tree of distinct, fresh tables, and restores the raised write permissions |
| KernelPaging.AddressSpace.UnmapPage | src/kernel/memory.c:278-297 | `unmap_page`: removes that page and no other, and ends with no entry changed but the leaf |
| KernelPaging.AddressSpace.ProvidePdpt | src/kernel/memory.c:206-220 | a present PML4 entry gets the flags, a missing one a zeroed table of the allocator's next frame, or the call ends there if there is none |
| KernelPaging.AddressSpace.ProvidePd | src/kernel/memory.c:221-238 | the same one level down, with the PML4 entry back to its old value; under CR0.WP it faults iff the entry is present and the one above is read-only |
| KernelPaging.AddressSpace.ProvidePt | src/kernel/memory.c:239-258 | the same another level down, with both entries above back to their old values; under CR0.WP it faults iff the entry is present and one of the two above is read-only |
| KernelPaging.ProvidedKeepsTree | src/kernel/memory.c:206-258 | providing a table keeps the tree, its distance from the free frames, and every mapping |
| KernelPaging.MappedOnlyIsMapUpdate | src/kernel/memory.c:202-297 | seen as a map from pages to frames, either call changes one page |
| KernelPaging.MapThenUnmap | src/kernel/memory.c:202-297 | mapping and unmapping a page restores every mapping exactly if the page was unmapped before |
| KernelPaging.StoresAllowedExactly | src/kernel/memory.c:221-240 | which calls store through a read-only entry: those that find lower entries present below one and bring no write flag |
| KernelPaging.SecondReadOnlyMappingFaults | src/kernel/memory.c:202-275 | after one read-only mapping another in the same 2 MiB is such a call iff the first had to add the page directory or found a read-only entry above it |
| LargePages.UnmapPageFixSize | src/kernel/memory.c:299-328 | a 1 GiB or 2 MiB page is replaced by 4 KiB pages that cover it, less the one removed; all other pages resolve as before; it faults iff, under CR0.WP, a 1 GiB page is read-only, or a 2 MiB page and one of the two entries above it are, and the frames last until that store; it panics iff they do not last until then, or for the 513, 1 or 0 tables that are needed, and else takes exactly so many |
| LargePages.KeptFlagsOf | src/kernel/memory.c:301-312 | on words: `& 0x3E` leaves the write permission and bits 2 to 5 |
| LargePages.SplitKeepsFlags | src/kernel/memory.c:308-324 | every other page of a split large page ends with the word made of its own frame's address, PRESENT and bits 1 to 5 of the large entry |
| LargePages.DemotionPreservesView | src/kernel/memory.c:299-328 | every page but the removed one keeps its frame iff the large entry's frame number is aligned to its size |
| LargePages.CachingBitMovesPages | src/kernel/memory.c:312-324 | a 2 MiB entry with bit 12 set, of which a page shows frame 1 before and frame 2 after |
| LargePages.ClearGig | src/kernel/memory.c:302-305 | clearing a large entry unmaps exactly its pages and keeps the tree |
| VirtMapping.Mappings.CreateVirtMapping | src/kernel/memory.c:330-341 | takes the pages the bytes touch from the free ranges and maps one more page than that; 0 without effect if there is no range |
| VirtMapping.Mappings.DeleteVirtMapping | src/kernel/memory.c:343-350 | unmaps one page more than the bytes touch, and returns that many pages iff they fit or the array may grow |
| VirtMapping.CreateKeepsOthersIff | src/kernel/memory.c:337-339 | creating leaves all other pages alone iff the page behind is already mapped to the next frame |
| VirtMapping.DeleteKeepsOthersIff | src/kernel/memory.c:346-348 | deleting leaves all other pages alone iff the page behind is not mapped |
| VirtMapping.DeleteReachesNeighbour | src/kernel/memory.c:330-350 | of two mappings carved in a row from one range, deleting the first unmaps the second's first page |
| VirtMapping.CreateChangesTables | src/kernel/memory.c:337-339 | calls of `map_page` over the pages of the loop take tables that represent the map before to tables that represent it after |
| VirtMapping.DeleteChangesTables | src/kernel/memory.c:346-348 | the same for calls of `unmap_page` |
| VirtMapping.AddressesDiffer | include/common/paging.h:18-21 | different pages have different canonical addresses |
| VirtMapping.AddressDigits | include/common/paging.h:18-21 | the indices of a page are the digits of its address, and the top 16 bits repeat bit 47 |
| VirtMapping.PageCountIs | src/kernel/memory.c:331-332 | the pages counted are exactly those that share a byte with the range |
| VirtMapping.CreatedTranslates | src/kernel/memory.c:337-340 | through a new mapping the byte k behind the returned address is the byte k of the physical range |
| VirtMapping.DeleteReturnsWhatCreateTook | src/kernel/memory.c:330-350 | deleting with the returned address and the same size names the pages that were taken |
| BootPaging.BootTables.AddPageMapping | src/boot/paging.c:12-67 | for each size: fails iff frames run out, then with every mapping as before; otherwise maps exactly the pages of that size, writable on the whole walk, and keeps the tree |
| BootPaging.LargeLeafWord | src/boot/paging.c:29-47 | on words: address, PAGE_SIZE, READ_WRITE and PRESENT make the leaf entry of a large page |
| BootPaging.SmallLeafWord | src/boot/paging.c:23-64 | ... and without PAGE_SIZE that of a small page, or of a new table |
| BootPaging.LeafReplaces | src/boot/paging.c:28-29 | writing a leaf of any size over an entry drops what was below it and changes no other page |
| BootPaging.MappedAsIsMapUpdate | src/boot/paging.c:12-67 | in pages: an aligned mapping gives each page its own frame in order, and leaves all others |
| BootPaging.MakePml4 | src/boot/boot.c:109-113 | the new root is a tree with the self-map, and every other page resolves as in the firmware's tables |
| BootPaging.MapPhysicalMemory | src/boot/boot.c:153-158 | the loop maps the first 64 GiB at PMAP_LINADDR in order, writable, and nothing else, or stops with every mapping as before |
| BootPaging.PhysToVirtTranslates | src/boot/boot.c:153-158 | afterwards PHYS_TO_VIRT(p) translates to p for every p below 64 GiB |
| BootPaging.KernelMappingsKept | src/boot/boot.c:153-158 | ... and addresses from KERNEL_LINADDR on translate as before |
| Shootdown.TlbCoherence | src/kernel/memory.c:186-191 | in every run of n processors a TLB entry that differs from the tables is for the page being updated, on a processor that has not invalidated yet |
| Shootdown.NoStaleEntryOnReturn | src/kernel/memory.c:271-297 | when `map_page` or `unmap_page` is about to return, no processor holds a stale entry of any page |
| Shootdown.UpdateTakesEffect | src/kernel/memory.c:266-288 | in every run, from taking the paging mutex to giving it back: once the entry is written the page translates as the call asks for, and every other page as it did when the mutex was taken |
| Shootdown.TablesAreLastWrites | src/kernel/memory.c:202-297 | in every run every page translates as the last call that wrote its entry asked for, or else as at the start |
| Shootdown.EntriesStay | src/kernel/memory.c:186-191 | a TLB entry comes from the tables of its time and stays until it is evicted or invalidated, whatever is written to the tables |
| Shootdown.CallReturnsAfterAllRan | src/kernel/apic.c:197-209 | when `inter_processor_call(f)` may go on, each other processor has run f exactly once since the broadcast and has nothing pending |
| Shootdown.CallStartsQuiet | src/kernel/apic.c:197-204 | at the broadcast every earlier round is finished on every processor and the count is 0 |
| Shootdown.HandlersServeTheirRound | src/kernel/isr/inter_processor_call.c:10-17 | at most one interrupt is pending per processor, a handler only ever holds the open round's function and address, and the count is the number of processors done |
| Shootdown.OneHolder | src/kernel/apic.c:197-209 | neither the paging nor the call mutex has two holders |
| Shootdown.StepsUseWork | src/kernel/isr/inter_processor_call.c:10-17 | every interrupt step lowers the work of a round and only a broadcast adds to it |
| Shootdown.WaitingHasWork | src/kernel/apic.c:204-205 | while the caller has to wait, some processor has an interrupt step to take |
| Shootdown.RoundCompletes | src/kernel/apic.c:203-205 | from every reachable waiting state interrupt steps alone let the caller go on, within the work left |
| Shootdown.CallsEnd | src/kernel/apic.c:197-209 | from every reachable state, as long as no further call starts, the processors take a bounded number of steps, and where none can take another every call has returned |
| Shootdown.StepsLower | src/kernel/apic.c:197-209 | every step of the code and of a handler lowers what is left to do |
| Shootdown.RunKeepsInv | src/kernel/kernel_start.c:77-79 | the invariant behind all of these holds in every reachable state, from the start-up barrier on |
| Spinlock.MutualExclusion | src/libc/threads.c:13-35 | at most one thread is inside in every run, and the flag is set exactly while one is |
| Spinlock.StepRefinesLock | src/libc/threads.c:13-35 | each step is a stutter, an acquire of the free lock, or a release by its holder |
| LockOrder.EntryInOrder | src/kernel/memory.c:84-691 | every path of every memory entry point takes mutexes in the order virt_mmap, heap, phys_mmap_ext, paging, then phys_mmap or ipcall, works on what a mutex guards only inside its section, and ends holding none |
| LockOrder.NoDeadlock | src/kernel/memory.c:84-691 | from every reachable unfinished state of any number of processors running any mix of entry points some processor can step, and runs are bounded |
| LockOrder.StepUsesMeasure | src/kernel/memory.c:84-691 | every step lowers a measure |
| LockOrder.OneOwner | src/kernel/memory.c:84-691 | no mutex is held by two processors |
| LockOrder.NoRace | src/kernel/memory.c:84-691 | in every run who works on what a mutex guards owns it, and no two processors do so at once |
| LockOrder.UsesOfMapPage | src/kernel/memory.c:202-275 | one call of `map_page` edits the tables once, makes one call round, and goes to the physical ranges once for each new table |
| LockOrder.UsesOfKmalloc | src/kernel/memory.c:479-536 | `kmalloc` works on the heap once, and if it grows edits the tables once for each page |
| LockOrder.UsesOfKfree | src/kernel/memory.c:643-691 | `kfree` works on the heap once, and if it trims on the physical ranges, once or with an extension of their array |
| HeapSpec.AlignUpRounds | src/kernel/memory.c:480 | ALIGN_UP gives the next multiple, or 0 exactly when that does not fit into 64 bits |
| HeapSpec.AllocKeepsValid | src/kernel/memory.c:479-536 | `kmalloc` keeps the tiling, the alignment and the coalescing, takes a block of at least the size that was not in use, and leaves every block in use alone |
| HeapSpec.AllocOutcome | src/kernel/memory.c:486-530 | the block found, or a new one of as many pages as a header and the request need (one more if they fill them), is cut to the request iff more than a header and 32 bytes are left over |
| HeapSpec.FreeOutcome | src/kernel/memory.c:643-691 | the freed block is joined with its free neighbours and all others stay; the tail is cut iff the joined block ends the heap, is not the first, and the heap goes beyond the first page boundary at or above it plus 64 bytes; then the heap ends at the first boundary at or above the block, of which nothing remains if it begins there |
| HeapSpec.FreeKeepsValidIff | src/kernel/memory.c:643-691 | `kfree` keeps the heap valid iff not: the block, or a free one in front of it, begins 16 bytes before a page boundary and is not the first, nothing in use follows, and the heap goes on for more than a page behind that boundary; only the freed block leaves use |
| HeapSpec.UnderflowsIff | src/kernel/memory.c:647-680 | on the blocks before the call: this is exactly when the block that results from joining is trimmed to a size below 0 |
| HeapSpec.TrimKeepsIff | src/kernel/memory.c:673-687 | the same for the tail trim: it underflows iff the free tail starts 16 bytes before a page boundary and has to be cut |
| HeapSpec.ResizeKeepsValidIff | src/kernel/memory.c:538-641 | `krealloc` keeps the heap valid iff it does not shrink before a free successor, does not grow a block with bytes into one, and a move does not underflow the trim |
| HeapSpec.ResizeGivesRoom | src/kernel/memory.c:538-641 | on every path the block returned has at least the rounded size, and all other blocks in use stay where they are |
| HeapSpec.ShrinkOutcome | src/kernel/memory.c:545-582 | shrinking: before a free block its header moves down and the sizes overlap; else the tail becomes a free block iff it holds a header and 32 bytes |
| HeapSpec.GrowOutcome | src/kernel/memory.c:602-624 | growing in place: the two blocks lose as many bytes as the first had, and are cut behind the request iff more than a header and 32 bytes are left |
| HeapSpec.MoveOutcome | src/kernel/memory.c:630-640 | moving: the new block is in use, the old one is not, and all others are as before |
| HeapSpec.StaysIff | src/kernel/memory.c:545-634 | the block stays where it is iff it need not grow, or the next block is free and alone with its header large enough |
| HeapSpec.ResizedInFullIff | src/kernel/memory.c:538-641 | what is returned has room for the request iff it is at most 2^64 - 48 bytes |
| HeapSpec.SwallowKeepsValidIff | src/kernel/memory.c:589-624 | growing in place keeps the tiling iff the block had size 0 |
| HeapSpec.ShiftBreaksTiling | src/kernel/memory.c:546-555 | shrinking before a free successor never does |
| HeapSpec.PayloadsApart | src/kernel/memory.c:479-536 | blocks do not overlap; payloads are 16-byte aligned and inside the heap |
| HeapSpec.NextKeepsValidIff | src/kernel/memory.c:479-691 | any one call keeps the heap valid iff it is none of these cases |
| HeapSpec.RunKeepsValid | src/kernel/memory.c:413-691 | the heap is valid after every run of calls that are none of them |
| HeapSpec.HarmBreaksHeap | src/kernel/memory.c:538-691 | the first call that is one makes it invalid |
| HeapSpec.AllFreedIsOneBlock | src/kernel/memory.c:643-672 | when everything allocated in such a run has been freed, the heap is one free block |
| HeapSpec.UnderflowIsReachable | src/kernel/memory.c:673-680 | six calls from the initial heap lead to a `kfree` that writes the size 2^64 - 16 |
| HeapSpec.ShrinkHarmIsReachable | src/kernel/memory.c:546-555 | after `kmalloc(100)` on a fresh heap, shrinking that block to 50 bytes leaves two blocks that overlap |
| HeapSpec.GrowHarmIsReachable | src/kernel/memory.c:599-624 | and growing it to 200 bytes leaves 112 bytes of the heap in no block |
| HeapSpec.GrantedInFullIff | src/kernel/memory.c:479-536 | with the page count and the split in 64-bit arithmetic: what `kmalloc` returns has room for the request iff it is at most 2^64 - 48 bytes |
| HeapSpec.GrantedIsSize | src/kernel/memory.c:494-530 | the room is the size of the block taken; where the header sum wraps that is the one new page at the old end |
| HeapSpec.HeaderSumWrapsIff | src/kernel/memory.c:494-517 | adding a header to the rounded size wraps exactly for requests above 2^64 - 48 and up to 2^64 - 16; then one page is taken and the split writes into the block's own header |
| HeapList.UndercutIsNoList | src/kernel/memory.c:516-530 | where the split overwrites the block's own header, no list of blocks ends at the last one any more |
| HeapList.SplitChained | src/kernel/memory.c:516-530 | cutting a block leaves `last` and `next` mutual inverses from first to last |
| HeapList.SkipChained | src/kernel/memory.c:649-672 | so does taking a header out of the list |
| HeapList.ShiftChained | src/kernel/memory.c:548-555 | so does moving a header down, even over its old place |
| Heap.Heap.constructor | src/kernel/memory.c:413-421 | one page, one free block, a valid heap |
| Heap.Heap.Kmalloc | src/kernel/memory.c:479-536 | null iff no free block and no physical range is large enough for the rounded size; else the blocks and the end are those of the specification; the bytes of all blocks in use are kept; the heap stays valid, unless the header sum wraps: then the new page's header is left its own successor or destroyed |
| Heap.KmallocFailsIff | src/kernel/memory.c:486-501 | what the null case means, block by block and range by range |
| Heap.Heap.Kfree | src/kernel/memory.c:643-691 | the blocks and the end are those of the specification, the links stay sound, no byte changes, and the heap is valid iff the trim did not underflow |
| Heap.Heap.Krealloc | src/kernel/memory.c:538-641 | blocks, end and result are those of the specification; the first min(old, new) bytes are at the result; other blocks keep their bytes; on failure nothing changes |
| Heap.Heap.Move | src/kernel/memory.c:630-640 | the moving path: allocate, copy the old size, free |
| Heap.Heap.FindRoom | src/kernel/memory.c:589-600 | the loop that adds up free successors finds room iff the next block alone is large enough |
| Heap.Heap.Shift | src/kernel/memory.c:548-555 | the header is moved in memory and the links follow it |
| Heap.Heap.HeapConsistencyCheck | src/kernel/memory.c:453-477 | on linked headers the check decides whether the blocks tile the heap modulo 2^64 |
| HeapCheck.HeapConsistencyCheck | src/kernel/memory.c:453-477 | on every store with descending `last` links on which it ends: it accepts exactly stores whose `next` links tile the heap modulo 2^64 and whose `last` links lead back |
| HeapCheck.AnswerIsRight | src/kernel/memory.c:453-477 | round by round, on every store with descending `last` links: whatever the check answers is whether the store is so tiled |
| HeapCheck.EndsIff | src/kernel/memory.c:460-474 | it ends iff its first comparisons fail or the chain of accepted `next` links from the first header has no cycle |
| HeapCheck.EndsIffAcyclic | src/kernel/memory.c:461-466 | that chain comes to an end iff it has no cycle, within as many steps as there are headers |
| HeapCheck.MayLoopForever | src/kernel/memory.c:461-466 | two headers with descending `last` links on which the check never answers |
| HeapCheck.AcceptedIffTiled | src/kernel/memory.c:453-477 | on a linked list of blocks there is no cycle, and acceptance is the tiling of these blocks modulo 2^64 |
| HeapCheck.TiledIffNoWrap | src/kernel/memory.c:457-467 | where no block's end wraps, acceptance is the exact tiling |
| HeapCheck.ValidPasses | src/kernel/runtime_error_check.c:5-34 | every valid heap passes |
| HeapCheck.UnderflowPasses | src/kernel/memory.c:457-467 | so does every heap a trim has just underflowed in, although it is not tiled |
| Mmap.MemoryMap.AddRange | src/kernel/mmap.c:20-31 | appends unless empty or full |
| Mmap.MemoryMap.AddRangeMerge | src/kernel/mmap.c:5-18 | merges in front of the first range that starts where the new one ends, else appends |
| Mmap.MemoryMap.GetPages | src/kernel/mmap.c:33-51 | first fit: an exact fit is removed in place, a larger range loses its front |
| Mmap.GetFailsIffNoneFits | src/kernel/mmap.c:33-51 | 0 iff no range is large enough |
| Mmap.GetMovesPages | src/kernel/mmap.c:33-51 | what is handed out was free and is free no longer; nothing else changes hands |
| Mmap.GetTakesFirst | src/kernel/mmap.c:33-51 | the pages come from the front of the first range that is large enough, and a range used up leaves the array |
| Mmap.AddMergeFreesPages | src/kernel/mmap.c:5-18 | returning a range makes exactly its pages free and keeps the ranges disjoint |
| Mmap.AddMergeFailsIff | src/kernel/mmap.c:5-31 | returning fails iff the range is empty, or the array is full and nothing can be merged |
| Mmap.AddMergeLength | src/kernel/mmap.c:5-31 | returning takes a new entry iff no range starts where the returned one ends |
| Mmap.GetThenAddMerge | src/kernel/mmap.c:5-51 | allocate then free always succeeds and restores the free pages; a carved range comes back element for element |
| Mmap.RunConserves | src/kernel/mmap.c:5-51 | over every run, in which any part of an outstanding range may come back, free and outstanding ranges are disjoint and cover the same pages as at the start |
| PhysInit.InitMmap | src/kernel/memory.c:353-411 | with any number of frames taken for page tables while each descriptor's pages, and at the end the memory map's own, are unmapped: the loop ends with the specified free and taken ranges, or panics as specified |
| PhysInit.Describe | src/kernel/memory.c:362-399 | one descriptor: its rest added, then its unmapping |
| PhysInit.DescribedPanicsIff | src/kernel/memory.c:388-397 | a descriptor makes it panic iff there is no room for its range or fewer free pages than its unmapping needs |
| PhysInit.ImageGoesFirst | src/kernel/memory.c:371-373 | the start-up image goes to the first usable descriptor that begins at 0xFF000 or below and is large enough, and nowhere iff there is none |
| PhysInit.InitialPanicsIff | src/kernel/memory.c:402-410 | `init_mmap` ends iff no descriptor makes it panic, one has room for the image, and in the end the last unmapping finds its frames |
| PhysInit.UsableKinds | src/kernel/memory.c:25-42 | which descriptor types are usable, by number |
| PhysInit.TakenMovesPages | src/kernel/memory.c:84-96 | frames taken one by one run out iff there are fewer free pages; else they move from free to taken and nothing else changes |
| PhysInit.CollectKept | src/kernel/memory.c:362-399 | after each descriptor free and taken ranges are disjoint, and together they are the usable memory so far less page 0 and the start-up image |
| PhysInit.OtherMemoryKept | src/kernel/memory.c:363-364 | memory of any other kind, the kernel's included, is neither free nor taken |
| PhysInit.PagesConserved | src/kernel/memory.c:353-411 | from the end of `init_mmap`, the page tables' frames counted as out, over every run: free and outstanding pages together are exactly that memory, and as many as before |
| VirtMap.VirtMemory.AllocVirtPages | src/kernel/memory.c:140-155 | `mmap_get_pages`, with the array halved iff more than half of it is unused and the heap grants it; no range is lost |
| VirtMap.VirtMemory.FreeVirtPages | src/kernel/memory.c:158-183 | the range is returned unless the array has to grow and may not; the array is then twice as long as it was full, else halved as above |
| VirtMap.VirtMemory.Reduce | src/kernel/memory.c:130-138 | halving the array keeps its ranges |
| VirtMap.RetrySucceedsIff | src/kernel/memory.c:170-182 | doubling the array lets the retry succeed iff neither the range nor the array is empty |
| GlyphCache.Cache.GetGlyph | src/kernel/graphics.c:142-203 | one request: a hit refreshes the first entry of the character, a miss replaces the first entry of the lowest priority |
| GlyphCache.AnswersAreRenderings | src/kernel/graphics.c:142-203 | in runs of any length every request for a non-zero character is answered by its rendering |
| GlyphCache.RunIsLru | src/kernel/graphics.c:142-203 | for fewer than 2^31 requests every entry is dated by the last request for its character, and what was dropped is older than all entries |
| GlyphCache.HitIffRecent | src/kernel/graphics.c:142-203 | ... so a request hits iff the character was asked for and fewer than 100 distinct others have been since |
| GlyphCache.NotLruAfterWrap | src/kernel/graphics.c:157-168 | at request 2^31 a miss replaces entry 0 whatever the cache holds, and a second miss replaces the character just brought in |
| GlyphCache.RolloverStartsOver | src/kernel/graphics.c:145-155 | at request 2^64 the number is 1, all entries become equally old and keep their characters, but for the one that serves the request |
| GlyphCache.LongRunForgets | src/kernel/graphics.c:142-203 | 2^31 - 1 requests for one character and one for another: the first is gone, although one other has come since |
| GlyphCache.ExactIff | src/kernel/graphics.c:142-203 | a request hits iff fewer than 100 distinct others came since, in all runs of fewer than N requests, iff N is at most 2^31 |
| LibcString.BytesOfWord | src/libc/string.c:139-211 | a 64-bit word holds the eight bytes it was loaded from |
| LibcString.Memmove | src/libc/string.c:188-211 | for all regions, however they overlap: the destination holds the old source and no other byte changes |
| LibcString.Memcpy | src/libc/string.c:174-186 | the same for regions that do not overlap |
| LibcString.Memset | src/libc/string.c:156-172 | every byte of the region is the given one and no other byte changes |
| LibcString.SpreadBytes | src/libc/string.c:159-162 | each byte of the word made by shifts is the given one |
| LibcString.Memcmp | src/libc/string.c:139-154 | the difference of the first bytes that differ, as numbers; 0 iff there are none, and negative or positive as the regions are ordered in a dictionary |
| Strstr.Strstr | src/libc/string.c:102-127 | the loop computes the search that goes on behind each partial match |
| Strstr.FindsFirstIffRepeats | src/libc/string.c:102-127 | it finds the first occurrence in every text iff the needle repeats itself from each recurrence of its first character to its end |
| Strstr.NoRecurrence | src/libc/string.c:102-127 | in particular if the first character does not recur |
| Strtol.Strtol | src/libc/stdlib.c:19-85 | EINVAL for a bad base; the exact signed value and end if the guard accepts the number, else the right-signed limit and ERANGE; no 64-bit operation overflows |
| Strtol.AcceptedRange | src/libc/stdlib.c:62-77 | the guard accepts every magnitude up to limit - base * (base - 1), and none above the limit |
| Strtol.LongMaxIsRefused | src/libc/stdlib.c:70-72 | LONG_MAX itself is reported as out of range |
| Strtol.NumeralParsed | src/libc/stdlib.c:25-50 | the numeral of any number in any base from 2 to 36, in small or capital letters, behind space, a sign and `0x` or `0` where the base argument allows it, is parsed in full and as that number, whatever follows that is no letter or digit |
| Strtol.ReadBack | src/libc/stdlib.c:19-85 | so every number in the accepted range survives being written and read |
| Strtol.EndAfterOverflow | src/libc/stdlib.c:65-73 | where `str_end` points after an overflow in bases up to 10 in text that ends with its digits: at its end iff an even number of them is left, else one past the terminator |
| Strtol.EndAfterDecimals | src/libc/stdlib.c:65-73 | in bases above 10 it is two past the terminator if decimal digits are left |
| Strtol.EndAmongDigits | src/libc/stdlib.c:65-73 | a text of base-16 digits in the middle of which it lies |
| Qsort.Memswap | src/libc/stdlib.c:106-112 | byte by byte, also on overlapping regions |
| Qsort.SwapsApart | src/libc/stdlib.c:106-112 | ... which exchanges regions that do not overlap, and changes nothing else |
| Qsort.Partition | src/libc/stdlib.c:114-141 | the loop and its three exits compute the specification |
| Qsort.PartitionSplits | src/libc/stdlib.c:114-141 | for one-byte elements each exit leaves everything before the returned pivot at most it and everything behind above it, and rearranges nothing else |
| Qsort.Qsort | src/libc/stdlib.c:143-157 | for any size it rearranges the bytes of the array and changes no byte outside |
| Qsort.SortedRearranges | src/libc/stdlib.c:143-157 | for any size a call rearranges the bytes in its reach and changes none beyond it |
| Qsort.ReachInside | src/libc/stdlib.c:143-157 | the reach ends inside the array, and before its last byte when there are two or more elements of two or more bytes |
| Qsort.SortedBytes | src/libc/stdlib.c:143-157 | for one-byte elements and any total preorder the result is ordered and a permutation |
| Qsort.WideElementsNotSorted | src/libc/stdlib.c:143-157 | for wider elements an array that does not get sorted |
| Qsort.SwappedRotates | src/libc/stdlib.c:106-112 | on regions one byte apart, as `qsort` uses it, memswap moves the first byte behind the others |
| Qsort.TwoElements | src/libc/stdlib.c:144-151 | two elements of any size are left alone, or their first size + 1 bytes are rotated |
| Qsort.EqualElementsTorn | src/libc/stdlib.c:143-157 | three elements of two bytes are torn apart even if all compare equal |
| Qsort.SortsIffOneByte | src/libc/stdlib.c:143-157 | every array is sorted for every total preorder iff the element size is 1 or there are fewer than two elements |

## Left out

- Weak memory ordering, page-structure caches and the moment in which a new table is linked but not yet zeroed, as seen by other processors and by stale entries of the recursive window itself.
- KernelPaging.AddressSpace.MapPage: does not cover large pages on the path, which the kernel removes first. After a fault or a panic the mappings are stated, not the flags raised on the way.
- LargePages.UnmapPageFixSize: requires tables down to the page, without which the source faults, and that the frames of a large page do not run past bit 47 of the address.
- LargePages.UnmapPageFixSize: is for one processor, because the source calls `invalidate_tlbs_for` there without the paging mutex (src/kernel/memory.c:307, against src/kernel/memory.c:186).
- BootPaging.BootTables.AddPageMapping: requires that no entry on the path is a large page, which the source follows as if it pointed to a table, or has one of bits 48 to 63 set, which NEXT_STRUCT leaves in the address; firmware entries copied by src/boot/boot.c:110-112 may have them.
- BootPaging.MapPhysicalMemory: requires the same of the PML4 entry of the window.
- BootPaging.MakePml4: requires that the firmware's tables are distinct frames; the source copies entries that share a table all the same.
- Shootdown.TlbCoherence: starts at the barrier (src/kernel/kernel_start.c:77-79). Before it the other processors run `tls_create`, `init_gdt`, `init_idt` and `init_apic` and count themselves as working, while the first one may still get to `kmalloc` from `print_str` through FreeType (src/kernel/kernel_start.c:61-63); the caller has not counted itself then, so that `working - 1` answers are one fewer than there are other processors at work. The count is not wrapped at 16 bits.
- LockOrder.NoRace: does not cover accesses outside every section: `free_phys_pages` raises the limit of the physical ranges under `phys_mmap_ext_mutex` while `mmap_add_range` reads it under `phys_mmap_mutex` (src/kernel/memory.c:122), `kmalloc` reads the first header before it locks, and `krealloc` reads the old size after it has unlocked.
- LockOrder.NoDeadlock: does not include the graphics mutex, which `check_charpos` takes again through `fill_screen` while it is held (src/kernel/graphics.c:211).
- Heap.Heap.Kmalloc: requires that a heap that grows stays below 2^64. Two headers that overlap after a wrapped split count as destroyed; what their fields read as is not modelled. The heap's limit of 256 GiB is not checked by the source and not by the model.
- Heap.Heap.Krealloc: requires the same, and that a block is not moved to memory obtained for one of the 32 requests whose header sum wraps (`HeapSpec.HeaderSumWrapsIff`); `HeapSpec.ResizedInFullIff` covers these, but not what the copy and `kfree` do to a list that is lost.
- HeapSpec.NextKeepsValidIff: its calls leave out the same 32 requests, after which there is no list of blocks.
- Heap.Heap.Kfree: does not return the trimmed pages to the physical ranges, which needs their translation; the source takes them for contiguous, passes a count of 0 when nothing is cut, and its unmap loop does not run (src/kernel/memory.c:681-685).
- Heap.Heap.Kmalloc: does not map the new pages; it takes them from the physical ranges, and `map_page` is modelled on its own.
- Heap.Heap.Copy: copies byte by byte; the words are in LibcString.
- HeapCheck.HeapConsistencyCheck: requires that links can be followed and `last` links descend; with rising ones its second loop may not end either.
- Mmap.MemoryMap.AddRangeMerge: does not wrap addresses at 2^64.
- PhysInit.InitMmap: takes the number of frames each unmapping needs as given, whatever it is; which pages lie in large pages is the firmware's choice. Descriptors are not empty.
- VirtMapping.Mappings.CreateVirtMapping: requires a size above 0, and addresses do not wrap; a size of 0 at a page boundary makes the source count 2^52 pages. The preconditions of the calls of `map_page` are those of KernelPaging.
- VirtMap.VirtMemory.FreeVirtPages: requires a range it can place; for others the source retries without end.
- Strtol.Strtol: memory behind the text counts as zeros, so that the skipping loop after an overflow ends.
- Strtol.EndAfterOverflow: does not cover bases above 10, where the macro advances up to five characters at a time; `SkipTo` follows it there, and `Strtol.EndAfterDecimals` and `Strtol.EndAmongDigits` say how that ends.
- Qsort.Partition: for three or more elements of more than one byte what it does is stated byte by byte; no more meaning is given to it than that the bytes are rearranged.
- LibcString.Memcmp: requires fewer than 2^31 bytes, as its index is an `int`.
- GlyphCache.Cache.GetGlyph: takes the rendering of a character as a function; FreeType, blending and the size of the cell are not part of this model.
- `free_phys_pages` when its array is full maps one page only, whatever the count, and continues with a larger limit (src/kernel/memory.c:113-126): only its locks are modelled.
- `mmap_get_range` drops the last range instead of the one found, and nothing calls it; `strchr` does not advance.
- Panics end a call; what follows one is not modelled.
- UEFI, ELF loading, ACPI, APIC registers, timers, interrupt set-up, TLS, PCI, the cursor and the frame buffer: calls into firmware and hardware, or simple code.
- The other `str` functions and `memchr`: simple loops.
