# ImplusOS kernel model

A Dafny model of the stateful core of the ImplusOS kernel and of its PNG decoder, with proofs of what
that code keeps over whole runs. `dafny verify dfyconfig.toml` checks everything.

Operations that the C code performs in place are methods on classes with arrays and fields. Each is
proved equal to a specification function on values, and the theorems are about those functions, so they
hold of the methods. What each of those functions computes is stated a second time without it: by addresses,
field values, byte layouts or an encoder. Integer widths and wrap-around are written out: `byte`, `u16`, `u32` and `u64` are
subset types of `int`, and sums that C truncates are reduced explicitly.

## What is modelled

**Kernel heap** (`HeapList`, `HeapSpec`, `HeapMemory`, `KernelHeap`, `HeapRealloc`, `HeapRuns`,
`HeapClients`, `HeapChoice`, `HeapDangling`, `HeapBorrow`). A next-fit allocator over one region of bytes
with 16-byte headers among the payloads. The class holds only the bytes, the hint and the counters; the block list is a ghost that the
bytes determine. A header write clobbers its bytes, so "no other payload changes" is a theorem. The
invariant is that the list tiles the region, has no two free neighbours, holds the hint, and that the
counters are exact modulo 2^32. An operation keeps all of it exactly when it is not a krealloc that resizes
in place. Runs of all four calls, with clients writing into their memory, keep the tiling, the clients'
ledger and every byte they stored, as long as no search starts from a hint that krealloc left dangling;
calls that refuse, free, shrink or grow in place do not search.
The region's address and size are parameters.

**FAT32 data path** (`Disk`, `FatSpec`, `FatData`, `Fat32`, `FatTheorems`, `FatLinks`, `FatDirectory`,
`FatEntries`). The drive is a sequence of 512-byte sectors; an oracle says which commands fail. A write puts a prefix of
the buffer on the chain's sectors and touches nothing else, whatever fails, and the FAT it walks stays
fixed under it.

**File descriptors** (`FileSpec`, `FileVolume`, `KernelFiles`, `FileRuns`, `FileNames`,
`VolumeExample`). The sixteen descriptors over the real heap and the real driver refine byte files of fixed size with one cursor each,
call by call and over whole sessions, including those in which the heap has no room for a file.
`VolumeExample` is a small volume that meets what is required of one.

**Scheduler** (`SchedulerSpec`, `SchedulerRuns`, `ProcessManager`). The 16-slot table driven by system
calls: one running process at every boundary, bounded waiting, and saved stack pointers handed back to
their owner.

**PNG decoder** (`PngFilter`, `PngDecode`, `PngRoundTrip`, `PngBounds`, `PngRefusals`).
In-place unfiltering with four bytes per pixel (section 6 of RFC 2083), the chunk walk, one stored block
(section 3.2.4 of RFC 1951), and the row copy. The encoder, written from the formulas of the standard, is the
reference the decoder is proved to invert.

**Pages and page tables** (`PageSpec`, `PageAllocator`, `PagingSpec`, `PageTables`). The page bitmap with
its hint refines a set that hands out its lowest page. The page tables are read by a 4-level walk (section
4.5 of the Intel SDM, Volume 3A) through the physical addresses in the entries.

**Virtqueue and framebuffer** (`VirtqueueSpec`, `Virtqueue`, `Framebuffer`). The driver runs beside a
device that takes available entries once and in order (section 2.6 of VirtIO 1.1); a schedule decides how
far it gets between any two accesses of the driver.

## Where a promise does not hold

Each of these is proved with its exact condition, except that the damage done through a dangling hint is
shown at a family of inputs.

- A heap request above 0xFFFFFFF8 wraps when rounded up and is granted with too small a block
  (`HeapRuns.MallocRoom`, `HeapRuns.WrappedRequestExample`). kcalloc then zeroes past its block and past
  the heap (`HeapRuns.CallocRoom`, `HeapRuns.WrappedCallocExample`). krealloc returns a block that is too
  small and, if the old one could be split, destroys its bytes (`HeapRealloc.ReallocRoom`,
  `HeapRealloc.WrappedReallocExample`).
- krealloc breaks the heap invariant exactly when it resizes in place (`HeapRealloc.ReallocKeepsInv`). It
  leaves the search hint off the list when it absorbs the block the hint names (`HeapRealloc.ReallocHint`,
  `HeapRealloc.GrowExample`), leaves free neighbours when it shrinks next to a free block
  (`HeapRealloc.ShrinkCoalesced`, `HeapRealloc.ShrinkExample`), and bypasses the counters
  (`HeapRealloc.ResizeCount`, both examples).
- A kmalloc that searches from such a hint can hand out memory inside a live allocation or inside a header
  (`HeapDangling.StaleHintExample`).
- The PNG decoder leaves its own buffers when the stored block is shorter than the announced image and the
  last row's filter or the copy reaches what is missing, and when it copies two or more rows of width 2^30 or
  more (`PngBounds.DecodeExact`, with one file per case: `PngBounds.MissingRowExample`,
  `PngBounds.ReachingFilterExample`, `PngBounds.ShortCopyExample`, `PngBounds.WideRowExample`).
- A descriptor range whose 64-bit end wraps is not marked (`PageSpec.CoversExact`,
  `PageSpec.WrappedRangeExample`). A kernel that ends above the last page whose number fits 32 bits puts the
  heap below itself (`PageAllocator.StartAboveKernel`, `PageAllocator.HighKernelExample`).
- A framebuffer ending in the last gigabyte of the 64-bit space leaves nothing identity-mapped
  (`PagingSpec.LowMemoryMapped`, `PagingSpec.NothingMappedExample`), and one ending above 64 GB is not mapped
  (`PagingSpec.FramebufferMapped`, `PagingSpec.HighFramebufferExample`). Window mappings keep only the low 52
  bits of an address (`PagingSpec.WindowTheorem`). A returned address below 4 GB leads elsewhere when it lies
  in a used window slot (`PagingSpec.LowTheorem`, `PagingSpec.ShadowedExample`).
- After a timeout, success of the next submission says nothing about its own request
  (`VirtqueueSpec.SuccessMeansCompleted`, `VirtqueueSpec.RequestLost`). The driver can tell from its own
  indices only while fewer than 65536 submissions have timed out in a row (`VirtqueueSpec.IndicesDecide`,
  `VirtqueueSpec.AliasedIndices`).

## Model

| member | source | states |
|---|---|---|
| `HeapList.TiledIsLinked` | Kernel/Memory/Memory_Main.c:22-26 | the recursive tiling and the index-by-index one (each block ends where the next starts, sizes are multiples of 8, the last ends at the heap end) are the same |
| `HeapList.Ordered` | Kernel/Memory/Memory_Main.c:22-26 | on a tiling list every earlier block ends before every later one starts, so the list has no cycle |
| `HeapList.Inside` | Kernel/Memory/Memory_Main.c:22-26 | every block of a tiling list lies in the heap and its payload is 8-aligned |
| `HeapList.MergeUndoesSplit` | Kernel/Memory/Memory_Main.c:91-103 | absorbing the remainder that a split cut off gives back the list |
| `HeapList.SplitTiled` | Kernel/Memory/Memory_Main.c:91-103 | splitting keeps the tiling |
| `HeapList.MergeTiled` | Kernel/Memory/Memory_Main.c:275-284 | absorbing the successor keeps the tiling |
| `HeapList.AllocTiled` | Kernel/Memory/Memory_Main.c:114-121 | taking a block keeps the tiling |
| `HeapList.ReleaseTiled` | Kernel/Memory/Memory_Main.c:272-286 | freeing with two-sided coalescing keeps the tiling |
| `HeapList.AllocCoalesced` | Kernel/Memory/Memory_Main.c:114-121 | taking a free block creates no two free neighbours |
| `HeapList.ReleaseCoalesced` | Kernel/Memory/Memory_Main.c:272-286 | freeing a block in use creates no two free neighbours |
| `HeapList.ReleaseUndoesAlloc` | Kernel/Memory/Memory_Main.c:91-133 | releasing what was just allocated restores the list if and only if the chosen block had no free predecessor, and was split or had no free successor |
| `HeapList.Conservation` | Kernel/Memory/Memory_Main.c:369-386 | free bytes + used bytes + 16 per block is the region size |
| `HeapList.AllocUsedSum` | Kernel/Memory/Memory_Main.c:118 | allocation adds exactly the new block's size to the used sum |
| `HeapList.ReleaseUsedSum` | Kernel/Memory/Memory_Main.c:273 | release subtracts exactly the block's size |
| `HeapList.ScanComplete` | Kernel/Memory/Memory_Main.c:105-133 | from any start the next-fit scan visits each block at most once, fails exactly when nothing on the whole list fits, and otherwise picks the first fit in circular order |
| `HeapSpec.AlignUp` | Kernel/Memory/Memory_Main.c:68-70 | a multiple of 8 less than 8 above the request, not below it if and only if the request is at most 0xFFFFFFF8; above that it is 0 |
| `HeapSpec.FindUnique` | Kernel/Memory/Memory_Main.c:72-89 | the search by payload finds exactly the block with that address |
| `HeapSpec.CallocFits` | Kernel/Memory/Memory_Main.c:291-297 | the overflow test refuses exactly the products that do not fit 32 bits |
| `HeapSpec.Boot` | Kernel/Memory/Memory_Main.c:186-203 | the state left by memory_init satisfies the heap invariant |
| `HeapSpec.MallocNull` | Kernel/Memory/Memory_Main.c:105-133 | NULL if and only if the size is 0 or no block on the list fits, and then no block changed |
| `HeapSpec.MallocGives` | Kernel/Memory/Memory_Main.c:105-133 | a success turns one free block into a used one of at least the aligned size, adds nothing else to the blocks in use, and keeps tiling and hint |
| `HeapSpec.MallocKeepsInv` | Kernel/Memory/Memory_Main.c:212-235 | kmalloc keeps the invariant: tiling, no free neighbours, hint on the list, counters exact modulo 2^32 |
| `HeapSpec.FreeKeepsInv` | Kernel/Memory/Memory_Main.c:237-289 | kfree of any pointer keeps the invariant |
| `HeapSpec.ReleaseEffect` | Kernel/Memory/Memory_Main.c:237-289 | freeing removes exactly one block from those in use |
| `HeapSpec.FreeRestores` | Kernel/Memory/Memory_Main.c:91-133 | kmalloc then kfree of the result gives back the block list, addresses, sizes and flags |
| `HeapChoice.MallocPicks` | Kernel/Memory/Memory_Main.c:105-133 | kmalloc takes the first free block that is large enough, going up from the hint, or from the start of the heap if there is none, and around; said by addresses |
| `HeapChoice.MallocLeaves` | Kernel/Memory/Memory_Main.c:91-121 | the whole state it leaves: a block with 80 bytes to spare is cut to the aligned size, the hint is the address after it or the start of the heap, the counter grows by the size granted |
| `HeapChoice.MallocFails` | Kernel/Memory/Memory_Main.c:105-133 | a failure changes nothing except that it sets an unset hint |
| `HeapChoice.CallocNull` | Kernel/Memory/Memory_Main.c:291-297 | kcalloc returns NULL if and only if the product is 0 or 2^32 and more or no free block holds it, and is kmalloc of the product otherwise |
| `HeapChoice.FreeLeaves` | Kernel/Memory/Memory_Main.c:237-289 | the whole state kfree leaves: the block and its free neighbours are one free block, named by the hint, and the counter grows by the block's size |
| `HeapChoice.FreeRefuses` | Kernel/Memory/Memory_Main.c:237-270 | a pointer to no block in use changes nothing |
| `HeapChoice.ReallocFails` | Kernel/Memory/Memory_Main.c:309-358 | krealloc returns NULL if and only if the size is 0, or the address is NULL and no free block is large enough, or no block in use is at the address, or that block is too small, cannot grow over a free successor, and no free block is large enough |
| `HeapChoice.ReallocLeaves` | Kernel/Memory/Memory_Main.c:309-366 | the whole state and result: cut in place, grown over the successor and cut, or moved by kmalloc and kfree |
| `HeapChoice.ReallocEdges` | Kernel/Memory/Memory_Main.c:310-316 | of NULL krealloc is kmalloc, and to size 0 it is kfree |
| `HeapSpec.UsedIsFreeable` | Kernel/Memory/Memory_Main.c:237-270 | every block in use is found by its payload pointer and passes the range test |
| `HeapMemory.ListUnique` | Kernel/Memory/Memory_Main.c:22-26 | the bytes determine the list: two lists they represent are equal |
| `HeapMemory.SplitRepresented` | Kernel/Memory/Memory_Main.c:91-103 | two header writes inside the split block re-represent the split list |
| `HeapMemory.MergeRepresented` | Kernel/Memory/Memory_Main.c:275-284 | one header write re-represents the merged list |
| `HeapMemory.PayloadWrite` | Kernel/Memory/Memory_Main.c:22-26 | a write inside one payload leaves every header intact |
| `KernelHeap.Heap.constructor` | Kernel/Memory/Memory_Main.c:28-32 | static storage before set-up: nothing initialised |
| `KernelHeap.Heap.MemoryInit` | Kernel/Memory/Memory_Main.c:186-210 | the boot state; a second call changes nothing |
| `KernelHeap.Heap.SplitBlockIfNeeded` | Kernel/Memory/Memory_Main.c:91-103 | on the bytes: the split list, nothing written outside the block, the kept part of the payload unchanged |
| `KernelHeap.Heap.FindBlockByPayload` | Kernel/Memory/Memory_Main.c:72-89 | the block and its predecessor, or none |
| `KernelHeap.Heap.Search` | Kernel/Memory/Memory_Main.c:110-131 | the loop with its wrap computes the circular scan |
| `KernelHeap.Heap.KmallocLocked` | Kernel/Memory/Memory_Main.c:105-133 | list, hint, counter and result are those of the specification; every payload in use is unchanged; on failure no byte changed |
| `KernelHeap.Heap.Kmalloc` | Kernel/Memory/Memory_Main.c:212-235 | the same for kmalloc, with size 0, out of memory and an uninitialised heap giving NULL |
| `KernelHeap.Heap.Kfree` | Kernel/Memory/Memory_Main.c:237-289 | the specification's state for any pointer, and no payload on the list changes by a byte although headers are rewritten among them |
| `KernelHeap.Heap.Coalesce` | Kernel/Memory/Memory_Main.c:275-286 | two-sided merging is the released list, and the hint is on it |
| `KernelHeap.Heap.Kcalloc` | Kernel/Memory/Memory_Main.c:291-307 | the specification's state for every num and size; inside says whether all zeroing stays in the heap, exactly when the call fails or the product is at most 0xFFFFFFF8; then the requested bytes are zero and other payloads unchanged |
| `KernelHeap.Heap.GetFreeMemory` | Kernel/Memory/Memory_Main.c:369-386 | the sum of free sizes, which with used bytes and headers is the whole heap |
| `KernelHeap.Heap.GetUsedMemory` | Kernel/Memory/Memory_Main.c:388-395 | under the invariant the answer is the sum of used sizes, and with the free sizes and the headers it makes up the whole region |
| `KernelHeap.Heap.Krealloc` | Kernel/Memory/Memory_Main.c:309-367 | the specification's state and result, with a hint on the list required only where a search is made; the first min(old, new) bytes are the old ones at the new place whenever the size does not wrap or the block is too small to split; growth in place changes no byte of the grown payload; every other payload is unchanged; on failure the old block keeps its bytes |
| `KernelHeap.Heap.ResizeBlock` | Kernel/Memory/Memory_Main.c:330-366 | shrinking, growing in place and moving, each with the bytes it keeps |
| `HeapSpec.KeptBytesExact` | Kernel/Memory/Memory_Main.c:333-338 | a resized block keeps min(old, new) bytes if and only if the size is at most 0xFFFFFFF8 or the block is too small to split |
| `KernelHeap.Heap.ShrinkBlock` | Kernel/Memory/Memory_Main.c:333-338 | shrinking keeps the kept bytes and all other payloads |
| `KernelHeap.Heap.GrowBlock` | Kernel/Memory/Memory_Main.c:340-349 | growing in place changes no byte of the grown payload and no other payload |
| `KernelHeap.Heap.Move` | Kernel/Memory/Memory_Main.c:353-366 | moving allocates, copies all old bytes and frees the old block, or does nothing on failure |
| `HeapRuns.StepKeeps` | Kernel/Memory/Memory_Main.c:212-367 | every kmalloc, kfree, krealloc, kcalloc whose zeroing stays inside, and client write keeps the tiling and the ledger of live pointers and sizes; the hint must be on the list only for a call that searches |
| `HeapRuns.StepKeepsInv` | Kernel/Memory/Memory_Main.c:212-367 | one operation keeps the whole invariant if and only if it is not a krealloc that resizes in place |
| `HeapRuns.Run` | Kernel/Memory/Memory_Main.c:186-367 | tiling and ledger hold after every sequence of such operations in which no search starts from a hint off the list; refusing, freeing, shrinking and growing in place are no searches |
| `HeapRuns.CarefulRuns` | Kernel/Memory/Memory_Main.c:186-367 | if no krealloc resizes in place, the hint is always on the list and the whole invariant is kept |
| `HeapRuns.RunsAreSafe` | Kernel/Memory/Memory_Main.c:72-367 | after every such run from memory_init: live allocations are 8-aligned, inside, pairwise disjoint and as large as requested up to 0xFFFFFFF8, and no byte of the region is lost |
| `HeapRuns.RunsCountExactly` | Kernel/Memory/Memory_Main.c:186-395 | after every run from memory_init in which no krealloc resizes in place, the whole invariant holds and the used counter is exact |
| `HeapRuns.MallocRoom` | Kernel/Memory/Memory_Main.c:212-226 | the block handed out has room for the request, and the request ends inside the heap, if and only if it is at most 0xFFFFFFF8 |
| `HeapRuns.CallocRoom` | Kernel/Memory/Memory_Main.c:291-307 | a granted kcalloc zeroes inside its block and inside the heap if and only if the product is at most 0xFFFFFFF8 |
| `HeapRuns.WrappedRequestExample` | Kernel/Memory/Memory_Main.c:68-70 | right after boot a request of 0xFFFFFFFF is granted with an empty block |
| `HeapRuns.WrappedCallocExample` | Kernel/Memory/Memory_Main.c:291-303 | right after boot kcalloc(1, 0xFFFFFFFF) is granted an empty block and its zeroing leaves the heap |
| `HeapClients.Perform` | Kernel/Memory/Memory_Main.c:212-367 | one operation on the bytes: the specification's state and result, payloads it does not touch unchanged, every byte its clients know in place |
| `HeapClients.Execute` | Kernel/Memory/Memory_Main.c:212-367 | any such run on the bytes ends in the specification's state; payloads not freed, resized or written through are unchanged; every live allocation holds what its client last stored, or kcalloc's zeroes, also after krealloc moved it |
| `HeapRealloc.ReallocKeepsTiling` | Kernel/Memory/Memory_Main.c:309-367 | krealloc keeps the tiling on every path |
| `HeapRealloc.ReallocKeepsInv` | Kernel/Memory/Memory_Main.c:309-367 | krealloc keeps the whole invariant if and only if it does not change a block's size in place |
| `HeapRealloc.ReallocGives` | Kernel/Memory/Memory_Main.c:309-367 | on success exactly the old block is replaced, by one at the returned address of at least the aligned size, away from all others |
| `HeapRealloc.ReallocRoom` | Kernel/Memory/Memory_Main.c:309-367 | the returned block holds the size asked for if and only if that is at most 0xFFFFFFF8, and still has room for the first min(old, new) bytes if and only if that, or the old block was too small to split |
| `HeapRealloc.ReallocNull` | Kernel/Memory/Memory_Main.c:326-358 | a krealloc that fails leaves the block list alone |
| `HeapRealloc.ReallocHint` | Kernel/Memory/Memory_Main.c:340-349 | the hint stays on the list if and only if it did not name the neighbour absorbed by in-place growth |
| `HeapRealloc.GrowExample` | Kernel/Memory/Memory_Main.c:340-349 | kmalloc(8) then krealloc to 16 right after boot leaves the hint off the list and the counters wrong |
| `HeapRealloc.GrowAgainExample` | Kernel/Memory/Memory_Main.c:340-349 | in that state krealloc to 24 makes no search and grows the same block in place once more |
| `HeapDangling.TakeAt` | Kernel/Memory/Memory_Main.c:91-121 | one successful stop of the search at any address: what stands there is cut, marked in use and handed out, with the bytes that change |
| `HeapDangling.StaleHintExample` | Kernel/Memory/Memory_Main.c:91-121 | boot, kmalloc(8), krealloc to n, kmalloc(8): for n from 32 on the second allocation lies inside the first, which is live; for 16 it starts inside the next block's header, whose size and flag are overwritten with an address |
| `HeapRealloc.ShrinkExample` | Kernel/Memory/Memory_Main.c:333-338 | kmalloc(200) then krealloc to 8 right after boot leaves two free neighbours and the counters wrong |
| `HeapRealloc.WrappedReallocExample` | Kernel/Memory/Memory_Main.c:329-338 | kmalloc(200) then krealloc to 0xFFFFFFFF right after boot returns the same pointer with an empty block and a new header where its bytes were |
| `HeapRealloc.ResizeCount` | Kernel/Memory/Memory_Main.c:333-349 | the counters stay exact after an in-place shrink if and only if nothing was split off, and never after in-place growth |
| `HeapRealloc.ShrinkCoalesced` | Kernel/Memory/Memory_Main.c:333-338 | shrinking leaves two free neighbours if and only if it splits next to a free block |
| `HeapRealloc.GrowCoalesced` | Kernel/Memory/Memory_Main.c:340-349 | growing in place leaves no two free neighbours |
| `HeapBorrow.Borrow` | Kernel/Syscall/Syscall_File.c:117-120 | a temporary buffer, or NULL exactly when nothing fits |
| `HeapBorrow.WriteInside` | Kernel/Syscall/Syscall_File.c:127-127 | writes inside the buffer keep the headers and every other live payload |
| `HeapBorrow.GiveBack` | Kernel/Syscall/Syscall_File.c:129-129 | freeing the buffer gives back exactly the earlier block list |
| `Disk.Drive.Read` | Kernel/IO/IO_Main.c:55-96 | the listed sectors in order when it reports success; on a working drive success is exactly a positive count in range |
| `Disk.Drive.Write` | Kernel/IO/IO_Main.c:98-125 | one sector replaced or nothing changed |
| `FatSpec.ClusterLbaExact` | Kernel/Drivers/FileSystem/FAT32/FAT32_Main.c:21-28 | cluster addresses do not wrap and lie in the data area, on a well-formed volume |
| `FatSpec.ClusterPlace` | Kernel/Drivers/FileSystem/FAT32/FAT32_Main.c:21-28 | cluster c starts at sector reserved + fats * fat size + (c - 2) * sectors per cluster |
| `FatSpec.LinkBytes` | Kernel/Drivers/FileSystem/FAT32/FAT32_Main.c:30-49 | the link of a cluster is the little-endian number in the four bytes at 4 * c of the first FAT, without its top four bits |
| `FatSpec.NoLink` | Kernel/Drivers/FileSystem/FAT32/FAT32_Main.c:30-33 | cluster numbers below 2 and from 0x0FFFFFF8 on have no link, and 0 and 1 no sector |
| `FatSpec.ChainBound` | Kernel/Drivers/FileSystem/FAT32/FAT32_Main.c:108-108 | chains are followed for as many clusters as the FAT has links |
| `FatSpec.ClustersApart` | Kernel/Drivers/FileSystem/FAT32/FAT32_Main.c:25-28 | different clusters have disjoint sectors |
| `FatSpec.LinkInFat` | Kernel/Drivers/FileSystem/FAT32/FAT32_Main.c:30-37 | every data cluster's link is in the first FAT, below the data area |
| `FatSpec.Pigeonhole` | Kernel/Drivers/FileSystem/FAT32/FAT32_Main.c:256-258 | a chain without repeats has no more clusters than the volume, so the cluster bound never cuts it short |
| `FatSpec.LbasDistinct` | Kernel/Drivers/FileSystem/FAT32/FAT32_Main.c:25-28 | a chain without repeats has no sector twice |
| `FatSpec.LbasDisjoint` | Kernel/Drivers/FileSystem/FAT32/FAT32_Main.c:25-28 | chains without a common cluster have no common sector |
| `FatData.ReadChain` | Kernel/Drivers/FileSystem/FAT32/FAT32_Main.c:219-248 | following links reads the chain's sectors in order, and succeeds exactly up to its capacity |
| `FatData.OverlayReads` | Kernel/Drivers/FileSystem/FAT32/FAT32_Main.c:250-284 | what is read over the written sectors is the data and then the old bytes |
| `FatData.OverlayOutside` | Kernel/Drivers/FileSystem/FAT32/FAT32_Main.c:250-284 | sectors not written keep their bytes |
| `FatData.OverlayKeepsFat` | Kernel/Drivers/FileSystem/FAT32/FAT32_Main.c:250-284 | writing file data changes no sector below the data area |
| `FatData.ChainStable` | Kernel/Drivers/FileSystem/FAT32/FAT32_Main.c:30-49 | a chain is the same chain after any change that leaves the FAT alone |
| `Fat32.GetNextCluster` | Kernel/Drivers/FileSystem/FAT32/FAT32_Main.c:30-49 | the link of the cluster, or the end-of-chain value when it cannot be read |
| `Fat32.ReadFile` | Kernel/Drivers/FileSystem/FAT32/FAT32_Main.c:219-248 | success means the buffer holds exactly what the links lead to; nothing outside is written; a working drive fails exactly when the chain is too short or leads off the disk |
| `Fat32.WriteCluster` | Kernel/Drivers/FileSystem/FAT32/FAT32_Main.c:259-276 | the sector loop writes the next bytes in order, with read-modify-write of the tail |
| `Fat32.WriteFile` | Kernel/Drivers/FileSystem/FAT32/FAT32_Main.c:250-284 | exactly a prefix of the buffer reaches the chain's sectors and nothing else changes; true if and only if it is all of it; a working drive stops short only where the chain ends |
| `FatTheorems.ReadsAs` | Kernel/Drivers/FileSystem/FAT32/FAT32_Main.c:219-248 | a file reads as its bytes if and only if its chain is long enough |
| `FatTheorems.PrefixWrite` | Kernel/Drivers/FileSystem/FAT32/FAT32_Main.c:250-284 | after a write, complete or torn: chain and FAT stand, the file is the written prefix and then its old bytes, the slack after its end is untouched |
| `FatTheorems.WriteThenRead` | Kernel/Drivers/FileSystem/FAT32/FAT32_Main.c:219-284 | a write that reports success is read back exactly |
| `FatTheorems.WriteSucceeds` | Kernel/Drivers/FileSystem/FAT32/FAT32_Main.c:250-284 | on a working drive a write succeeds if and only if the chain can hold the file |
| `FatTheorems.OthersUnaffected` | Kernel/Drivers/FileSystem/FAT32/FAT32_Main.c:250-284 | files with disjoint chains keep chain and bytes |
| `FatTheorems.OffChainSector` | Kernel/Drivers/FileSystem/FAT32/FAT32_Main.c:250-284 | every sector off the chain is unchanged |
| `FatTheorems.StoreThenLoad` | Kernel/Drivers/FileSystem/FAT32/FAT32_Main.c:219-284 | on a working drive fat32_write_file then fat32_read_file both succeed if and only if the chain can hold the file, and return what was written |
| `FatLinks.SetNextCluster` | Kernel/Drivers/FileSystem/FAT32/FAT32_Main.c:51-76 | on success every FAT copy is updated and nothing else; on failure a prefix of the copies is |
| `FatLinks.SlotAfter` | Kernel/Drivers/FileSystem/FAT32/FAT32_Main.c:59-73 | in updated copies the link's low 28 bits are new and its top 4 kept; every other slot of every copy is as before |
| `FatLinks.SetThenGet` | Kernel/Drivers/FileSystem/FAT32/FAT32_Main.c:30-76 | reading the link back gives the low 28 bits, other links are unchanged, reserved bits survive, copies that agreed still agree |
| `FatDirectory.ScanFinds` | Kernel/Drivers/FileSystem/FAT32/FAT32_Main.c:116-133 | a name is found if and only if some entry is its first live match before the end marker, and the file is that entry's |
| `FatDirectory.ScanSector` | Kernel/Drivers/FileSystem/FAT32/FAT32_Main.c:116-133 | the entry loop computes the scan |
| `FatDirectory.ScanCluster` | Kernel/Drivers/FileSystem/FAT32/FAT32_Main.c:111-134 | so does the sector loop over one cluster |
| `FatDirectory.FindFile` | Kernel/Drivers/FileSystem/FAT32/FAT32_Main.c:103-142 | finds exactly the file the root directory lists; a faulty drive may miss it but never invents one |
| `FatEntries.EntryReads` | Kernel/Drivers/FileSystem/FAT32/FAT32_Main.c:125-128 | an entry reads back as the first cluster, in its two halves, and the size that were written, for every 32-bit value of both |
| `FatEntries.DirectoryFinds` | Kernel/Drivers/FileSystem/FAT32/FAT32_Main.c:116-133 | searching a directory written as entries finds the first live one with the name and its first cluster and size, and nothing if there is none before the end marker |
| `FileSpec.FreeFd` | Kernel/Syscall/Syscall_File.c:86-94 | the lowest closed descriptor, or none |
| `FileSpec.StepWf` | Kernel/Syscall/Syscall_File.c:74-183 | every operation keeps file sizes, the set of files and every cursor inside its file |
| `FileSpec.Run` | Kernel/Syscall/Syscall_File.c:74-183 | so does every interleaving |
| `FileSpec.StepSpares` | Kernel/Syscall/Syscall_File.c:134-174 | only a write through a writable descriptor of a file changes that file |
| `FileSpec.ChunkedReads` | Kernel/Syscall/Syscall_File.c:99-132 | reads of any lengths, interleaved with anything that spares the file, concatenate to the file's bytes from the old cursor to the new one |
| `FileSpec.WritesAreShared` | Kernel/Syscall/Syscall_File.c:134-174 | after a write, a read of any length through any descriptor of the file, the writing one included, returns its part of the file with the new bytes spliced in |
| `FileSpec.NoTransfer` | Kernel/Syscall/Syscall_File.c:103-112 | length 0 or a cursor at the end transfers nothing and changes nothing |
| `FileSpec.OpenEffect` | Kernel/Syscall/Syscall_File.c:86-96 | opening fails if and only if nothing is listed or every descriptor is open; else the lowest closed descriptor is on the listed file with cursor 0 and the permission asked for, and nothing else changes |
| `FileSpec.CloseEffect` | Kernel/Syscall/Syscall_File.c:176-183 | closing closes exactly an open descriptor and changes nothing else |
| `FileSpec.ReadEffect` | Kernel/Syscall/Syscall_File.c:99-132 | a read delivers the bytes at the cursor, as many as asked for or left, and moves only that cursor, by that many |
| `FileSpec.WriteEffect` | Kernel/Syscall/Syscall_File.c:134-174 | a write puts its bytes at the cursor, all or as many as fit, and changes no other byte of any file |
| `FileSpec.RefusedExactly` | Kernel/Syscall/Syscall_File.c:103-120 | for lack of room a transfer is refused if and only if it would move at least one byte of a file the heap cannot hold |
| `FileSpec.OpenThenRead` | Kernel/Syscall/Syscall_File.c:74-132 | opening a file and reading it in pieces, while nobody writes it, gives its bytes from the first on, and all of them once a read finds nothing more |
| `FileVolume.WriteOnVolume` | Kernel/Syscall/Syscall_File.c:166-169 | a write, complete or torn, keeps the volume well-formed and changes only a prefix of its own file in the map of all files |
| `FileVolume.VolumeReads` | Kernel/Syscall/Syscall_File.c:122-125 | reading a listed file gives the bytes the map holds |
| `VolumeExample.IsVolume` | Kernel/Drivers/FileSystem/FAT32/FAT32_Main.c:103-142 | a concrete four-sector volume with one listed file meets every requirement the file theorems make of one |
| `KernelFiles.PathToFat83` | Kernel/Syscall/Syscall_File.c:28-68 | accepts exactly the 8.3 names and pads and upper-cases them |
| `FileSpec.Fat83Exact` | Kernel/Syscall/Syscall_File.c:28-68 | a base, and an extension after a dot, are accepted if and only if they have one to eight and at most three characters and no further dot; the result is both in upper case, padded with spaces, character by character |
| `KernelFiles.FileTable.constructor` | Kernel/Syscall/Syscall_File.c:70-72 | every descriptor closed |
| `KernelFiles.FileTable.LoadAll` | Kernel/Syscall/Syscall_File.c:117-125 | the whole file in a kmalloc buffer, or NULL with the block list as before |
| `KernelFiles.FileTable.Read` | Kernel/Syscall/Syscall_File.c:99-132 | refines the byte file with a cursor; the block list and all live payloads are as before on every path; -1 changes nothing and, on a working drive, happens exactly for a bad descriptor, a NULL buffer or no heap room |
| `KernelFiles.FileTable.Write` | Kernel/Syscall/Syscall_File.c:134-174 | splices exactly the transferred bytes at the cursor and advances it; -1 changes nothing unless the drive failed, and then the file is torn at one place; heap as before on every path |
| `KernelFiles.FileTable.PatchAndStore` | Kernel/Syscall/Syscall_File.c:165-172 | the spliced file is written back and the buffer freed |
| `KernelFiles.FileTable.CopyPart` | Kernel/Syscall/Syscall_File.c:117-130 | the wanted part of the file reaches the caller and the heap is as before; on a working drive it fails exactly when the heap has no room |
| `KernelFiles.FileTable.Rewrite` | Kernel/Syscall/Syscall_File.c:151-172 | load, splice and write back; nothing changes when the file cannot be loaded, and on a working drive that is exactly when the heap has no room |
| `KernelFiles.FileTable.Open` | Kernel/Syscall/Syscall_File.c:74-97 | the lowest free descriptor on the file the directory lists for the name, cursor 0, or -1 with no change |
| `KernelFiles.FileTable.Close` | Kernel/Syscall/Syscall_File.c:176-183 | closes exactly an open descriptor |
| `FileRuns.Perform` | Kernel/Syscall/Syscall_File.c:74-183 | one call on a working drive answers and changes the files exactly as specified, where a transfer of at least one byte on a file the heap cannot hold is refused and changes nothing |
| `FileRuns.Execute` | Kernel/Syscall/Syscall_File.c:74-183 | so does every interleaving of calls on the 16 descriptors: final files, cursors, results and bytes read are those of byte files with cursors; the heap's block list, every live payload and the directory are as before |
| `FileNames.OpenFinds` | Kernel/Syscall/Syscall_File.c:74-97 | for a path and a directory as written, open is given the first live entry with the padded upper-case name, its first cluster and size, and bit 0 of the flags |
| `FileNames.OpenMisses` | Kernel/Syscall/Syscall_File.c:78-84 | and nothing for a name that is not accepted or that no live entry before the end marker has |
| `SchedulerSpec.FreeSlot` | Kernel/ProcessManager/ProcessManager_Create.c:33-41 | the lowest unused or dead slot, or none |
| `SchedulerSpec.NextReady` | Kernel/ProcessManager/ProcessManager_Create.c:54-59 | a ready slot, or none |
| `SchedulerSpec.NoneReady` | Kernel/ProcessManager/ProcessManager_Create.c:54-59 | the circular scan fails if and only if no slot is ready |
| `SchedulerSpec.PickIsNearest` | Kernel/ProcessManager/ProcessManager_Create.c:54-59 | the choice is no further around the table than any ready slot |
| `SchedulerSpec.Boot` | Kernel/ProcessManager/ProcessManager_Create.c:67-94 | exactly the boot process runs |
| `SchedulerSpec.ServeEffect` | Kernel/Syscall/Syscall_Dispatch.c:37-60 | serving a request leaves other ready processes alone, runs nobody new, and makes ready only the slot it created |
| `SchedulerSpec.ServeSwitches` | Kernel/Syscall/Syscall_Dispatch.c:43-60 | a switch is asked for if and only if the call is a yield, an exit, or a thread start with an entry point, a stack and an unused or dead slot |
| `SchedulerSpec.CreateExact` | Kernel/ProcessManager/ProcessManager_Create.c:96-129 | creation fails if and only if entry point, stack or a free slot is missing; else the lowest such slot is a ready process whose frame of 120 bytes lies in its stack below a 16-aligned top, and no other slot changes |
| `SchedulerSpec.StepKeepsInv` | Kernel/ProcessManager/ProcessManager_Create.c:138-181 | at every system call boundary exactly one process is running and it is the current one; the kernel halts if and only if the last runnable process exits |
| `SchedulerSpec.NoSwitchStays` | Kernel/ProcessManager/ProcessManager_Create.c:160-180 | a call that does not switch resumes its caller with its own pair |
| `SchedulerSpec.SwitchRunsNearest` | Kernel/ProcessManager/ProcessManager_Create.c:160-180 | a yield or exit with another process ready runs the nearest ready one, with that one's saved pair |
| `SchedulerSpec.ThreadRunsNearest` | Kernel/Syscall/Syscall_Dispatch.c:53-60 | so does a thread start, the new process being one of those ready |
| `SchedulerSpec.YieldAlone` | Kernel/ProcessManager/ProcessManager_Create.c:160-180 | a yield with no other process ready comes straight back |
| `SchedulerRuns.Run` | Kernel/ProcessManager/ProcessManager_Create.c:138-181 | the same over every run |
| `SchedulerRuns.StepEnters` | Kernel/ProcessManager/ProcessManager_Create.c:160-180 | the process resumed was ready, never dead or unused, and gets its own saved pair |
| `SchedulerRuns.StepSeenFrom` | Kernel/ProcessManager/ProcessManager_Create.c:138-181 | seen from a ready process, each call runs it or leaves it ready, and a switching call shrinks its circular distance |
| `SchedulerRuns.BoundedWaiting` | Kernel/ProcessManager/ProcessManager_Create.c:43-65 | a ready process runs within as many yields, exits and thread starts as its circular distance, whatever the others do |
| `SchedulerRuns.StepRecorded` | Kernel/ProcessManager/ProcessManager_Create.c:152-180 | one call keeps the saved pairs equal to those last recorded |
| `SchedulerRuns.EveryResumeIsFaithful` | Kernel/ProcessManager/ProcessManager_Create.c:78-181 | in every run from boot, every resumption hands out the pair of the process's own last call, or of its creation |
| `ProcessManager.Manager.constructor` | Kernel/ProcessManager/ProcessManager_Create.c:67-76 | all slots unused, no current process |
| `ProcessManager.Manager.FindFreeSlot` | Kernel/ProcessManager/ProcessManager_Create.c:33-41 | the loop finds the lowest free slot |
| `ProcessManager.Manager.PickNextReady` | Kernel/ProcessManager/ProcessManager_Create.c:43-65 | the loops compute the round-robin choice |
| `ProcessManager.Manager.RegisterBootProcess` | Kernel/ProcessManager/ProcessManager_Create.c:78-94 | on an empty table, the boot state |
| `ProcessManager.Manager.CreateUserProcess` | Kernel/ProcessManager/ProcessManager_Create.c:96-129 | the new table and pid, or -1 with no change |
| `ProcessManager.Manager.ExitCurrentProcess` | Kernel/ProcessManager/ProcessManager_Create.c:131-136 | the current process is dead |
| `ProcessManager.Manager.ScheduleOnSyscall` | Kernel/ProcessManager/ProcessManager_Create.c:138-181 | the scheduling step and the pair to resume with |
| `ProcessManager.Manager.SyscallDispatch` | Kernel/Syscall/Syscall_Dispatch.c:17-165 | one dispatch is one scheduling step of the decoded request, with the created pid stored for the caller; calls 24 and 25 leave the table alone and return the allocator's answer, or 0, as the stack pointer |
| `ProcessManager.CallNumbers` | Kernel/Syscall/Syscall_Dispatch.c:37-60 | 3 creates, 4 yields, 5 exits, 6 starts a thread, 24 and 25 are the allocator's, and every other number leaves the processes alone |
| `PngFilter.Paeth` | Userland/Application/PNG_Decoder/PNG_Decoder.c:58-65 | of left, above and above-left the one nearest to left + above - above-left, ties in that order |
| `PngFilter.ReconFilter` | Userland/Application/PNG_Decoder/PNG_Decoder.c:15-78 | reconstructing a row filtered by the formulas of RFC 2083 gives the row, for every filter type |
| `PngFilter.FilterPredicts` | Userland/Application/PNG_Decoder/PNG_Decoder.c:28-73 | what the decoder adds back is what sections 6.2 to 6.6 of RFC 2083 subtract for each filter type |
| `PngFilter.FilterRecon` | Userland/Application/PNG_Decoder/PNG_Decoder.c:15-78 | filtering a reconstructed row gives the filtered bytes back |
| `PngFilter.UnfilterInverts` | Userland/Application/PNG_Decoder/PNG_Decoder.c:15-78 | unfiltering inverts filtering for every image and every choice of filters per row, modulo 256, leaving what follows alone |
| `PngFilter.UnfilterInside` | Userland/Application/PNG_Decoder/PNG_Decoder.c:15-78 | the pass over a buffer that holds all rows is that unfiltering |
| `PngFilter.SubRow` | Userland/Application/PNG_Decoder/PNG_Decoder.c:33-36 | the in-place Sub loop is the row reconstruction, or reports the first byte outside the buffer it touches |
| `PngFilter.UpRow` | Userland/Application/PNG_Decoder/PNG_Decoder.c:38-42 | the same for the Up loop, which skips the first row |
| `PngFilter.AverageRow` | Userland/Application/PNG_Decoder/PNG_Decoder.c:44-50 | the same for the Average loop |
| `PngFilter.PaethByDistances` | Userland/Application/PNG_Decoder/PNG_Decoder.c:58-65 | the distances as the decoder computes them select the Paeth predictor |
| `PngFilter.PaethRow` | Userland/Application/PNG_Decoder/PNG_Decoder.c:52-69 | the same for the Paeth loop |
| `PngFilter.UnfilterRow` | Userland/Application/PNG_Decoder/PNG_Decoder.c:28-73 | the switch over filter types; a short row whose filter touches nothing stays as it is |
| `PngFilter.UnfilterInPlace` | Userland/Application/PNG_Decoder/PNG_Decoder.c:15-78 | the whole in-place pass over a buffer of any length is the row-by-row specification: the buffer it leaves, or the first place outside that it touches |
| `PngDecode.WalkChunks` | Userland/Application/PNG_Decoder/PNG_Decoder.c:121-158 | the chunk loop computes the walk, in fewer than one iteration per eight bytes of the buffer whatever the length fields say |
| `PngDecode.CopyOut` | Userland/Application/PNG_Decoder/PNG_Decoder.c:183-189 | the row copy, with 32-bit offsets, up to the first copy that leaves either buffer |
| `PngDecode.Draw` | Userland/Application/PNG_Decoder/PNG_Decoder.c:172-196 | unfiltering in place, the second allocation and the copy compose to the specification for every stored block and every announced size |
| `PngDecode.DecodeBuffer` | Userland/Application/PNG_Decoder/PNG_Decoder.c:109-197 | signature, chunks, stored block, unfiltering and copy compose to the decoder function, with every refusal and every first access outside the decoder's own buffers |
| `PngBounds.UnfilterExact` | Userland/Application/PNG_Decoder/PNG_Decoder.c:25-77 | the pass over the rows leaves the buffer if and only if the image is longer than the buffer and the last row's filter byte is outside or its filter touches bytes outside; the place reported is outside |
| `PngBounds.CopyExact` | Userland/Application/PNG_Decoder/PNG_Decoder.c:183-189 | the copy leaves a buffer if and only if rows are missing or two or more rows have width 2^30 or more |
| `PngBounds.DecodeExact` | Userland/Application/PNG_Decoder/PNG_Decoder.c:109-197 | for every input and both allocation outcomes, the decoder leaves its own buffers if and only if it reaches a stored block that is shorter than the announced image and either the last row's filter reaches what is missing or the rows are copied, or one that is not and two or more rows of width 2^30 or more are copied |
| `PngBounds.FileExact` | Userland/Application/PNG_Decoder/PNG_Decoder.c:109-197 | the same for every encoded file, in terms of its announced size and the contents of its stored block |
| `PngBounds.RenderDecodes` | Userland/Application/PNG_Decoder/PNG_Decoder.c:172-196 | pixels come back if and only if nothing overruns, memory is found and 4 * w * h is not a multiple of 2^32; then with the announced dimensions |
| `PngBounds.MissingRowExample` | Userland/Application/PNG_Decoder/PNG_Decoder.c:25-27 | a file that announces two rows and holds one |
| `PngBounds.ReachingFilterExample` | Userland/Application/PNG_Decoder/PNG_Decoder.c:44-50 | a file whose only row has the Average filter and no bytes |
| `PngBounds.ShortCopyExample` | Userland/Application/PNG_Decoder/PNG_Decoder.c:172-189 | a file whose only row has filter None and no bytes: out of bounds if the second allocation succeeds, a refusal if it fails |
| `PngBounds.WideRowExample` | Userland/Application/PNG_Decoder/PNG_Decoder.c:180-189 | a file of two rows of width 2^30 + 1, all there, whose second row is copied 2^32 bytes on |
| `PngRoundTrip.WalkEncoded` | Userland/Application/PNG_Decoder/PNG_Decoder.c:129-158 | on an encoded image the walk ends with its dimensions and the place of its data, whatever other chunks stand around it |
| `PngRoundTrip.InflateRead` | Userland/Application/PNG_Decoder/PNG_Decoder.c:80-107 | a stored block that is not empty gives back its contents, and any other block is refused |
| `PngRoundTrip.CopyAll` | Userland/Application/PNG_Decoder/PNG_Decoder.c:180-189 | copying strips the filter bytes |
| `PngRoundTrip.FileDecodes` | Userland/Application/PNG_Decoder/PNG_Decoder.c:109-197 | every file, whatever it announces, is decoded to what its announced size makes of the contents of its stored block; compressed and empty blocks are refused |
| `PngRefusals.ChunkNames` | Userland/Application/PNG_Decoder/PNG_Decoder.c:115-155 | the chunk names and the signature, byte by byte |
| `PngRefusals.BadSignature` | Userland/Application/PNG_Decoder/PNG_Decoder.c:118-119 | any other start is refused |
| `PngRefusals.BadFormat` | Userland/Application/PNG_Decoder/PNG_Decoder.c:139-147 | a header with anything but 8-bit samples, RGBA and no interlacing is refused, whatever follows |
| `PngRefusals.NoData` | Userland/Application/PNG_Decoder/PNG_Decoder.c:160-161 | a file without a data chunk is refused |
| `PngRefusals.TinyData` | Userland/Application/PNG_Decoder/PNG_Decoder.c:85-86 | a data chunk of fewer than six bytes is refused |
| `PngRefusals.LastDataCounts` | Userland/Application/PNG_Decoder/PNG_Decoder.c:149-152 | of several data chunks the last one counts |
| `PngRefusals.EndIsOptional` | Userland/Application/PNG_Decoder/PNG_Decoder.c:129-158 | a file that stops after its data chunk is decoded all the same |
| `PngRoundTrip.RoundTrip` | Userland/Application/PNG_Decoder/PNG_Decoder.c:109-197 | decoding returns the original dimensions and pixels of every 8-bit RGBA image that fits one stored block, for every choice of filters, other chunks, checksums and trailing bytes |
| `PageSpec.CoversExact` | Kernel/Memory/Memory_Main.c:142-149 | a range is marked in full up to the last page if and only if it starts past the map or its 64-bit end does not wrap |
| `PageSpec.WrappedRangeExample` | Kernel/Memory/Memory_Main.c:142-149 | 2^64 - 1 pages from page 1 on: not one page is marked |
| `PageSpec.InitFree` | Kernel/Memory/Memory_Main.c:159-184 | after set-up the free pages are exactly those a usable descriptor covers and that are not below the heap end |
| `PageSpec.InitFreeExact` | Kernel/Memory/Memory_Main.c:159-184 | page i is free if and only if it is at least 4096 pages above the heap's start and a descriptor of type 1, 2, 3, 4 or 7 covers it |
| `PageSpec.ScanComplete` | Kernel/Memory/Memory_Main.c:434-443 | from whatever hint, the scan fails only when no page is free |
| `PageSpec.AllocLowest` | Kernel/Memory/Memory_Main.c:431-447 | with all pages below the hint in use, the hinted circular scan returns the lowest free page and keeps that so |
| `PageSpec.FreeKeepsInv` | Kernel/Memory/Memory_Main.c:449-463 | freeing keeps all pages below the hint in use |
| `PageSpec.FreeEffect` | Kernel/Memory/Memory_Main.c:449-463 | any address in a page frees that page and nothing else and lowers the hint to it; NULL and addresses from 1 GB on do nothing |
| `PageSpec.AllocEffect` | Kernel/Memory/Memory_Main.c:434-441 | the page handed out was free, only it changes, and the next search starts behind it |
| `PageSpec.RunRefines` | Kernel/Memory/Memory_Main.c:431-463 | over every run of clients that free only what they hold, the answers are those of a set that hands out its lowest page |
| `PageSpec.GrantsAreSafe` | Kernel/Memory/Memory_Main.c:431-463 | in that reference, pages handed out are available ones and none is handed out twice without a free between |
| `PageSpec.BootRunsAreSafe` | Kernel/Memory/Memory_Main.c:142-184 | the same of the real bitmap from set-up: nothing below the heap end is ever returned |
| `PageAllocator.StartAboveKernel` | Kernel/Memory/Memory_Main.c:135-140 | the heap starts at or above the kernel's end if and only if the page number fits 32 bits |
| `PageAllocator.StartExact` | Kernel/Memory/Memory_Main.c:135-140 | and then it starts in the first page the kernel does not reach |
| `PageAllocator.HighKernelExample` | Kernel/Memory/Memory_Main.c:135-140 | one byte further the heap is placed at page 0 |
| `PageAllocator.PageAllocator.constructor` | Kernel/Memory/Memory_Main.c:10-39 | static storage: every byte and the hint zero |
| `PageAllocator.PageAllocator.CalcHeapStartPage` | Kernel/Memory/Memory_Main.c:135-140 | the cached page, or the rounded-up kernel end |
| `PageAllocator.PageAllocator.MarkPages` | Kernel/Memory/Memory_Main.c:142-149 | the loop marks exactly the covered pages |
| `PageAllocator.PageAllocator.InitPhysicalMemory` | Kernel/Memory/Memory_Main.c:159-184 | the loops over pages and descriptors give the initial bitmap |
| `PageAllocator.PageAllocator.AllocPage` | Kernel/Memory/Memory_Main.c:431-447 | the loop computes the circular scan and updates page and hint |
| `PageAllocator.PageAllocator.FreePage` | Kernel/Memory/Memory_Main.c:449-463 | page and hint as specified; NULL and addresses past the map change nothing |
| `PageAllocator.PageAllocator.ResetHint` | Kernel/Memory/Memory_Main.c:203 | the part of memory_init that concerns pages: the search starts over, and the page invariant holds |
| `PageAllocator.PageAllocator.Serve` | Kernel/Memory/Memory_Main.c:431-463 | any sequence of calls on the bitmap answers as the specification's run |
| `PagingSpec.TableEntryDecodes` | Kernel/Paging/Paging_Main.c:102-105 | a table entry is present, writable, user, not a page, and leads back to its table |
| `PagingSpec.PageEntryDecodes` | Kernel/Paging/Paging_Main.c:70-70 | a 2 MB entry is present, writable, user, a page, and carries the low 52 bits of its frame |
| `PagingSpec.LowMemoryMapped` | Kernel/Paging/Paging_Main.c:88-96 | the first 4 GB are mapped if and only if the framebuffer does not end in the last gigabyte of the 64-bit space; otherwise nothing is |
| `PagingSpec.MapEnds` | Kernel/Paging/Paging_Main.c:88-96 | the map ends with the gigabyte that holds the last byte of the framebuffer or of the first 4 GB, and at 64 GB at the latest |
| `PagingSpec.NothingMappedExample` | Kernel/Paging/Paging_Main.c:88-96 | a framebuffer of one byte at the start of that gigabyte |
| `PagingSpec.FramebufferMapped` | Kernel/Paging/Paging_Main.c:88-96 | the framebuffer is inside the identity map if and only if it is empty or ends within 64 GB |
| `PagingSpec.HighFramebufferExample` | Kernel/Paging/Paging_Main.c:88-96 | a framebuffer of one byte just above 64 GB is outside |
| `PagingSpec.WalkIsMeaning` | Kernel/Paging/Paging_Main.c:40-116 | the 4-level walk of every lower-half address: used window slots, then identity, then a fault |
| `PagingSpec.InitInv` | Kernel/Paging/Paging_Main.c:79-110 | set-up establishes the table invariant |
| `PagingSpec.MapKeepsInv` | Kernel/Paging/Paging_Main.c:40-77 | every mapping call keeps it |
| `PagingSpec.WindowTheorem` | Kernel/Paging/Paging_Main.c:40-116 | after set-up and any sequence of calls each window address returned is translated to its physical address modulo 2^52, and everything outside the used slots is as set up |
| `PagingSpec.WindowPlace` | Kernel/Paging/Paging_Main.c:45-64 | window addresses lie in the 32 MB from 0xF0000000 on, at the same offset in a 2 MB frame as the physical address |
| `PagingSpec.LowTheorem` | Kernel/Paging/Paging_Main.c:40-43 | after set-up and any sequence of calls an address below 4 GB is returned as it is, and is translated to itself if and only if it lies in the identity map and in no used slot, or in a slot whose frame has the same low 52 bits |
| `PagingSpec.ShadowedExample` | Kernel/Paging/Paging_Main.c:40-77 | once 4 GB is mapped, the window's first address is still returned as it is and leads to 4 GB |
| `PagingSpec.SlotsAreShared` | Kernel/Paging/Paging_Main.c:48-53 | two returned addresses share a slot if and only if their physical addresses share a 2 MB frame |
| `PagingSpec.WindowSuffices` | Kernel/Paging/Paging_Main.c:55-58 | no call returns NULL if and only if at most 16 frames are ever asked for |
| `PageTables.PageTables.constructor` | Kernel/Paging/Paging_Main.c:12-16 | the static tables |
| `PageTables.PageTables.InitPaging` | Kernel/Paging/Paging_Main.c:79-116 | clearing and the nested loops give the initial tables |
| `PageTables.PageTables.Identity` | Kernel/Paging/Paging_Main.c:104-110 | the nested loops map exactly the first n gigabytes |
| `PageTables.PageTables.MapMmioVirt` | Kernel/Paging/Paging_Main.c:40-77 | the slot search and the table writes give the specification's tables and address |
| `VirtqueueSpec.InitInv` | Kernel/Drivers/Display/VirtIO/VirtIO.c:427-435 | a fresh queue satisfies the invariant |
| `VirtqueueSpec.SubmitInv` | Kernel/Drivers/Display/VirtIO/VirtIO.c:454-486 | in every state and under every schedule the 16-bit indices are the low halves of the true counts, one entry is published, nothing is undone, and success means all completions so far are seen |
| `VirtqueueSpec.CleanSubmit` | Kernel/Drivers/Display/VirtIO/VirtIO.c:454-486 | with nothing outstanding, success means the request just submitted is the one executed, once; a timeout means the device never moved |
| `VirtqueueSpec.Written` | Kernel/Drivers/Display/VirtIO/VirtIO.c:459-473 | the device finds the command in descriptor 0, flagged as continued, the answer's buffer in descriptor 1, flagged as writable, and one more available entry for descriptor 0 |
| `VirtqueueSpec.AnswersInTime` | Kernel/Drivers/Display/VirtIO/VirtIO.c:477-485 | with nothing outstanding a submission succeeds if and only if the device moves during one of the polls |
| `VirtqueueSpec.RunExecutes` | Kernel/Drivers/Display/VirtIO/VirtIO.c:454-486 | a run without a timeout, under any schedule, executes exactly its requests, each once and in order |
| `VirtqueueSpec.IndicesAgree` | Kernel/Drivers/Display/VirtIO/VirtIO.c:410-486 | from set-up all four indices agree after any number of submissions, past the 16-bit wrap |
| `VirtqueueSpec.SuccessMeansCompleted` | Kernel/Drivers/Display/VirtIO/VirtIO.c:477-485 | success is a promise about the request just submitted under every schedule if and only if at the call everything published has been executed and the driver's two indices agree |
| `VirtqueueSpec.IndicesDecide` | Kernel/Drivers/Display/VirtIO/VirtIO.c:454-486 | with fewer than 65536 submissions since the last success, the driver's two indices alone decide it |
| `VirtqueueSpec.AliasedIndices` | Kernel/Drivers/Display/VirtIO/VirtIO.c:454-486 | after 65536 timeouts from set-up the indices agree again although nothing was executed, and there is a schedule in which the next call succeeds falsely |
| `VirtqueueSpec.RequestLost` | Kernel/Drivers/Display/VirtIO/VirtIO.c:459-485 | after a timeout there is a schedule in which the next call succeeds, the earlier request is never executed and the new one is about to run twice |
| `Virtqueue.RingsFit` | Kernel/Drivers/Display/VirtIO/VirtIO.c:401-433 | for every queue size the three rings have the sizes of the standard, are aligned, follow each other with at most 3 bytes between, and stay inside the allocation |
| `Virtqueue.Virtqueue.constructor` | Kernel/Drivers/Display/VirtIO/VirtIO.c:102-111 | no queue yet |
| `Virtqueue.Virtqueue.InitCtrl` | Kernel/Drivers/Display/VirtIO/VirtIO.c:410-452 | true exactly when the size is at least 2, memory is found and the device enables the queue; then a fresh queue |
| `Virtqueue.Virtqueue.DeviceTurn` | Kernel/Drivers/Display/VirtIO/VirtIO.c:478-478 | the device takes the scheduled number of entries, in order |
| `Virtqueue.Virtqueue.Write` | Kernel/Drivers/Display/VirtIO/VirtIO.c:459-470 | the device's turn and then one field or ring write is one step of the list of writes |
| `Virtqueue.Virtqueue.Prepare` | Kernel/Drivers/Display/VirtIO/VirtIO.c:459-473 | the eight descriptor fields, the ring entry and the index are written with the device free to move before each write |
| `Virtqueue.Virtqueue.Await` | Kernel/Drivers/Display/VirtIO/VirtIO.c:477-485 | the polling loop with its two reads of the used index |
| `Virtqueue.Virtqueue.SubmitSync` | Kernel/Drivers/Display/VirtIO/VirtIO.c:454-486 | the whole call is the specification's, with 0 for queues of fewer than two entries |
| `Framebuffer.ClipExact` | Kernel/Drivers/Display/VirtIO/VirtIO.c:709-716 | clipping is exact also when the 32-bit sum wraps |
| `Framebuffer.Framebuffer.constructor` | Kernel/Drivers/Display/VirtIO/VirtIO.c:647-660 | a zeroed buffer of width times height |
| `Framebuffer.Framebuffer.DrawPixel` | Kernel/Drivers/Display/VirtIO/VirtIO.c:695-700 | exactly the named pixel changes, if it is on the display |
| `Framebuffer.Framebuffer.FillRow` | Kernel/Drivers/Display/VirtIO/VirtIO.c:719-722 | exactly one row's run of pixels changes |
| `Framebuffer.Framebuffer.FillRect` | Kernel/Drivers/Display/VirtIO/VirtIO.c:702-724 | exactly the pixels of the rectangle that lie on the display take the colour |

## Left out

- KernelHeap.Heap.Kcalloc: zeroing that leaves the heap region is reported and stops at its end; what it overwrites beyond is not modelled.
- KernelHeap.Heap.Kmalloc: a call that searches requires the hint to be on the list or NULL, as do kcalloc and a krealloc that moves its block; from a dangling hint the search follows payload bytes as if they were headers, which is shown at an example and not modelled in general.
- KernelHeap.Heap.MemoryInit: the heap part of memory_init; its reset of the page hint is `PageAllocator.PageAllocator.ResetHint`.
- KernelFiles.FileTable.Read: the user buffer is separate from the heap region and long enough for the transfer; file sizes are at most 0xFFFFFFF8.
- ProcessManager.Manager.CreateUserProcess: the stack comes as a parameter, 0 when the allocation fails, and the contents of the initial frame are not modelled.
- PngDecode.DecodeBuffer: the two allocations and the contents of fresh memory are parameters, and reads past the input return an arbitrary byte. An access outside the decoder's own buffers is one outcome, whose exact condition is proved; what it would overwrite is not modelled.
- PageAllocator.PageAllocator.InitPhysicalMemory: the memory map is a sequence of descriptors, not bytes with a stride.
- Virtqueue.Virtqueue.InitCtrl: transport registers, the notify address and the used ring's elements, which the driver never reads, are not modelled.
- Physical addresses above the processor's own limit fault on hardware; the walk here ignores reserved bits, and TLB state is not modelled.
- Interrupt masking and spin locks: each locked section is atomic.
- ATA port input and output, the 28-bit sector limit of the drive and command timing are inside the fault oracle.
- fat32_init and the boot sector, fat32_list_root_files, long names and subdirectories.
- Register contents across a switch: all system-call frames share one kernel stack address, so only the saved pointer pair is modelled.
- System calls 24 and 25: the allocator behind them is a parameter of the dispatcher. The drawing, serial, memcpy and memcmp calls appear only as calls that do not switch.
- Stacks of exited processes are never freed, so there is no conservation claim about them.
- PCI scanning, BAR decoding, device set-up and the GPU commands above the queue.
- GDT, IDT, MSR set-up, assembly stubs, the UEFI loader and the ELF loaders.
- String, number-formatting and debug-print helpers: each is one short loop without state, and nothing modelled here depends on what it prints.
