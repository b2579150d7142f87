# A verified model of the kernel's memory stack and file systems

This Dafny 4.11 project models two cores of the kernel and proves what they promise. Check it with
`dafny verify dfyconfig.toml`.

**Memory.** At the bottom, `MemoryMap` reads the boot loader's memory map, `Bitmap` packs one bit
per page frame and `PhysAllocator` hands frames out and keeps three 64-bit counters. Above it,
`PageTree` and `PageMap` hold the four-level page tables (Intel SDM volume 3A, sections 4.5 and 4.6)
as frames of physical memory and grow them on demand; `MemoryState` says what that does to the
whole state of memory and `PageCost` what it costs in frames. `Mmu` is the processor's translation
of addresses in plain arithmetic, the reference for the walk through the macros of page_map.h.
`HeapList` is the kernel heap's doubly linked list of segment headers, `Heap` the heap over pages it
maps itself. `ElfFile`, `FrameSupply`, `ElfLoader` and `Elf` load programs through those page tables
(System V gABI, chapter 5, "Program Header"), reading the file through the very tables they change.
Each layer has a simple abstraction, kept as ghost state and tied to the real fields by `Valid()`:

- the bitmap is a sequence of flags (`Bitmap.bits`);
- the page tables are a flat map from virtual page to translation (`PageMap.flat`), which includes
  the access rights all entries of the walk leave, together with a tree that says which frame holds
  which table (`PageMap.tables`) and what the intermediate entries permit (`PageMap.grants`);
- the heap list is a row of tiles (`SegmentList.tiles`), on which `HeapTiles` defines every
  operation and `HeapTheorems` proves what follows.

The main results are that nothing handed out by the frame allocator is handed out again before it is
returned; that mapping a page changes the processor's translation at that page only, whichever tables
had to be created, and gives it the rights asked for exactly if no table that was there before
withholds them; that no page-table frame is reached twice and every heap page owns its frame;
that `malloc` needs at most two expansions and returns the lowest block that fits, disjoint from
all others; that `free` undoes `malloc`, and freeing everything in any order restores one segment;
and that after `elf_load` a program reads its file's bytes, then zeros, at every address.

**File systems.** `Gpt` is an abstract disk of 512-byte sectors, some of which may be bad, and
access relative to a partition. `Ext2Tree` defines which blocks a file consists of, `Ext2` reads
them through the index tree, `Ext2File` reads in chunks and `Ext2Inode` finds inodes. `FatChain`,
`FatWrite`, `Fat` and `FatFile` follow FAT32 cluster chains (Microsoft FAT32 File System
Specification 1.03, section "FAT Data Structure"). `Mounts` is the mount table, `PathParser` the
path parser. `Itoa` is the bounded digit buffer.

`Bits` defines the bitwise operators on natural numbers and proves the few laws needed;
`ByteSeq` holds little-endian numbers and byte-sequence facts, `Layout` packed structures;
`FrameBits` counts and orders frames; `FrameOwnership` and `VirtualMemory` connect the layers;
`Wrappers` is an option type.

What the operations read and write is also stated apart from the model's own definitions: page-table
entries bit by bit and the walk as the processor makes it (`PageEntry.EntryBits`,
`Mmu.WalkTranslates`), the packed structures by their fields and widths (`ElfFile.ElfHeaderReads`,
`ElfFile.ProgramHeaderReads`, `Ext2Inode.InodeReads`, `Ext2Inode.DescriptorReads`), pointer blocks as
the bytes of their numbers (`Ext2Tree.PointersOfPacked`), and volumes as the blocks, FAT copies and
clusters that lie on the disk (`Ext2.PartitionServes`, `FatChain.ContentIs`, `FatChain.NextIs`).

Sixty-four and thirty-two bit wrap-around is modelled (`AddU64`, `SubU64`, `Wrap32`,
`% 0x1_0000_0000`), except where "Left out" names a bound instead.

## What the code does that its callers might not expect

Each of these is stated as an exact condition or kept as it is in the model.

- The frame bitmap is sized by the amount of memory, and booting marks frames by their addresses.
  It stays inside the bitmap exactly when the bitmap's own frames and every withheld entry end below
  its last bit (`MemoryMap.BootStaysInside`). A frame buffer above the memory does not: with 256 MiB
  and one at 0xFD000000, booting marks frame 0xFD000 of a bitmap of 0x103F0
  (`MemoryMap.FrameBufferAboveBitmap`).
- The counters wrap modulo 2^64, and they agree with the bitmap outright exactly while the taken
  frames do not outweigh the memory (`PhysAllocator.CountersMeaning`): the bitmap's last byte has
  bits for frames past the end. One page of memory is enough for the free counter to wrap
  (`PhysAllocator.FreeCounterWraps`).
- What is clear after boot need not be memory: every clear frame lies in a usable entry exactly when
  wherever the frames of one entry end, those of another go on or the bitmap ends
  (`MemoryMap.ClearIsUsableExactly`). With 128 MiB from address 0 and nothing else, frame 0x8000 is
  clear and no memory (`MemoryMap.FrameBeyondMemory`).
- With no clear frame left, the frame zeroed for a new page table is frame 0
  (`PageMap.PageMap.AllocateTable`).
- `map_virtual_memory` never changes an intermediate entry that is there: a page gets the rights asked
  for exactly if every such entry on its way permits them (`MemoryState.MappedAsAskedExactly`).
- `request_pages` reads a bit past the bitmap exactly when no run fits, something is asked for and
  the last frame is clear (`PhysAllocator.ProbeStaysInside`).
- `elf_load` maps every page one frame too low exactly when the segment's base is not page-aligned
  (`ElfLoader.AlignedPagesOnly`); the first page then leads to a frame that was taken before
  (`ElfLoader.MapGrant`).
- `elf_load` reads headers and bytes through the mapping it changes. The file stays where it lay
  exactly if no segment takes one of its pages (`ElfLoader.DataStaysExactly`). A file at the start of
  the heap with a segment of 16 bytes for that page is read as zeros from then on, and none of its
  bytes is loaded (`ElfLoader.FileAtHeapStart`).
- The ext2 reader runs past the end of a full pointer block, of any level, whenever the file goes on
  after it: reading is safe exactly when no full pointer block ends before the budget does
  (`Ext2Tree.InodeSafeExactly`). Full direct pointers and a full singly indirect block of 256
  pointers are overrun with a budget of 269 blocks (`Ext2Tree.FullBlockOverrun`), so the doubly
  indirect tree is reached past a hole only.
- Reading an ext2 file may write past the sectors the inode counts exactly when more direct blocks
  than that are in front of the first zero (`Ext2File.WithinSectorsExactly`); in no case do pointers
  or failed reads make it write further (`Ext2.GetInodeData`).
- A zero pointer ends an ext2 file instead of standing for a block of zeros. Bytes of a read come from
  the disk exactly when the file has blocks for all of them; the rest is what heap memory held
  (`Ext2File.FromDiskExactly`, `Ext2File.SparseFileReadsHeap`).
- The buffer that ext2's callers allocate is large enough exactly below 2^23 sectors
  (`Ext2File.AllocationSuffices`), group descriptors are found exactly below group 2^27
  (`Ext2Inode.DescriptorAddress`), and inodes exactly where index times size stays below 2^32
  (`Ext2Inode.InodeAddress`).
- A FAT write of more than one cluster writes the start of the buffer into every cluster. It reads
  back exactly when the bytes repeat from cluster to cluster (`FatWrite.ReadsBackExactly`), which a
  write of at most one cluster always does and `FatWrite.TwoClustersDiffer` shows one that does not.
- `mount` does not look whether its table of 256 is full, and writes a 257th entry behind it; the
  model stops at the 256th.
- `paths_equal` compares 255 characters, `resolve_mountpoint` all of them. Mounting and unmounting
  a path restores the table exactly when no mount had an equal path before
  (`Mounts.MountThenUnmount`).
- `create_path` drops a trailing empty component and every 256th character of one; it reads a path's
  text back exactly when neither happens and there are no more components than asked for
  (`PathParser.RoundTripExactly`, `PathParser.LongIsCut`).
- `itoa` is lossless exactly below base^22, hence for every 64-bit value exactly from base 8 on
  (`Itoa.LosslessExactly`).

## Model

| member | source | states |
|---|---|---|
| Bitmap.SetThenGet | src/utils/bitmap.c:7-24 | after setting bit i of a byte, reading bit j gives the new value for j = i and the old one otherwise, for all eight positions, most significant first |
| Bitmap.Bitmap.Get | src/utils/bitmap.c:7-14 | bm_get answers the flag of the abstract sequence |
| Bitmap.Bitmap.Set | src/utils/bitmap.c:16-24 | bm_set changes exactly one flag of the abstract sequence |
| Bits.WrapsAround | src/memory/phys_allocator.c:18-22 | the counters are added to and subtracted from modulo 2^64 |
| MemoryMap.FindLargest | src/memory/phys_allocator.c:109-120 | the base of the first usable entry of the greatest nonzero length, 0 if there is none |
| MemoryMap.SizeWithEntry | src/memory/memory.c:8-20 | an entry anywhere in the memory map adds its length to the size, modulo 2^64, unless it is reserved, in which case it adds nothing |
| MemoryMap.ReservedDoNotCount | src/memory/memory.c:8-20 | a map has the size of its entries that are not reserved, so maps that differ in reserved entries alone have the same size |
| MemoryMap.BitmapCoversMemory | src/memory/phys_allocator.c:122-124 | the bitmap has a bit for every frame of the memory and at most eight to spare |
| MemoryMap.PagesMeaning | src/memory/phys_allocator.c:130-135 | a length is given the least number of frames with room for it, and none if it is one of the last, for which the rounding wraps |
| MemoryMap.BootStaysInside | src/memory/phys_allocator.c:122-139 | for every memory map: every frame that booting marks has its bit in the bitmap if and only if the bitmap's own frames and every withheld entry end below the last bit (or the bitmap covers all 64-bit addresses) |
| MemoryMap.ReachedIsTaken | src/memory/phys_allocator.c:122-139 | then the frames marked are frame 0, those under the bitmap and those of the withheld entries |
| MemoryMap.FrameBufferAboveBitmap | src/memory/phys_allocator.c:122-137 | 256 MiB of memory and a frame buffer at 0xFD000000: frame 0xFD000 is marked in a bitmap of 0x103F0 bits |
| MemoryMap.ClearIsUsableExactly | src/memory/phys_allocator.c:105-140 | for every memory map: every frame that is clear after boot lies whole in a usable entry if and only if each frame at which what frame 0, the bitmap or an entry accounts for ends is accounted for as well or past the bitmap |
| MemoryMap.FrameIsUsable | src/memory/phys_allocator.c:109-120 | a frame lies in a usable entry exactly if every one of its bytes does |
| MemoryMap.FrameBeyondMemory | src/memory/phys_allocator.c:122-128 | 128 MiB of usable memory and nothing else: frame 0x8000 is clear after boot and lies in no entry |
| PhysAllocator.PhysAllocator.ReadMemoryMap | src/memory/phys_allocator.c:105-140 | after boot a frame is taken if and only if it is frame 0, is under the bitmap, or is one of the length / 4096 frames, rounded up, counted from that of the base of an entry that is neither usable nor reserved; counters agree with the bitmap |
| PhysAllocator.PhysAllocator.ReserveWithheld | src/memory/phys_allocator.c:132-137 | exactly the frames counted for withheld entries become taken in addition |
| PhysAllocator.PhysAllocator.FreePage | src/memory/phys_allocator.c:16-22 | one flag cleared, counters still agree, a repeated free changes nothing |
| PhysAllocator.PhysAllocator.LockPage | src/memory/phys_allocator.c:24-30 | one flag set, counters still agree, a repeated lock changes nothing |
| PhysAllocator.PhysAllocator.ReservePage | src/memory/phys_allocator.c:32-38 | one flag set on the reserved counter's account, used memory unchanged, a repeat changes nothing |
| PhysAllocator.PhysAllocator.ReleasePage | src/memory/phys_allocator.c:40-46 | one flag cleared on the reserved counter's account, used memory unchanged, a repeat changes nothing |
| PhysAllocator.PhysAllocator.FreePages | src/memory/phys_allocator.c:48-52 | exactly the frames of the range become clear |
| PhysAllocator.PhysAllocator.LockPages | src/memory/phys_allocator.c:54-58 | exactly the frames of the range become taken |
| PhysAllocator.PhysAllocator.ReservePages | src/memory/phys_allocator.c:60-64 | exactly the frames of the range become taken, used memory unchanged |
| PhysAllocator.PhysAllocator.ReleasePages | src/memory/phys_allocator.c:66-70 | exactly the frames of the range become clear, used memory unchanged |
| PhysAllocator.PhysAllocator.RequestPage | src/memory/phys_allocator.c:73-83 | the least clear frame, which becomes taken and no other; 0 and no change when all are taken |
| PhysAllocator.PhysAllocator.RequestPages | src/memory/phys_allocator.c:87-103 | the least start of count clear frames in a row, exactly those become taken; 0 and no change when there is no such run |
| PhysAllocator.CountersMeaning | src/memory/phys_allocator.c:16-46 | free = total - 4096 * taken and free + used + reserved = total, both modulo 2^64; the first holds outright if and only if the taken frames do not exceed the memory |
| PhysAllocator.FreeCounterWraps | src/memory/phys_allocator.c:122-139 | one usable page: booting takes two frames, and the free counter becomes 2^64 - 4096 |
| PhysAllocator.ProbeStaysInside | src/memory/phys_allocator.c:88-94 | no scan position reads past the bitmap if and only if nothing is asked for, a run fits, or the last frame is taken |
| PhysAllocator.ProbeLeavesBitmap | src/memory/phys_allocator.c:90-91 | eight frames, the last clear: a request for two probes the bit behind the last |
| AllocatorRuns.StepKeepsInvariant | src/memory/phys_allocator.c:48-103 | each request, return, lock or foreign free keeps live grants disjoint, taken and clear of frame 0, and a new grant is disjoint from all live ones |
| AllocatorRuns.RunsKeepInvariant | src/memory/phys_allocator.c:48-140 | the same over every finite run |
| AllocatorRuns.LiveGrantsNeverShareAFrame | src/memory/phys_allocator.c:73-103 | in every state of every run two live grants that hold a common frame are the same grant, and the frame is not 0 |
| AllocatorRuns.HandedOutOnce | src/memory/phys_allocator.c:48-103 | over every run of requests, returns, marks and unmarks: frames handed out stay taken, and nothing handed out later has one of them, until the very grant is returned |
| AllocatorRuns.BootSatisfiesInvariant | src/memory/phys_allocator.c:105-140 | the state booting leaves satisfies the invariant, with nothing handed out |
| AllocatorRuns.Run | src/memory/phys_allocator.c:48-103 | any sequence of allowed calls of the allocator steps through states that satisfy the invariant and ends in the allocator's own |
| AllocatorRuns.BootAndRun | src/memory/phys_allocator.c:48-140 | the same from boot on |
| AllocatorRuns.LeastClearIsRunOfOne | src/memory/phys_allocator.c:73-103 | request_page grants what request_pages(1) would |
| PageEntry.IndicesRecombine | src/include/syscom/page_map.h:21-24 | the four nine-bit indices determine the virtual page and are determined by it |
| PageEntry.PhysAddrRoundsDown | src/include/syscom/page_map.h:29-31 | masking with ~0xFFF and PAGE_ALIGN both round down to a page |
| PageEntry.TableEntryMeaning | src/memory/page_map.c:30-46 | a table entry is present, no huge page, and leads back to the frame it was made from |
| PageEntry.LeafEntryMeaning | src/memory/page_map.c:48-52 | a last-level entry is present, leads to the physical page asked for and carries the given flags |
| PageEntry.TableRights | src/memory/page_map.c:30-46 | a new table entry permits writing and user mode |
| PageEntry.LeafRights | src/memory/page_map.c:48-52 | a last-level entry permits what its flags do |
| PageEntry.EntryBits | src/include/syscom/page_map.h:9-27 | for every 64-bit entry, what the macros extract in plain arithmetic: bit 0 is PRESENT, bit 1 permits writing, bit 2 user mode, bit 7 is PS, bits 12 to 51 are the frame |
| Mmu.WalkTranslates | src/include/syscom/page_map.h:9-31 | for all contents of memory and every address, the walk written with the macros meets what the processor's four-level translation meets, which is defined apart from them in plain arithmetic: a fault, a large page, or a frame with its rights to write and to user mode |
| Mmu.WayGranted | src/memory/page_map.c:30-46 | and what the model says is permitted on the way of an address is what the entries there permit, read bit by bit |
| Mmu.WritableOrUser | src/memory/page_map.c:48-52 | over tables that withhold nothing, a page mapped with bit 1 and not bit 2 in its flags is writable and closed to user mode, and with bit 2 and not bit 1 the other way round |
| PageTree.SlotsAreDistinct | src/include/syscom/page_map.h:21-24 | two addresses use the same last-level slot if and only if they lie in the same page |
| PageTree.NoTableIsShared | src/memory/page_map.c:20-46 | two paths of entries that lead to the same table frame are the same path |
| PageTree.FollowFindsTables | src/memory/page_map.c:34-46 | following entries from the root succeeds exactly for the tables of the tree and arrives at the frame recorded for them |
| PageTree.NewTableKeepsTree | src/memory/page_map.c:30-45 | hanging a zeroed table from an unused frame under an empty slot leaves a tree |
| PageTree.NewTableKeepsWalks | src/memory/page_map.c:30-45 | and changes the walk of no address, nor what is permitted on its way |
| PageTree.LeafKeepsTree | src/memory/page_map.c:48-52 | setting a last-level slot leaves the tree as it is |
| PageTree.LeafWalks | src/memory/page_map.c:48-52 | and changes the walk of that page and of no other, to the entry narrowed by what the intermediate entries permit |
| PageTree.GrantedExactly | src/memory/page_map.c:30-46 | what is permitted on the way of an address covers given rights if and only if every intermediate entry that leads to a table does |
| PageTree.RootSlotDecides | src/memory/page_map.c:30-33 | an empty root slot withholds nothing; a root entry with PRESENT alone withholds writing and user mode from all behind it |
| PageCost.RangeMissingFirst | src/memory/page_map.c:30-46 | the tables a range of pages lacks are those its first page lacks and then those the rest lacks once they exist |
| PageCost.FourAPageSuffice | src/memory/page_map.c:30-46 | four clear frames a page always pay for a range and its tables |
| MemoryState.HungSound | src/memory/page_map.c:30-33 | a new table in the least clear frame leaves tree, walks, rights and taken frames in order |
| MemoryState.LeafedSound | src/memory/page_map.c:48-52 | so does a last-level slot, whose page then has the entry with the rights the way permits |
| MemoryState.DataWriteKeepsAll | src/programs/elf.c:42-43 | writing a frame that holds no table changes neither the tree nor any walk nor any rights |
| MemoryState.MappedAsAskedExactly | src/memory/page_map.c:20-55 | map_virtual_memory gives a page exactly the rights asked for if and only if every intermediate entry there was on its way permits them |
| PageMap.PageMap.AllocateTable | src/memory/page_map.c:12-17 | the least clear frame becomes taken and all zero, every other frame keeps its contents; with none clear, frame 0 is zeroed |
| PageMap.PageMap.HangTable | src/memory/page_map.c:30-33 | one table joins the tree, one frame is used, no translation changes |
| PageMap.PageMap.Descend | src/memory/page_map.c:30-46 | after the test for PRESENT the next table of the walk exists, at a cost of one frame if and only if it did not exist before |
| PageMap.PageMap.SetLeaf | src/memory/page_map.c:48-52 | the flat map changes at this page only, and no other frame is written |
| PageMap.PageMap.MapVirtualMemory | src/memory/page_map.c:20-55 | in the processor's own translation, every access to the page then reaches the frame at physical_address, with the right to write if flags bit 1 and the way permit it and to user mode if flags bit 2 and the way do (or faults for physical address 0), and every access to any other page meets what it met; the flat map says the same, what is permitted on every way is unchanged, exactly the missing tables are created, and the frames taken are exactly as many of the least clear ones |
| PageMap.PageMap.MapFresh | src/memory/heap.c:17-18 | request_page followed by map_virtual_memory: the page leads to the least clear frame with PRESENT, exactly the given flags, and the rights flags and way permit; the frame holds no table |
| FrameOwnership.OwnsExtend | src/memory/heap.c:113-116 | mapping the next page to a fresh frame extends the range of pages that each own a taken frame holding no table |
| FrameOwnership.OwnsKept | src/memory/page_map.c:20-55 | creating tables and mapping other pages takes no owned frame away |
| FrameOwnership.OpenExactly | src/memory/page_map.c:20-55 | pages mapped PRESENT, RW and USER are writable and open to user mode if and only if every intermediate entry on their way is |
| HeapTiles.SegmentsDisjoint | src/memory/heap.c:85-102 | distinct segments of a tiled heap share no byte and stay inside it |
| HeapTiles.ExpandWellFormed | src/memory/heap.c:104-125 | expansion keeps the tiling, the sizes and that no two neighbours are both free |
| HeapTiles.TakeWellFormed | src/memory/heap.c:44-54 | splitting and taking a segment keeps them |
| HeapTiles.ReleaseWellFormed | src/memory/heap.c:63-83 | freeing with both coalescings keeps them |
| HeapList.SplitHeaders | src/memory/heap.c:91-100 | which header fields a split changes, for every segment of the list |
| HeapList.CombineHeaders | src/memory/heap.c:73-78 | which header fields a merge changes, for every segment of the list |
| HeapList.SegmentList.CombineForward | src/memory/heap.c:70-79 | the linked headers then describe the row with the next free segment swallowed; next and last stay mutual inverses and last_segment the tail |
| HeapList.SegmentList.CombineBackward | src/memory/heap.c:81-83 | the same for a free segment before |
| HeapList.SegmentList.HeapsegSplit | src/memory/heap.c:85-102 | the linked headers then describe the split row; NULL exactly when the segment was left whole |
| HeapList.SegmentList.Append | src/memory/heap.c:118-123 | a free segment joins at the end, linked both ways |
| HeapList.SegmentList.TakeFirstFit | src/memory/heap.c:42-57 | the first segment in list order that is free and large enough is cut and taken; NULL and no change if there is none |
| HeapList.SegmentList.Free | src/memory/heap.c:63-68 | the row after freeing and coalescing both ways |
| HeapTheorems.EnlargedHasFit | src/memory/heap.c:34-61 | after at most two expansions a segment fits, for every size and every well-formed heap |
| HeapTheorems.GrowthExactly | src/memory/heap.c:42-60 | the heap grows by nothing if and only if a free segment is large enough; otherwise by the request in whole pages, and by twice that exactly if the last segment is in use and those pages leave no room for a header |
| HeapTheorems.EnlargedAfterExpand | src/memory/heap.c:59-60 | expanding once and calling malloc again leads to the same row as the specification's two-step enlargement, with one expansion fewer to go |
| HeapTheorems.EnlargedKeepsLive | src/memory/heap.c:104-125 | expansion leaves the segments in use exactly as they are |
| HeapTheorems.MallocGives | src/memory/heap.c:34-57 | the block is 16-byte aligned, at least the rounded size and less than 48 bytes more, at the lowest address that fits; the segments in use gain exactly this one |
| HeapTheorems.AllocatedServes | src/memory/heap.c:34-61 | for every size, what malloc allocates after rounding and expanding has room for the size asked for and less than 48 bytes to spare, is 16-byte aligned and is the only segment newly in use |
| HeapTheorems.MallocIsDisjoint | src/memory/heap.c:34-57 | the block and its header share no byte with any segment in use |
| HeapTheorems.FreeUndoesTake | src/memory/heap.c:63-102 | freeing what was just cut from a segment restores the row exactly |
| HeapTheorems.FreeUndoesMalloc | src/memory/heap.c:34-83 | free(malloc(n)) restores the heap as it was, or as expanded if it had to be |
| HeapTheorems.ReleaseKeepsOthers | src/memory/heap.c:63-83 | free takes one segment out of use and leaves every other exactly as it is |
| HeapTheorems.RunsStayInOrder | src/memory/heap.c:34-125 | every state of every run of malloc and free tiles the heap with no two free neighbours |
| HeapTheorems.StepsExist | src/memory/heap.c:34-68 | in such runs every positive multiple of 16 can be asked for, and exactly the blocks of segments in use can be freed |
| HeapTheorems.KeptUntilFreed | src/memory/heap.c:34-68 | over every run, a segment in use stays where and as it is until its own block is freed, and whatever else is in use shares no byte with it |
| HeapTheorems.AllFreeIsOneSegment | src/memory/heap.c:70-83 | with nothing in use there is one free segment that spans the heap |
| HeapTheorems.FreeingAllRestoresTheHeap | src/memory/heap.c:63-83 | freeing all live blocks, in any order, ends in that state |
| Heap.Heap.constructor | src/memory/heap.c:14-32 | heap_init: one free segment over freshly mapped pages that each own their frame, given exactly a frame for each page and for each missing table; their entries say PRESENT, RW and USER, and their rights are those the way permits |
| Heap.MapNext | src/memory/heap.c:113-116 | one more page that owns its frame, with an entry that says PRESENT, RW and USER and the rights the way permits; no other page's translation and no taken frame without a table changes; what is left pays for the rest |
| Heap.MapRange | src/memory/heap.c:113-116 | the same for a range of pages, at the cost of a frame for each page and for each table the range lacks |
| Heap.Heap.ExpandHeap | src/memory/heap.c:104-125 | the row and the mapped pages grow by the amount rounded up to pages, merged with a free tail |
| Heap.RoundedMeaning | src/memory/heap.c:35-40 | the rounded size is a multiple of 16 with room for the size asked for and less than 16 bytes more; it is 0 exactly for 0 and for the sizes above 2^64 - 16 |
| Heap.Heap.Malloc | src/memory/heap.c:34-61 | terminates; NULL and no change exactly for size 0 and the sizes above 2^64 - 16, whose rounding wraps; otherwise the address of a 16-byte aligned block with room for the size and less than 48 bytes to spare, of a segment that is now in use and was not, all others in use being kept; it is the block specified, and the heap grows by exactly the expansions needed |
| Heap.Heap.Free | src/memory/heap.c:63-68 | the row after freeing, over the same pages |
| Heap.ClearFramesAreForeign | src/memory/phys_allocator.c:73-83 | a frame request_page may hand out next holds no page table and backs no heap page |
| Heap.HeapPagesShareNothing | src/memory/heap.c:104-116 | no two heap pages lead to the same frame |
| VirtualMemory.ReadShown | src/programs/elf.c:29-43 | bytes that lie in memory, in pages that own their frames, are what is read there |
| VirtualMemory.ByteTranslated | src/programs/elf.c:29-43 | a load reads the byte at the address's offset in the frame the processor's translation leads to, or faults with it |
| VirtualMemory.TableAsBytes | src/include/syscom/page_map.h:33-37 | a page table read as bytes is its 512 entries, eight little-endian bytes each |
| VirtualMemory.StoreByte | src/programs/elf.c:42-43 | a byte stored through the page tables changes that byte of the backing frames and nothing else |
| VirtualMemory.CopyIn | src/programs/elf.c:43-43 | memcpy between virtual addresses: each byte is loaded through the walk and stored through it, and the frames end up with the source's bytes |
| ElfLoader.AlignedPagesOnly | src/programs/elf.c:34-40 | the mapping loop maps the j-th page to the j-th frame if and only if the base is page-aligned, and to the frame before it otherwise |
| ElfLoader.UnalignedBaseMissesFrame | src/programs/elf.c:33-41 | request_pages and the mapping loop for a one-page segment based at 0x1800, with frame 5 the first clear one: its page leads to frame 4, which was taken |
| ElfLoader.MapSegment | src/programs/elf.c:34-41 | for every base, with the header read again in every round: the segment's pages lead, in order, to the granted frames if the base is page-aligned and each to the frame before its own otherwise; every other page is mapped as before and the tables added are those needed |
| ElfLoader.MapGrant | src/programs/elf.c:33-41 | request_pages and the mapping loop, for every base: the least fitting run goes to the segment, then the least clear frames to the missing tables; for an unaligned base the first page leads to a frame that was taken before |
| ElfLoader.OwnersLoseExactly | src/programs/elf.c:33-41 | a page that owned its frame still leads to it if and only if it is not one of the segment's |
| ElfLoader.DataStaysExactly | src/programs/elf.c:29-43 | what lies in memory stays where it lay if and only if the segment takes none of its pages |
| ElfLoader.SegmentOverItsHeader | src/programs/elf.c:33-43 | a one-page segment over its own header's page, with a first clear frame of zeros: the header reads as zeros from then on, so loop, memset and memcpy do nothing more and the page is all zeros |
| ElfLoader.FileAtHeapStart | src/programs/elf.c:33-43 | the same for a file at the start of the heap with a segment of 16 bytes at 0x100000000000 |
| ElfLoader.LoadSegment | src/programs/elf.c:33-43 | one PT_LOAD entry of a file that lies on none of the segment's pages, given a run of frames for its pages and a frame for each missing table: its pages lead to fresh frames that hold the file's bytes and then zeros; the file still lies where it lay; taken frames are not disturbed; the frames left are determined |
| FrameSupply.SegmentTakesFront | src/programs/elf.c:33-41 | within a clear run, a segment and its tables take at most four frames a page, from the run's start on |
| FrameSupply.RunSuffices | src/programs/elf.c:28-49 | one clear run with four frames for each page of the segments and of the stack pays for all of them in turn |
| ElfLoader.ResidentKept | src/programs/elf.c:28-44 | later segments and tables leave a loaded segment in memory |
| ElfLoader.ReadBack | src/programs/elf.c:33-43 | the walk of every address of a loaded segment ends at the frame that holds the segment's byte |
| Elf.LoadSegments | src/programs/elf.c:28-44 | after the loop over the headers, each read where the file lies, all PT_LOAD segments are in memory in frames that were clear, only their pages are mapped anew, the file still lies where it lay, and the frames left are determined |
| Elf.MapStack | src/programs/elf.c:46-49 | the five stack pages each own a frame that was clear, with entries that say PRESENT, RW and USER and the rights the way permits; no other page is mapped |
| Elf.ElfLoad | src/programs/elf.c:12-51 | without the magic nothing changes; otherwise all segments and the stack are in place, every other page is mapped as before, no taken frame that holds no table is written, the file still lies where it lay, and the entry point returned is the number whose eight little-endian bytes are bytes 24 to 31 of the file |
| Elf.OneRunIsEnough | src/programs/elf.c:28-49 | a program whose segments and stack have room can be loaded if there is one clear run with four frames a page |
| Elf.LoadKeepsOwners | src/programs/elf.c:12-51 | a range of pages that own their frames, such as the heap's, still leads to them after loading a program if and only if the program asks for none of the pages, and then they hold what they held |
| ElfFile.HeaderOffsetIs | src/programs/elf.c:28-30 | the i-th program header lies i entry sizes behind the table's start |
| ElfFile.ProgramHeaderReads | src/include/syscom/elf.h:59-68 | the eight fields of elf_program_header, laid one after the other with their widths, are read as those fields, wherever they lie |
| ElfFile.ElfHeaderReads | src/include/syscom/elf.h:37-57 | the nineteen fields of elf_header, laid out likewise, are read as those fields: the magic, the entry point, the table of program headers with its entry size and count |
| ElfFile.ApartExactly | src/programs/elf.c:28-44 | segments asked to be apart are those that have no page in common |
| ElfFile.LaidEntry | src/programs/elf.c:28-44 | for a program header given by its fields: exactly when the loader can load it, and then the segment starts at virtual_base, spans the least number of pages with room for size_memory, and holds the bytes of the file from data_offset on, then zeros |
| Elf.LoadedProgramReadsBack | src/programs/elf.c:28-44 | every address of every PT_LOAD entry reads as the file's byte for the first size_file bytes and as zero up to size_memory, with the rights the way permits |
| Elf.LaidProgramReadsBack | src/programs/elf.c:28-44 | the same from the bytes of the file: its header and program header are given by the fields laid out in them |
| ByteSeq.Le32Reads | src/include/syscom/elf.h:59-68 | four bytes that are those of a number, least significant first, are read as it |
| ByteSeq.Le64Reads | src/include/syscom/elf.h:37-57 | eight bytes likewise |
| ByteSeq.LittleByte | src/include/syscom/elf.h:37-57 | byte i of a number is what is left of it after division by 256 to the power i, modulo 256 |
| Gpt.ReadPartition | src/fs/partitions/gpt.c:26-29 | the sectors at the partition's start plus the offset, or failure exactly when one of them cannot be reached |
| Gpt.ReadableSectors | src/fs/partitions/gpt.c:26-29 | a range of sectors can be read exactly if each of them is on the device and not bad |
| Gpt.WritePartitionOffset | src/fs/partitions/gpt.c:36-53 | on success exactly the named bytes of the disk change, on failure none; succeeds exactly when the bytes lie inside the sectors named and those can be reached |
| Ext2Tree.DataListSafeExactly | src/fs/ext2.c:122-129 | reading a list of data blocks stays inside its pointer block if and only if a zero ends it or the budget does not outlast it |
| Ext2Tree.SinglySafeExactly | src/fs/ext2.c:117-131 | the same for the singly indirect block |
| Ext2Tree.SafeExactly | src/fs/ext2.c:117-190 | reading a tree of any level stays inside its pointer blocks if and only if no full pointer block in it has its data blocks end before the budget does |
| Ext2Tree.ListSafeExactly | src/fs/ext2.c:122-129 | the same for a list of pointers of any level, the list itself included |
| Ext2Tree.InodeSafeExactly | src/fs/ext2.c:104-190 | the same for the whole inode: the leading direct blocks are within the budget and no full pointer block of its three trees ends before the budget does |
| Ext2Tree.FullFileSafeExactly | src/fs/ext2.c:117-131 | full direct pointers and a full singly indirect block are read safely if and only if the budget ends with them |
| Ext2Tree.FullBlockOverrun | src/fs/ext2.c:117-131 | twelve direct blocks and a full block of 256 pointers are overrun with a budget of 269 blocks and not with one of 268 |
| Ext2Tree.DoublyReachedOnlyPastAHole | src/fs/ext2.c:117-157 | when reading is safe and goes on after the singly indirect block, that block has a zero in it |
| Ext2Tree.BlockMap | src/fs/ext2.c:106-131 | block k of the file is direct pointer k, or the number in bytes 4(k - 12) to 4(k - 12) + 3 of the singly indirect block |
| Ext2Tree.PointersOfPacked | src/fs/ext2.c:121-123 | a block that consists of the little-endian bytes of some numbers has exactly those for its pointers, in that order |
| Ext2.BlockSizeIs | src/fs/ext2.c:102-103 | a block has 1024 * 2^shift bytes |
| Ext2.PartitionServes | src/fs/ext2.c:117-117 | a partition that holds blocks one after the other from its first byte on serves those blocks by their numbers and no others |
| Ext2.ReadList | src/fs/ext2.c:122-129 | a pointer loop writes no further than the blocks it reads, and blocks read plus budget left is constant, whatever is read; when all is well it appends the blocks under the list, cut at its first zero and at the budget |
| Ext2.ReadIndirect | src/fs/ext2.c:133-190 | the same for a pointer block of any level, which when all is well appends its data blocks in order, truncated to the budget |
| Ext2.ReadDirect | src/fs/ext2.c:106-115 | the leading nonzero direct pointers are read, whatever the budget; a zero ends the file by setting the budget to 0, otherwise 12 is taken off it in 64 bits |
| Ext2.BlocksInTurn | src/fs/ext2.c:106-190 | the file is its direct blocks and then what each tree in turn contributes with the budget the ones before left |
| Ext2.GetInodeData | src/fs/ext2.c:99-193 | whatever reads fail and whatever lies behind pointer blocks, nothing past the budget, or past the direct blocks in front of a zero, is written; when the blocks can be read and no pointer block is overrun, the buffer starts with the in-order flattening of the pointer tree truncated to the budget, and everything after it is untouched |
| Ext2File.BudgetIsExact | src/fs/ext2.c:104-104 | k blocks fit in the sectors used if and only if k does not exceed the budget |
| Ext2File.AllocationSuffices | src/fs/ext2.c:279-280 | the buffer the callers allocate holds the whole budget if and only if fewer than 2^23 sectors are used |
| Ext2File.BlocksWithinBudget | src/fs/ext2.c:104-190 | a file never has more blocks than its budget, or than direct blocks in front of a zero |
| Ext2File.WithinSectorsExactly | src/fs/ext2.c:104-190 | what may be written ends within sectors_used * 512 bytes if and only if the direct blocks in front of the first zero are within the budget |
| Ext2File.RangeInBlock | src/fs/ext2.c:110-110 | bytes inside block k of the file are those bytes of its k-th block |
| Ext2File.FromDiskExactly | src/fs/ext2.c:277-286 | the bytes a read returns are independent of what heap memory held, and those of the disk, if and only if the file has blocks for all of them |
| Ext2File.SparseFileReadsHeap | src/fs/ext2.c:108-110 | a file whose first pointer is zero has no blocks, so no byte of any read of it comes from the disk |
| Ext2File.File.ReadFile | src/fs/ext2.c:277-286 | the next min(size, file size - seek) bytes of the file's blocks followed by what heap memory held, which are the file's own as far as it has blocks; seek moves past them and never past the size; the rest of the caller's buffer is untouched |
| Ext2File.File.ReadAll | src/fs/ext2.c:277-286 | a run of reads with any requests returns, in all, what one read of their sum would, and leaves seek where it would |
| Ext2File.ReadsCompose | src/fs/ext2.c:277-286 | a sequence of chunks, each where the one before ended, concatenates to one chunk of the summed sizes |
| Ext2File.ReadsReachTheEnd | src/fs/ext2.c:277-286 | reads that ask for at least what is left, one by one or at once, return all of it, and the next returns nothing |
| Ext2Inode.DescriptorAddress | src/fs/ext2.c:71-77 | block and position recombine to bgdt_start * block_size + 32 * group if and only if the group is below 2^27, and a descriptor never straddles a block |
| Ext2Inode.InodeAddress | src/fs/ext2.c:85-93 | block and offset recombine to index * inode_size if and only if that is below 2^32, and the inode lies whole inside one block in either case |
| Ext2Inode.PowersDivide | src/fs/ext2.c:86-88 | every power of two from 128 to the block size is an inode size for which that holds |
| Ext2Inode.InodesDisjoint | src/fs/ext2.c:85-93 | distinct inodes of a group occupy disjoint bytes |
| Ext2Inode.NumberFromGroup | src/fs/ext2.c:73-85 | group and index recombine to inode - 1, so distinct inode numbers differ in one of them |
| Ext2Inode.InodeIsEntry | src/fs/ext2.c:73-88 | inode number i, from 1 on, is entry i - 1 of the inode tables of all groups, one after the other, whether the entry size is fixed at 128 or named by the superblock |
| Ext2Inode.TableAfterSuperblock | src/fs/ext2.c:72-72 | the group descriptors start in the block after the one that holds the superblock |
| Ext2Inode.DescriptorReads | src/include/syscom/fs/ext2.h:100-108 | the fields of a group descriptor, laid one after the other with their widths, have the inode table where it is looked for |
| Ext2Inode.InodeReads | src/include/syscom/fs/ext2.h:110-136 | the fields of an inode, laid out likewise, are read as the twelve direct pointers, the three indirect ones, the sectors used and the size |
| Ext2Inode.GetInode | src/fs/ext2.c:67-97 | with both tables as flat arrays, the inode read is the one at index * inode_size, modulo 2^32, of the table that the descriptor of the group, modulo 2^27, names |
| FatChain.Masked | src/fs/fat.c:87-87 | the mask keeps exactly the low 28 bits of an entry |
| FatChain.ContentIs | src/fs/fat.c:253-266 | on a disk that holds, from the partition's first byte on, the reserved sectors, the copies of the FAT and the clusters, cluster c is the (c - 2)-th of those clusters |
| FatChain.NextIs | src/fs/fat.c:79-88 | and what follows cluster c is the number in bytes 4c to 4c + 3 of the first copy of the FAT, modulo 2^28 |
| FatChain.ReadableIs | src/fs/fat.c:279-279 | a cluster can be read exactly if each of its sectors can, and what follows it exactly if the sector with bytes 4c to 4c + 3 of the first copy of the FAT can |
| FatChain.ChainEnds | src/fs/fat.c:265-265 | a chain ends exactly at a cluster number from 0x0FFFFFF7 on, or when nothing more is wanted |
| FatChain.ShorterChain | src/fs/fat.c:265-288 | a shorter read visits the first clusters of a longer one, and if fewer, they hold all it wants |
| FatChain.ReadLength | src/fs/fat.c:265-288 | the bytes read are min(want, chain length * cluster bytes) however far the chain is followed |
| FatChain.ChainIsNeeded | src/fs/fat.c:265-288 | every cluster visited contributes at least one byte |
| Fat.NextCluster | src/fs/fat.c:79-88 | the low 28 bits of the cluster's FAT entry; some 28-bit number when the FAT cannot be read |
| Fat.ReadChain | src/fs/fat.c:261-290 | the loop ends even on a cyclic FAT, with the first bytes of the concatenated chain in the buffer and nothing after them changed, or with 0 when a needed cluster cannot be read |
| Fat.WriteChain | src/fs/fat.c:393-421 | the disk is as written by the specification up to the first cluster that cannot be reached; the count returned, and 0 if there was one |
| FatFile.File.ReadFile | src/fs/fat.c:249-291 | the first min(size, file size, chain bytes) bytes of the chain, or 0 on a failed read |
| FatFile.File.Write | src/fs/fat.c:377-422 | directories are refused untouched; otherwise the clusters written, the count, and the size recorded in the directory entry only if no write failed |
| FatFile.FirstCluster | src/fs/fat.c:258-260 | a file's first cluster is the number whose four bytes are those of the two halves in its directory entry |
| FatWrite.WrittenKeepsFat | src/fs/fat.c:410-412 | no FAT entry changes |
| FatWrite.WrittenKeepsOthers | src/fs/fat.c:410-412 | no byte of any other cluster changes |
| FatWrite.OtherFilesReadAsBefore | src/fs/fat.c:393-421 | a file whose chain shares no cluster with the one written has the same chain and the same bytes |
| FatWrite.WrittenContents | src/fs/fat.c:409-412 | each cluster written holds the start of the buffer and then what it held before |
| FatWrite.OneClusterReadsBack | src/fs/fat.c:377-422 | a write within one cluster reads back as the bytes written, then the old rest |
| FatWrite.ReadsBackExactly | src/fs/fat.c:408-416 | a write of any length reads back if and only if its bytes repeat from cluster to cluster, which a write of at most one cluster always does |
| FatWrite.TwoClustersDiffer | src/fs/fat.c:408-416 | on a volume with one-sector clusters and the chain 2, 3, writing 512 ones and 512 twos leaves 1024 ones |
| FatFile.FileAfterWrite | src/fs/fat.c:377-422 | after a write within the first cluster the whole file consists of the bytes written and then what it held |
| FatFile.ReadAfterWrite | src/fs/fat.c:249-291 | a read of any length through the same open file after such a write follows the same chain and sees that content |
| FatFile.WriteThenRead | src/fs/fat.c:249-422 | a write of at most one cluster and then a read through the same open file return the bytes written and then the old rest, as far as the read asks for it |
| Mounts.SameStartExactly | src/utils/string.c:55-67 | strncmp answers 0 if and only if the first n characters agree |
| Mounts.PathsEqual | src/fs/fs.c:58-66 | equal if and only if as deep and component by component equal in the first 255 characters |
| Mounts.EqualIsEquality | src/fs/fs.c:58-66 | which is equality for components of at most 255 characters |
| Mounts.MountTable.MountAt | src/fs/fs.c:68-73 | up to the table's 256 entries: the mount joins at the end; a failed mount is stored as well and spoils the table |
| Mounts.MountTable.Unmount | src/fs/fs.c:75-92 | the first mount with an equal path goes, the rest keep their order; no change and an error if there is none |
| Mounts.MountTable.ResolveMountpoint | src/fs/fs.c:94-117 | the longest mounted prefix of the path, the latest of those that tie; nothing if and only if no mount is a prefix |
| Mounts.StripMountpoint | src/fs/fs.c:120-134 | the mount's path followed by what is left equals the path |
| Mounts.MountTable.Locate | src/fs/fs.c:143-148 | fopen hands the resolved mount the rest of the path |
| Mounts.ResolvedOnce | src/fs/fs.c:94-117 | at most one mount meets the specification of resolution |
| Mounts.TiesAgree | src/fs/fs.c:111-114 | mounts that match a path at the same depth are at the very same path |
| Mounts.MountTakesOver | src/fs/fs.c:68-117 | a new mount takes over exactly the paths below it whose mount was no deeper |
| Mounts.UnmountKeepsOthers | src/fs/fs.c:75-117 | removing a mount a path does not resolve to leaves its resolution as it was |
| Mounts.UnmountKeepsUnresolved | src/fs/fs.c:75-117 | a path without a mount stays without one |
| Mounts.MountThenUnmount | src/fs/fs.c:68-92 | mounting and unmounting a path restores the table if and only if no mount had an equal path |
| Mounts.MountThenUnmountRestores | src/fs/fs.c:68-117 | and then every path resolves as before |
| Mounts.OlderMountIsRemoved | src/fs/fs.c:75-92 | mounting over a mount and unmounting takes the older one away |
| PathParser.CreatePath | src/fs/fs.c:18-52 | the loop computes the parse specified character by character, with at most depth components |
| PathParser.RoundTripExactly | src/fs/fs.c:18-52 | for every path: its text parses back to it if and only if it has no more components than asked for, each is at most 255 characters long and has no slash, and the last one is not empty |
| PathParser.LongIsCut | src/fs/fs.c:25-45 | a component ends after 255 characters, and the character after those is lost |
| PathParser.TrailingSlashLost | src/fs/fs.c:25-45 | /a/ and /a parse alike |
| Itoa.Converter.Itoa | src/utils/string.c:41-53 | the string denotes the value modulo base^22, every character is a digit of the base, there is no leading zero unless all 22 digits are used, which they are from base^22 on, and 0 gives "0" |
| Itoa.NumeralIsUnique | src/utils/string.c:41-53 | two strings of digits that denote the same value and have the same length are equal, so the text is determined |
| Itoa.LosslessExactly | src/utils/string.c:41-53 | a value survives if and only if it is below base^22, every 64-bit value if and only if the base is at least 8 |

## Left out

- Heap.Heap.Malloc: requires a frame for each page it has to map and for each table they lack, and no huge page where the heap grows, because the code handles neither.
- PageMap.PageMap.MapVirtualMemory: requires that no huge page covers the address and that enough frames are clear, because the code handles neither; flags must have no address bits; TLB invalidation and the log line are not modelled.
- PageMap.PageMap.HangTable: requires a clear frame, as PageMap.PageMap.Descend and PageMap.PageMap.MapFresh do; PageMap.PageMap.AllocateTable says what happens without one.
- FrameOwnership.OpenExactly: access rights are those of read/write and user/supervisor; no-execute, protection keys and supervisor-mode exceptions are not modelled.
- PhysAllocator.PhysAllocator.ReadMemoryMap: requires that booting stays inside the bitmap (MemoryMap.BootStaysInside says exactly when it does) and that the bitmap has no bits beyond 52-bit physical addresses; the bitmap's own bytes are a separate array and not part of physical memory.
- PhysAllocator.PhysAllocator.RequestPages: requires that the scan stays inside the bitmap (PhysAllocator.ProbeStaysInside says exactly when it does) and a count below 2^31, because the parameter is an `int`; negative counts are not modelled.
- PhysAllocator.PhysAllocator.ReserveWithheld: requires that the withheld entries end inside the bitmap, as MemoryMap.BootStaysInside says.
- Elf.ElfLoad: requires page-aligned, page-disjoint segments of fewer than 2^31 pages below the stack whose headers and bytes lie inside the file, none of which nor the stack takes a page the file lies on (ElfLoader.DataStaysExactly and ElfLoader.FileAtHeapStart say why), and for each segment in turn a run of frames and a frame for each missing table (Elf.OneRunIsEnough), because the code handles neither; the check of data_size only logs in the source, so a file shorter than its header is excluded; the jump to user mode is the returned entry point.
- ElfLoader.LoadSegment: requires a page-aligned base; ElfLoader.MapSegment has the mapping for every base.
- Gpt.WritePartitionOffset: requires fewer than 2^23 sectors, because `512 * count` wraps in 32 bits from there on and the buffer no longer holds what is read.
- Ext2.GetInodeData: requires that, if all twelve direct pointers are in use, the budget is at least 12, because it wraps around otherwise and the code reads on past its buffer; the model calls it a fault when pointers are looked for further past the end of a block than memory goes on.
- Ext2File.File.ReadFile: what the allocated buffer and the memory behind it held is a parameter; fewer than 2^23 sectors, as Ext2File.AllocationSuffices asks for.
- Ext2.ReadIndirect: the source writes the pointer loop out once for each of its levels, one inside the other; the model has one recursive method for all of them, with the same steps.
- Ext2Inode.GetInode: requires inode sizes that divide the block size and readable tables; the superblock's fields are parameters, mounting is not modelled.
- Fat.ReadChain: requires a readable FAT along the chain; where it is not, the code follows whatever its buffer held, as Fat.NextCluster states.
- Fat.WriteChain: requires clusters in the data region whose entries lie in front of it, no wrap-around in the volume's sector numbers, and a readable FAT along the chain.
- FatFile.File.ReadFile: the seek position is 0, which no FAT function changes, so skipping clusters is not modelled; the same holds for FatFile.File.Write.
- Mounts.MountTable.ResolveMountpoint: requires that no failed mount is in the table, because the code would follow the null pointer; strings hold no NUL character.
- Mounts.MountTable.MountAt: requires fewer than 256 mounts, because the source has no such test and writes past the array.
- PathParser.CreatePath: the one-byte terminator behind a component of 255 characters is not modelled, nor is the empty string, on which the code reads past the end.
- Physical memory is a sequence of frames that hold either a table or bytes, with the direct-map offset as the identity.
- Segment headers live in a map from address to header and not in the heap's pages, so a caller that writes outside its block is outside the model.
- Disk failures are a fixed set of bad sectors; AHCI registers, DMA buffers and busy-waiting are not modelled.
- Temporary buffers that the file systems allocate with malloc are plain sequences or fresh arrays.
- Directory reading, file-name matching, long names, time stamps and stat, in both file systems.
- Port I/O, descriptor tables, interrupts, system calls, PCI, ACPI, console, fonts, logging and formatting other than itoa.
- gpt_write_partition, is_gpt and partition registration would add only easy members.
