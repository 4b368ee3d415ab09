# MikeOS memory management, modelled in Dafny

A model of MikeOS's memory management and of what sits directly on it, with proofs. `dafny verify dfyconfig.toml`
checks all of it.

* **Paging** (`Paging`, `Machine`, `VirtualMemory`): physical memory is 2^20 frames of 1024 words, and every load and store
  is walked through the tables CR3 points to. `mmap` edits those tables through the recursive window, so each store goes
  through the tables it changes; the methods do what the code does, and are proved equal to a direct edit of one frame.
* **Ownership** (`Ownership`, `MmapTheorems`, `AddressSpaces`, `EarlyPaging`): from boot on, every frame a directory, a page
  table, a user page or a heap page lives in is unavailable and referenced from one place, in every run of space
  creation, heap growth, switch, mmap and stores to user memory.
* **Loading programs** (`UserMemory`, `ElfLoader`, `ElfImage`): a file written in the ELF format is decoded to the headers it
  was written with, and a load leaves each segment's memory equal to its file bytes and zeros.
* **Frame allocator** (`Bits`, `PhysicalMemory`): the packed bitmap refines a set of frames.
* **Kernel heap** (`KHeap`, `KMalloc`): page runs and their table; blocks that tile the pages.
* **Round trips** (`InitrdImage`, `Initrd`, `File`, `Stdio`, `List`): disk image writer and reader, printed numbers, the list.

The code is modelled as written. Objects it updates in place are classes; the functions beside them say what an update
is, and the lemmas are about those functions. Clocks, devices and the screen are not in it. Where the code does not do what it
is evidently for, a lemma says exactly when it does:

* `mmap`, the page-directory allocation and the kernel heap ignore a failed allocation (`MmapOwnedIff`, `StarvedRange`,
  `CreateOwnedIff`, `HeapMapOwnedIff`, `FailedCreationIff`).
* `mmap` accepts a page count that wraps to nothing (`MmapTurnsExact`, `MmapWraps`).
* The loader clears the end of a segment's last page only when `p_memsz > p_filesz` (`LoadedSegmentBytes`,
  `TailNotCleared`), fails for a segment at address 0 or without file bytes (`AcceptableIff`), reads from the wrong place
  when a seek is rejected (`LoadAtExact`, `ElfRoundTrip`), and `load_elf` reports success when loading failed (`LoadElf`,
  `SuccessWithoutLoading`).
* `kmalloc` splits a block into two that overlap by two units, for good (`TakeTilesIff`, `RunsTileIff`). Growth never
  satisfies a request over 511 units (`LargeSearchFails`), and free pages that straddle a byte of the heap's bitmap are
  missed (`SearchMissesIff`, `StraddlingPagesMissed`). The last seven sizes wrap to a block of no units (`UnitsLeast`).
* The search for free pages loses count when a run breaks, misses runs that reach the end and looks at one window only
  (`FindContinuousBlocksIndexWritten`, `GetFreeContinuousBlocksAddressWritten`). Creation of address spaces is stated for the
  search as written and for the one that resets its count (`AllocPageDir`, `WrittenSinglePageIff`); `kmalloc` uses the latter.
* Heap pages from 1024 on share a table entry with others (`HeapPageUsableIff`); freed heap pages keep their frames
  (`FreedFrameReturnsIff`).
* Regions that reach 4 GB give wrong frames or stop the kernel (`RegionExactIff`, for instance `HighRegionAliases`).
* `free_physical_page` returns an inverted code, and `unregister_physical_pages` leaves a stale flag (`UnregisterFlagHonestIff`).
* The image writer lets through 20-byte names the reader may not find (`FullNameFoundIff`, `FullNameNotFound`).
* SEEK_CUR wraps modulo 2^32 (`SeekRejectedIff`) and SEEK_END moves forward from the offset without a bound
  (`SeekEndInRangeIff`).
* Right-padding a number with zeros changes it (`BothFlagsReadBackIff`); a format that ends inside a conversion is read
  past its end (`ReadsPastEndIff`).

## Model

| member | source | states |
|---|---|---|
| Paging.WindowHits | include/mm/paging.h:28-39 | with slot 1023 holding the directory itself, 0xFFC00000 + 4*(1024*d + t) is entry t of the table in slot d, faults exactly when slot d is not present, and 0xFFFFF000 + 4*d is slot d |
| VirtualMemory.SetTableEntry | kernel/mm/virtual_mm_manager.c:164-166 | store plus attribute update through the window change exactly the one entry meant, although both stores are walked through the tables being changed |
| VirtualMemory.EditEntryAttributes | kernel/mm/virtual_mm_manager.c:26-32 | ors the attributes into the word the walk reaches; a null pointer changes nothing |
| Paging.AttributesAdded | kernel/mm/virtual_mm_manager.c:26-32 | the three attribute bits are the low bits of an entry: or-ing them in leaves bits 3 to 31 and sets the low ones to 7, or to 3 for a kernel entry that was not a user entry |
| VirtualMemory.WindowPageSafe | kernel/mm/virtual_mm_manager.c:161 | clearing a table through the window reaches only that table: the page it is seen at is mapped, and to a frame no walk of the range reads |
| VirtualMemory.WholePageWritten | kernel/mm/virtual_mm_manager.c:161 | the byte-by-byte memset of one aligned page zeroes its frame and no other |
| VirtualMemory.InstallTable | kernel/mm/virtual_mm_manager.c:157-162 | the new page table is a fresh zeroed frame in the right slot, no other frame or slot differs |
| VirtualMemory.MapUserVirtualAddressToPhysical | kernel/mm/virtual_mm_manager.c:149-167 | the window code has exactly the direct effect on frames: one entry written, a table created only if the slot was empty |
| VirtualMemory.PageExists | kernel/mm/virtual_mm_manager.c:169-178 | both window reads reach present tables and decide whether the page has an entry |
| VirtualMemory.MmapPageKeepsWindow | kernel/mm/virtual_mm_manager.c:184-206 | slot 1023 stays recursive and every used user slot stays present in every turn of mmap |
| VirtualMemory.Mmap | kernel/mm/virtual_mm_manager.c:184-206 | acceptance test and whole effect, 32-bit wrap included: the loop through the window equals mapping the pages one after another |
| VirtualMemory.MmapAcceptsIff | kernel/mm/virtual_mm_manager.c:186-194 | which calls mmap accepts, in one formula: an aligned user address whose end, modulo 2^32, is below 0xC0000000 |
| VirtualMemory.MmapTurnsExact | kernel/mm/virtual_mm_manager.c:186-197 | an accepted call visits as many pages as asked for if and only if the range ends below the kernel without wrapping |
| VirtualMemory.MmapWraps | kernel/mm/virtual_mm_manager.c:186-197 | a count of 2^20 pages is accepted and maps nothing |
| MmapTheorems.MmapMapsPrivately | kernel/mm/virtual_mm_manager.c:149-206 | with enough frames the range becomes present, writable, user memory in frames of its own, mapped pages keep their frames, every other page below the window translates as before, only the directory and its tables are written, and exactly the needed frames are used |
| MmapTheorems.MmapOwnedIff | kernel/mm/virtual_mm_manager.c:159-201 | unchecked allocation: frame ownership survives mmap if and only if there is a frame for each missing page and each missing table |
| MmapTheorems.StarvedRange | kernel/mm/virtual_mm_manager.c:159-201 | with fewer frames a user page or table is mapped to frame 0 |
| MmapTheorems.NeededSteps | kernel/mm/virtual_mm_manager.c:197-203 | the frames a range needs go down by exactly what each turn takes |
| Ownership.NoSharing | kernel/mm/virtual_mm_manager.c:38-68 | two mappings with the same frame are the same page of the same space, and that frame is unavailable |
| Ownership.UserTranslation | kernel/mm/virtual_mm_manager.c:149-178 | a user page is mapped iff both entries are non-zero, and then present, writable, user, to a frame owned for that very page |
| Ownership.KernelSlotsAgree | kernel/mm/virtual_mm_manager.c:50-58 | all directories agree on slots 768 to 1022 |
| Ownership.InstallOwned | kernel/mm/virtual_mm_manager.c:157-162 | a new table keeps the ownership invariant |
| Ownership.PutOwned | kernel/mm/virtual_mm_manager.c:164-166 | a new page keeps the ownership invariant |
| Ownership.TakeFrame | kernel/mm/physical_mm_manager.c:140-166 | under the invariant the allocator hands out a frame nobody uses |
| AddressSpaces.AllocPageDir | kernel/mm/virtual_mm_manager.c:38-68 | for the page search as written and with its count reset: when it has a result, and then which of three things happens with the whole state after each: no free heap page, so failure with heap page 0 replaced; the lowest free page has no table entry, so a fault; otherwise, through the heap address, exactly the directory of CreateSpace in the frame kheap_get_physical_address reports |
| AddressSpaces.OwnedHeapWindow | kernel/mm/virtual_mm_manager.c:38-68 | what that code relies on follows from the ownership invariant |
| AddressSpaces.BuildPageDir | kernel/mm/virtual_mm_manager.c:47-67 | the stores through a mapped heap page build the directory; a page past the table faults at the first one |
| AddressSpaces.SetDirectoryEntry | kernel/mm/virtual_mm_manager.c:53-54 | a store through the heap address changes one slot of the new directory |
| AddressSpaces.CreateOwnedIff | kernel/mm/virtual_mm_manager.c:38-68 | unchecked results: creating a directory on a heap page keeps the ownership invariant if and only if the page was not in use and a frame could be had |
| AddressSpaces.HeapMapOwnedIff | kernel/mm/kheap.c:48-59 | likewise for mapping any heap page |
| AddressSpaces.FailedCreationIff | kernel/mm/kheap.c:141-148 | a creation that finds no heap page, and so maps page 0, keeps the invariant if and only if page 0 was not in use and a frame could be had |
| AddressSpaces.NextKeepsConsistent | kernel/mm/virtual_mm_manager.c:38-206 | creation, heap growth, switch, mmap and stores to user memory each keep the invariant |
| AddressSpaces.DataOnlyIsUserWrites | kernel/multitask/elf_loader.c:179-189 | what the loader stores is such a step |
| AddressSpaces.RunsKeepSpacesApart | kernel/mm/virtual_mm_manager.c:38-206 | in every state of every run no two spaces share a user frame, mapped user frames are unavailable, and all spaces agree on the kernel half |
| EarlyPaging.CreateKernelPageTables | kernel/mm/early_paging_manager.c:27-41 | entry (i, j) maps frame 1024*i + j, present and writable |
| EarlyPaging.MapKernelTablesAt | kernel/mm/early_paging_manager.c:46-65 | the kernel tables go to two consecutive slots and nothing else changes |
| EarlyPaging.PagingInit | kernel/mm/early_paging_manager.c:84-92 | the complete content of tables and directory |
| EarlyPaging.BootTranslation | kernel/mm/early_paging_manager.c:27-92 | the complete boot mapping, both directions: 8 MB at 0 and at 0xC0000000, the window, nothing else |
| EarlyPaging.BootAddresses | kernel/mm/early_paging_manager.c:27-92 | an address below 8 MB maps to itself and so does its copy at 0xC0000000 |
| EarlyPaging.InitBoots | kernel/mm/early_paging_manager.c:84-92 | the arrays paging_init leaves are the memory of that mapping |
| EarlyPaging.InitKernel | kernel/entry.c:85-98 | phy_memory_manager_init and kheap_init on the boot mapping lead to a state the runs may start from, or panic exactly when the memory map makes them |
| EarlyPaging.BootConsistent | kernel/mm/early_paging_manager.c:84-92 | a kernel state after boot satisfies the invariant the runs start from |
| ElfLoader.LoadElf | kernel/multitask/elf_loader.c:18-68 | result code for every file; memory after a load that went through; the code is success for every file the guards accept, loaded or not |
| ElfLoader.SuccessWithoutLoading | kernel/multitask/elf_loader.c:54-67 | a concrete file for which success is reported though nothing was loaded |
| ElfImage.ElfRoundTrip | include/multitask/elf.h:27-43 | a file written field by field, header and program headers packed in order: the guards accept it iff the identification, e_machine and e_type are the ones they want, the table is read from e_phoff iff that is in the file and below 2^31, and every header comes back with the fields written, whatever the stack held |
| ElfImage.FileHeaderBack | include/multitask/elf.h:27-43 | e_type, e_machine, e_phoff and e_phnum are read from where a packed file header has them |
| ElfImage.PhdrBack | include/multitask/elf.h:132-141 | every field the loader keeps of a packed program header is read back as itself |
| ElfImage.HeadersBack | kernel/multitask/elf_loader.c:136-144 | so is a whole table, from where it stands |
| ElfImage.LoadedProgram | kernel/multitask/elf_loader.c:158-201 | from the file as written to memory: at p_vaddr stand the p_filesz bytes from p_offset on, then zeros to p_memsz, for every loadable segment that shares no page with another |
| ElfLoader.GuardsExact | kernel/multitask/elf_loader.c:70-134 | exactly which bytes get through the guards, the shortest files included: any other magic, class, order, version, machine or type is refused |
| ElfLoader.GuardsReadPrefix | kernel/multitask/elf_loader.c:70-134 | the two guards depend on the first 20 bytes alone, and let no file under 19 bytes through |
| ElfLoader.LoadProgramHeaderTable | kernel/multitask/elf_loader.c:136-144 | the buffer is the file from e_phoff, or from the old offset after a rejected seek, over what the stack held, and the headers are decoded from it; HeadersBack says what the decoding gives |
| ElfLoader.LoadSegments | kernel/multitask/elf_loader.c:146-205 | success iff header bytes were read and every loadable segment, in turn, is acceptable (AcceptableIff); then memory is as LoadedByte says and text_begin and data_begin as LastFlagged does; the ownership invariant holds either way |
| ElfLoader.LoadSegment | kernel/multitask/elf_loader.c:160-189 | one segment: mapped, filled with the bytes the seek and read give, cleared, frames used counted |
| ElfLoader.LoadTable | kernel/multitask/elf_loader.c:158-201 | the loop over the headers, with memory and both task fields after it |
| ElfLoader.LastFlagged | kernel/multitask/elf_loader.c:192-200 | a task field is the address of the last segment of type 1 with exactly its flags, 5 for text_begin and 6 for data_begin |
| ElfLoader.NoneFlagged | kernel/multitask/elf_loader.c:192-200 | and keeps its value when there is none |
| ElfLoader.LoadAtExact | kernel/multitask/elf_loader.c:179-180 | whatever was read before, a segment is read from p_offset when that is in the file and below 2^31, otherwise from where the last read ended, and gets min(p_filesz, size - start) bytes, none at address 0 |
| ElfLoader.AcceptableIff | kernel/multitask/elf_loader.c:174-183 | a segment gets through iff it is page-aligned, not at 0, below 0xC0000000 with its extra page, and there is a byte to read |
| ElfLoader.PagesAfterLoad | kernel/multitask/elf_loader.c:174 | the user pages after a load are exactly those before it and, for each loadable header, p_memsz/4096 + 1 pages from p_vaddr |
| ElfLoader.LoadedByte | kernel/multitask/elf_loader.c:174-189 | after loading, also with overlapping, truncated or misplaced segments: where it is the last to cover a byte, a segment gives it its file byte, or zero from p_filesz to the end of its pages if p_memsz is larger, or leaves what was there |
| ElfLoader.LoadedSegmentBytes | kernel/multitask/elf_loader.c:174-189 | a segment apart from the others with its bytes in the file reads as those bytes and zeros to p_memsz; the rest of its last page is zero iff p_memsz exceeds p_filesz or the frame already was |
| ElfLoader.TailNotCleared | kernel/multitask/elf_loader.c:185-189 | a concrete segment whose last page keeps an old byte |
| ElfLoader.LoadSparesOthers | kernel/multitask/elf_loader.c:158-201 | user pages mapped before and outside the segments keep their bytes |
| ElfLoader.BytesAfter | kernel/multitask/elf_loader.c:158-201 | each step changes the expected bytes of its own segment and of no other |
| ElfLoader.NeedsShrink | kernel/multitask/elf_loader.c:174-177 | the frames all segments together still need, each missing page and table once, go down by what a segment takes |
| UserMemory.DataOnlyOwned | kernel/multitask/elf_loader.c:180-189 | stores to private user pages keep the ownership invariant |
| UserMemory.PrivateRangeSafe | kernel/multitask/elf_loader.c:180-189 | every byte the loader touches lies in a page mmap mapped, in distinct frames that are no page table |
| Machine.Machine.CopyIn | libc/memory.c:7-15 | memcpy through the walk: the range reads back as the data, other bytes and frames are unchanged |
| Machine.Machine.Memset | libc/memory.c:17-21 | memset through the walk, likewise |
| Machine.WrittenStep | libc/memory.c:7-21 | one more byte store keeps what has been written, given that no store hits a table the range is walked through |
| Bits.GetMsbIndex | libc/memory.c:38-49 | index of the first one bit from the most significant end, 8 for zero |
| Bits.ExtractBit | libc/memory.c:28-31 | the bit the mask 0x80 >> k selects |
| Bits.MaskIsShift | libc/memory.c:51-59 | the mask is the shift the code writes |
| Bits.Bitmap.TurnBitOn | libc/memory.c:51-54 | the set of one bits gains exactly this index |
| Bits.Bitmap.TurnBitOff | libc/memory.c:56-59 | the set of one bits loses exactly this index |
| Bits.Bitmap.TurnBitsOff | libc/memory.c:65-74 | exactly the interval is cleared |
| Bits.Bitmap.TurnBitsOn | libc/memory.c:80-89 | exactly the interval is set |
| Bits.Bitmap.SetNextFreePageIndex | kernel/mm/bitmap_manipulation.c:23-35 | the lowest one bit, or the no-page value iff there is none |
| Bits.FirstOnBit | kernel/mm/bitmap_manipulation.c:25-31 | the first one bit of the first non-zero byte is the lowest member of the set |
| PhysicalMemory.PhysicalMemory.ChangePageState | kernel/mm/physical_mm_manager.c:32-53 | one frame enters or leaves the set; a misaligned address changes nothing and is rejected |
| PhysicalMemory.PhysicalMemory.ChangePagesState | kernel/mm/physical_mm_manager.c:55-77 | exactly the frames of the span; misaligned or reversed spans are rejected |
| PhysicalMemory.PhysicalMemory.MapMemory | kernel/mm/physical_mm_manager.c:80-126 | for every map: which frames become available, and that the kernel panics exactly at the first available region whose span is reversed or misaligned |
| PhysicalMemory.RegionSpanIs | kernel/mm/physical_mm_manager.c:92-117 | the span of any 64-bit region in one expression: from the truncated address rounded up to the truncated end rounded down, modulo 2^32, or none |
| PhysicalMemory.RegionExactIff | kernel/mm/physical_mm_manager.c:92-120 | a region contributes exactly the whole frames inside it if and only if it ends below 4 GB, or starts above the last frame and truncates to less than a page |
| PhysicalMemory.ExactMap | kernel/mm/physical_mm_manager.c:80-126 | for a map of such regions nothing panics and the frames are exactly those of its available regions |
| PhysicalMemory.TruncatedSpanEmptyIff | kernel/mm/physical_mm_manager.c:92-117 | when the span computed from the truncated fields is empty, for any 64-bit address and length |
| PhysicalMemory.HighRegionAliases | kernel/mm/physical_mm_manager.c:92-93 | a concrete region, at 4 GB, that makes frame 0 available |
| PhysicalMemory.PhysicalMemory.Init | kernel/mm/physical_mm_manager.c:128-137 | panics iff some available region does; otherwise the selected frames less exactly [0, 0xff000) and the kernel |
| PhysicalMemory.PhysicalMemory.AllocatePhysicalPage | kernel/mm/physical_mm_manager.c:140-166 | the bitmap scan equals taking the lowest available frame at or above the start byte; NULL raises the flag |
| PhysicalMemory.PhysicalMemory.ScanStart | kernel/mm/physical_mm_manager.c:140-146 | the scan starts with the eight frames among which the kernel ends |
| PhysicalMemory.PhysicalMemory.FreePhysicalPage | kernel/mm/physical_mm_manager.c:168-181 | the frame becomes available and the flag drops; the returned code is inverted |
| PhysicalMemory.FreeExact | kernel/mm/physical_mm_manager.c:168-181 | by its own address a frame is freed and the flag drops; an address inside it changes nothing |
| PhysicalMemory.PhysicalMemory.RegisterPhysicalPages | kernel/mm/physical_mm_manager.c:183-186 | exactly the span becomes unavailable |
| PhysicalMemory.PhysicalMemory.UnregisterPhysicalPages | kernel/mm/physical_mm_manager.c:188-191 | exactly the span becomes available, the flag stays |
| PhysicalMemory.RegisterExact | kernel/mm/physical_mm_manager.c:183-191 | frame by frame: registered frames are exactly those that start inside a span on page boundaries |
| PhysicalMemory.RunSafe | kernel/mm/physical_mm_manager.c:128-186 | after any run of allocate, free of held frames and register, an allocation is the lowest scanned available frame, aligned, not held, above the kernel, and NULL iff there is none; the flag never lies |
| PhysicalMemory.RunConserves | kernel/mm/physical_mm_manager.c:140-181 | allocate and free conserve the available and held frames, as a set and in number |
| PhysicalMemory.InitEstablishes | kernel/mm/physical_mm_manager.c:128-137 | the state after init satisfies that invariant |
| PhysicalMemory.UnregisterFlagHonestIff | kernel/mm/physical_mm_manager.c:188-191 | unregister leaves the flag honest iff it was down or no scanned frame became available |
| PhysicalMemory.FlagRefuses | kernel/mm/physical_mm_manager.c:140-191 | while the flag is up allocations return NULL, so unregistered frames are handed out only after a frame is freed |
| KHeap.FindContinuousBlocksIndexWritten | kernel/mm/kheap.c:70-93 | as written: what is returned, when nothing is, and that the answer is a free run iff the n-th free slot is not the last slot and its stretch holds n slots |
| KHeap.GetFreeContinuousBlocksAddressWritten | kernel/mm/kheap.c:104-139 | as written: only the first byte with a free page is searched; whether the address is defined, which run it is, exactly which bits are cleared, and NULL iff no such byte |
| KHeap.WrittenSinglePageIff | kernel/mm/kheap.c:70-139 | for one page, all that alloc_page_dir asks for, the written search gives the lowest free page iff it is not the last of its eight |
| KHeap.WrittenSearchFails | kernel/mm/kheap.c:70-93 | eight free slots of eight are not found; a broken stretch is returned |
| KHeap.FindContinuousBlocksIndex | kernel/mm/kheap.c:70-93 | with the count reset: the first free run, -1 iff there is none |
| KHeap.ParseLookupTable | kernel/mm/kheap.c:61-68 | one slot for each bit, in order |
| KHeap.GetFreeContinuousBlocksAddress | kernel/mm/kheap.c:104-139 | the run was wholly free, exactly its bits are cleared, no earlier window had one, and NULL means no scanned window has one |
| KHeap.SinglePageLowest | kernel/mm/kheap.c:117-136 | a single page is the lowest free one |
| KHeap.AllocAndMapPhysicalPages | kernel/mm/kheap.c:48-59 | one fresh frame for each entry of the run; faults iff the run passes the end of the table, after one frame too many |
| KHeap.AllocKheapPages | kernel/mm/kheap.c:141-148 | search, with its count reset, and mapping together, with the unchecked NULL |
| KHeap.AllocKheapPagesWritten | kernel/mm/kheap.c:141-148 | the same with the search as written |
| KHeap.SearchMissesIff | kernel/mm/kheap.c:117-136 | the windows miss every free run if and only if none fits the window that starts at its own byte |
| KHeap.SearchMissesAnywhereIff | kernel/mm/kheap.c:117-136 | the same for any bitmap, with the bytes at its end that the loop does not reach |
| KHeap.SearchFindsLowest | kernel/mm/kheap.c:117-136 | otherwise the lowest run that fits is found |
| KHeap.StraddlingRunMissed | kernel/mm/kheap.c:117-136 | two free pages across a byte boundary are missed |
| KHeap.HeapMapPagesEntries | kernel/mm/kheap.c:48-59 | exactly the entries of the run change, all to fresh kernel entries, and no other frame |
| KHeap.HeapPageUsableIff | kernel/mm/kheap.c:52-54 | of the 32768 pages marked free, mapping page p takes entry p mod 1024 and makes the address of page p usable if and only if p < 1024 |
| KHeap.KheapInit | kernel/mm/kheap.c:95-101 | the heap table goes into slot 770 of the current directory and 32768 pages are marked free |
| KHeap.KheapGetPhysicalAddress | kernel/mm/kheap.c:28-46 | the entry without its low eight bits, which is the frame address iff entry bits 8 to 11 are clear; 0 and 4 on the error paths |
| KHeap.FreeKheapPages | kernel/mm/kheap.c:168-200 | bits set, the entries of the run cleared one after the other, and a fault iff the run passes the end of the table |
| KHeap.FreedPagesUnmapped | kernel/mm/kheap.c:186-195 | after that the entries of the run are zero and its pages are not mapped; every other entry and every other frame is unchanged |
| KHeap.PageAddressInverse | kernel/mm/bitmap_manipulation.c:14-18 | the bit index inverts the address computation |
| KHeap.AllocThenFreeRestoresBitmap | kernel/mm/kheap.c:129-184 | freeing by address the run that was allocated restores the exact bitmap |
| KHeap.FreedFrameReturnsIff | kernel/mm/kheap.c:193-194 | freeing gives the frame back iff its entry has no low bits, which no mapped entry has |
| KMalloc.TakeTilesIff | kernel/mm/kmalloc.c:78-97 | taking a block keeps the blocks disjoint and covering iff the fit is exact or the split is the intended one |
| KMalloc.WrittenSplitBreaks | kernel/mm/kmalloc.c:83-87 | a split as written loses a unit or, for zero units, leaves blocks that overlap, in every heap whose blocks overlap at most that way |
| KMalloc.WrittenSplitWitness | kernel/mm/kmalloc.c:83-87 | concrete coinciding and overlapping headers |
| KMalloc.RunsTileIff | kernel/mm/kmalloc.c:25-101 | over any run, on the headers as they are in memory and for both splits: the blocks are disjoint, listed once and fill exactly the pages taken if and only if no block was split as written; after one such split they never are again |
| KMalloc.OverlapStays | kernel/mm/kmalloc.c:44-101 | an overlap left by a request for zero units stays, or a unit is lost |
| KMalloc.LostStaysLost | kernel/mm/kmalloc.c:25-101 | a unit that no block holds is never held again |
| KMalloc.TiledUnits | kernel/mm/kmalloc.c:25-101 | in a tiled heap the units of free and used blocks together are exactly those of the pages |
| KMalloc.TiledTakeSafe | kernel/mm/kmalloc.c:81-88 | in a tiled heap the code never writes through the NULL link it just stored |
| KMalloc.TakeFaultsIff | kernel/mm/kmalloc.c:81-88 | in any heap it does so exactly when the block before in the list starts where the new header goes |
| KMalloc.GrowthCoversIff | kernel/mm/kmalloc.c:27-37 | growth covers the request iff it is at most 511 units |
| KMalloc.UnitsLeast | kernel/mm/kmalloc.c:60 | the units are the fewest that hold the request; the last seven sizes wrap to none |
| KMalloc.SmallRequests | kernel/mm/kmalloc.c:60 | up to 4088 bytes are at most 511 units |
| KMalloc.GrowthPagesLeast | kernel/mm/kmalloc.c:27 | growth asks for a page for every 4096 units begun |
| KMalloc.GrowthIs | kernel/mm/kmalloc.c:27-33 | for any number of pages growth takes the lowest run it can see whenever that ends inside the page table, and gets NULL iff it sees none |
| KMalloc.TakenSize | kernel/mm/kmalloc.c:81-97 | the block handed out is recorded with exactly the units asked for, and with none where the written split puts its header on the old one |
| KMalloc.SplitParts | kernel/mm/kmalloc.c:83-88 | where the parts of a split lie: as intended they fill the block; as written the new block ends a unit early and the rest reaches a unit past its header |
| KMalloc.ExactTake | kernel/mm/kmalloc.c:90-94 | an exact fit is handed out where it is and leaves the list |
| KMalloc.ReleaseLast | kernel/mm/kmalloc.c:44-56 | a freed block is the last of the list; one still listed becomes so by losing those behind it |
| KMalloc.GrowthMatches | kernel/mm/kmalloc.c:27-33 | the pages growth gets are those the search of the heap bitmap finds, and NULL is when it finds none |
| KMalloc.StraddlingPagesMissed | kernel/mm/kmalloc.c:27-33 | kmalloc(32768) needs two pages and misses two that are free across a byte boundary |
| KMalloc.Allocator.Kmalloc | kernel/mm/kmalloc.c:58-101 | whatever the heap, tiled or not: terminates, and result and heap are those of the function Search: first fit, growth when nothing fits, NULL only when the page search finds no run, a fault when a run passes the page table; the block returned has exactly the units asked for, with the one exception of TakenSize |
| KMalloc.SmallSearch | kernel/mm/kmalloc.c:58-101 | for at most 511 units Search grows at most once and then succeeds; NULL if and only if no block fits and no heap page is left |
| KMalloc.LargeSearchFails | kernel/mm/kmalloc.c:58-101 | for more than 511 units growth never helps: with no block that fits the search never succeeds |
| KMalloc.SearchTiles | kernel/mm/kmalloc.c:58-101 | growth on the way keeps the heap tiled |
| KMalloc.Allocator.TakeBlock | kernel/mm/kmalloc.c:78-97 | the pointer and header writes, for both split rules and any heap, equal Take; the write through NULL exactly when TakeFaults says |
| KMalloc.Allocator.Kfree | kernel/mm/kmalloc.c:44-56 | the walk and the two stores on any heap: the header is appended, or ends the list where it still is listed |
| KMalloc.Allocator.IncreaseHeapSize | kernel/mm/kmalloc.c:25-42 | one block of 512*n - 1 units in the lowest run the page search finds; NULL and faults exactly as Growth says |
| InitrdImage.CreateInitrd | rootfs/initrd_gen.py:41-80 | the script produces the specified image, and fails iff a name or number does not fit |
| InitrdImage.FileOffsets | rootfs/initrd_gen.py:48-53 | shifted sizes accumulated are the offsets |
| InitrdImage.InodeToRaw | rootfs/initrd_gen.py:22-27 | offset, size, name padded with zeros |
| InitrdImage.AlignImage | rootfs/initrd_gen.py:72-80 | page multiple, contents kept |
| InitrdImage.ImageLayout | rootfs/initrd_gen.py:57-69 | count, inodes and files are where the reader looks |
| InitrdImage.InodeBytes | rootfs/initrd_gen.py:57-66 | inode i is the 28 bytes at 4 + 28*i: offset, size, and the name filled up with zeros |
| InitrdImage.FileBytes | rootfs/initrd_gen.py:67-69 | each file stands right behind the one before it, the first behind the last inode |
| InitrdImage.ContentsInOrder | rootfs/initrd_gen.py:67-69 | in the order of the files given |
| InitrdImage.OneFilePackableIff | rootfs/initrd_gen.py:22-27 | a file fits iff its name has at most 20 bytes and its size is below 2^32 |
| Initrd.StrCmp | libc/string.c:28-46 | zero iff memory holds exactly the string; otherwise decided by the first difference, as signed characters, a prefix being the smaller |
| Initrd.StrLen | libc/string.c:191-200 | the length of the string memory holds |
| Initrd.InitrdSearchInodeTable | kernel/fs/initrd.c:20-30 | the first inode whose name matches, none iff none does |
| Initrd.InitrdOpen | kernel/fs/initrd.c:32-81 | node of the first match, with its size and data address; NULL iff no match or no memory |
| Initrd.NameMatchesIff | kernel/fs/initrd.c:24 | with room for the terminator an inode matches exactly its own name |
| Initrd.FullNameFoundIff | rootfs/initrd_gen.py:24 | for every inode, the last included: the name is found iff it is shorter than its field or the byte behind the field is zero, and which byte that is |
| Initrd.FullNameNotFound | rootfs/initrd_gen.py:24 | two concrete files of which the first is written and not found |
| Initrd.OpenFindsFirst | kernel/fs/initrd.c:50-52 | opening a name selects the first file written under it, iff there is one |
| Initrd.SlashIgnored | kernel/fs/initrd.c:39-43 | a name opens the first file written under it with one slash in front and, unless it begins with a slash, without |
| Initrd.InitrdRoundTrip | kernel/fs/initrd.c:89-105 | what is read from an opened file is that slice of the file the script was given |
| Initrd.ReadAcceptedIff | kernel/fs/initrd.c:96-99 | which reads pass the wrapping bound check |
| Initrd.ReadBytes | kernel/fs/initrd.c:89-105 | a read is refused or returns the bytes in memory from the offset on, wrapped end or not |
| File.OpenFile.FileRead | kernel/fs/file.c:62-80 | the bytes and the new offset; a null buffer reads nothing |
| File.OpenFile.FileSeek | kernel/fs/file.c:116-160 | the offset or rejection of SeekTarget, which the next four rows describe without it |
| File.SeekSetThenRead | kernel/fs/file.c:125-134 | a read after SEEK_SET in range returns the bytes from the jump on |
| File.SeekCurThenRead | kernel/fs/file.c:136-146 | a read after SEEK_CUR in range returns the bytes from offset + jump on, forwards or back |
| File.SeekEndThenRead | kernel/fs/file.c:148-155 | a read after SEEK_END begins as far behind the current offset as the jump is negative |
| File.SeekRejectedIff | kernel/fs/file.c:116-160 | exactly which seeks are rejected, unsigned wrap included, and that the offset then stays |
| File.ReadExact | kernel/fs/file.c:70-77 | a read returns exactly min(length, size - offset) bytes at the offset |
| File.RunStaysInFile | kernel/fs/file.c:62-146 | over any run of reads, SEEK_SET and SEEK_CUR the offset stays within the file and every read is exact |
| File.ReadsConcatenate | kernel/fs/file.c:62-80 | consecutive reads concatenate to the file |
| File.SeekEndInRangeIff | kernel/fs/file.c:148-155 | when SEEK_END keeps the offset in the file |
| File.NegativeSeekAcceptedIff | kernel/fs/file.c:138-144 | when a seek before the start is accepted |
| Stdio.Prints | libc/stdio.c:29-57 | the padded field, and the count is what was emitted |
| Stdio.DigitsFit | libc/stdio.c:78-87 | ten digits at most, so the 12-byte buffer is never overrun |
| Stdio.WriteDigits | libc/stdio.c:78-87 | the backward loop leaves the digits, most significant first |
| Stdio.Printi | libc/stdio.c:60-101 | emits the number in its field; count equals length |
| Stdio.PrintedNumberReadsBack | libc/stdio.c:60-101 | parsing what is printed gives the argument back, the least integer included, except with both flags |
| Stdio.PrintedNumberLength | libc/stdio.c:60-101 | length is the larger of width and natural length |
| Stdio.BothFlagsReadBackIff | libc/stdio.c:31-54 | with both flags it reads back iff the value is zero or fills the field |
| Stdio.RightZerosMisread | libc/stdio.c:31-54 | 42 in five columns prints as 42000 |
| Stdio.EveryFormat | libc/stdio.c:109-161 | every C string is a sequence of pieces with one of three endings, told apart by a scan |
| Stdio.ReadsPastEndIff | libc/stdio.c:109-161 | print stops at the terminator of its format if and only if the format does not end inside a conversion; otherwise it goes on with what follows in memory |
| Stdio.Print | libc/stdio.c:103-165 | emits in order exactly the pieces it reads, those beyond the terminator of a cut-off format included, returns how much that is, and where it stops; the next five rows say what a piece prints |
| Stdio.PlainReadsBack | libc/stdio.c:132-147 | d reads back as the signed decimal number, u as the unsigned one, x and X as the unsigned number in base 16, x without capitals, X without small letters, none with a leading zero |
| Stdio.PlainText | libc/stdio.c:128-131 | s prints its text, (null) for a null pointer, and c the low byte of its argument |
| Stdio.FlagsPad | libc/stdio.c:29-101 | flags and width only pad that: behind with -, else in front, with zeros for 0, which go behind the sign of a negative number |
| Stdio.PieceMeans | libc/stdio.c:109-161 | which letters print, that any other prints nothing, and that the width is the decimal number written |
| Stdio.ArgumentsInOrder | libc/stdio.c:128-156 | each piece prints the argument after those the pieces before it took |
| List.List.AddElement | kernel/data_structures/list.c:26-49 | appends; the cursor moves only in an empty list |
| List.List.PopElement | kernel/data_structures/list.c:51-79 | removes and returns the element at the index and resets the cursor; out of range changes nothing |
| List.List.RemoveElement | kernel/data_structures/list.c:81-95 | removes the first occurrence, true iff there is one; the cursor dangles iff it was on that node |
| List.List.Size | kernel/data_structures/list.c:97-111 | the number of elements |
| List.List.IterList | kernel/data_structures/list.c:121-133 | element at the cursor and the next position, NULL and restart at the end |
| List.RelinkedAround | kernel/data_structures/list.c:67 | one link store removes exactly one element |
| List.PassYieldsList | kernel/data_structures/list.c:121-133 | one pass yields the rest of the list in order, then NULL, and starts over |

## Left out

- KHeap.FindContinuousBlocksIndex: is the search with its count reset and a result on every path, not the one written.
- KHeap.GetFreeContinuousBlocksAddress: uses that search; GetFreeContinuousBlocksAddressWritten is the code as written. In both, requests so large that the loop bound wraps are excluded, and the written one assumes only pages kheap_init marks are free.
- KHeap.AllocKheapPages: uses that search; AllocKheapPagesWritten is the code as written, which has no defined result for many bitmaps.
- KHeap.FreeKheapPages: assumes the run of bits lies in the bitmap.
- KMalloc.Allocator.AllocKheapPages: the kernel heap by its contract (GrowthMatches), with the search that resets its count, and with frames enough. After NULL the kernel maps the first n heap pages anew; nothing is then promised about a heap that has one of them.
- KMalloc.Allocator.Kmalloc: after a fault, or a NULL that remapped pages of the heap, the state is not described. Block payloads are not modelled, so neither is a caller writing over a header that lies in its block.
- ElfLoader.LoadSegments: demands of every segment it reaches that its range does not wrap past 4 GB and that p_filesz fits the pages mapped for it, and that there are frames for all missing pages and tables; beyond that the kernel writes to unmapped memory or to frame 0. The file's bytes are assumed not to be overwritten while loading.
- ElfLoader.LoadElf: the same demands; it takes the opened file, so file_open's mode table and a null task are not modelled.
- Stdio.Print: the arguments must have the types the pieces name, and what follows a cut-off format must end somewhere; field widths do not overflow an int; the NUL stored after the text is not part of the text.
- List.List.AddElement: kmalloc succeeds; the source writes through the result unchecked.
- Initrd.InitrdRoundTrip: names must leave room for a terminator, be free of NUL bytes, and the image must not reach past 4 GB; `FullNameFoundIff` treats full names.
- Machine: supervisor stores ignore the read-only bit, as in the source, which never sets CR0.WP; rights are recorded by Translate but only presence is checked. The accessed and dirty bits, the TLB and writes to control registers are not modelled.
- The bitmaps, the allocator's static data and the kernel's own image are not part of the modelled frames; a frame handed out is assumed not to hold them, which is what init arranges.
- Teardown (free_virtual_address_space, free_task): it passes entries with attribute bits to an aligned-address check and skips slot 767, so it returns no frames.
- The multiboot map as a pointer walk (kernel/mm/physical_mm_manager.c:83-85): modelled as a sequence of regions.
- map_physical_address_to_kheap: passes a page count where an end address is expected.
- alloc_virtual_address_space: only adds a kmalloc to alloc_page_dir.
- vfs mount walk, file_open modes, devices, ATA, fat32, VGA, keyboard, logger, interrupts, scheduling: no part in these properties.
- strtok, strstr, strncmp, count_chars, is_empty, free_list: easy or unused here.
