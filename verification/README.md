# A verified model of the boot loader's memory and image handling

The loader builds the first page tables of a 64-bit kernel. It keeps a database of physical frames with a
free list threaded through it, allocates page tables from that list, maps all memory to itself with a mix
of 1 GiB, 2 MiB and 4 KiB pages, places and relocates a PE32+ kernel image, and maps the image page by page
at its virtual base. This project models that code in Dafny and proves what it promises, together with the
freestanding string functions and the decimal printer that the kernel uses.

The specification of every mapping is the processor's own table walk (Intel SDM, volume 3A, section 4.5,
"4-Level Paging and 5-Level Paging"). It is written in `PageWalk.dfy` without reference to how the loader
builds tables: reserved bits, the PAT bit of large pages, accumulated rights and canonical addresses
included. What the loader does is stated as its effect on that walk, for every 64-bit address.

| file | contents |
|---|---|
| `Bits.dfy`, `ByteOrder.dfy` | masks and shifts on words; bytes and little-endian numbers |
| `PageWalk.dfy` | the entry macros as written in C, the fields they produce, the hardware walk |
| `FreeList.dfy` | the frame database and its free list, single operations and whole runs |
| `PageTree.dfy` | the shape of the tables in memory, and what each kind of write does to it |
| `Mapping.dfy` | what one mapped page means for the translation of an address |
| `Paging.dfy` | class `PageManager`: the allocator and the table builder, in place |
| `Separation.dfy` | what writes outside the tables leave alone; which frames a map may touch |
| `Presence.dfy` | when `MappingExists` is right |
| `StaleFrames.dfy` | why frames on the free list have to be zero-filled |
| `Runs.dfy` | any sequence of allocations, stores, releases and maps |
| `DirectMap.dfy`, `TableCost.dfy` | the greedy choice of page sizes: translation, alignment, tiling, optimality; the tables it needs |
| `IdentityMap.dfy` | `DirectMapRange` in place, with and without enough frames |
| `Boot.dfy`, `Startup.dfy` | from the firmware's memory map to the identity map, and on to the mapped kernel |
| `Pe.dfy`, `PeBytes.dfy` | PE header fields as the loader reads them; the headers written field by field, and read back |
| `Placement.dfy` | header copy and section placement |
| `Relocation.dfy`, `RelocationWalk.dfy` | fixups as arithmetic modulo 2^64; the walk over the directory |
| `RelocationTable.dfy` | relocation in terms of the blocks that a linker writes |
| `ImageMemory.dfy`, `KernelMap.dfy` | memory as bytes, and zeroing them; mapping the image |
| `KernelRights.dfy` | the translation of every kernel address, with its rights |
| `Loader.dfy` | the loader's stages together, from the file to the kernel's view |
| `Runtime.dfy`, `Decimal.dfy` | `memcpy`, `memset` and the string functions; the decimal printer |

Physical memory is one array of 64-bit words, 512 to a frame. Page tables, free frames, the pages of callers
and the kernel image all lie in that array, so a write to any of them could change any translation; that it
does not is proved, not assumed. `PageManager.Valid` says that the free list, the tree of tables and the
pages held by callers never share a frame.

## Where the code does not do what it promises

- The free list is sound after `SsFreePhysicalPage` if and only if the frame was not free before and is not
  frame 0xFFFFFF, which shares its number with the end marker (`FreeList.ReleaseSoundExactlyWhen`); a
  list built from a memory map is sound if and only if no frame is pushed twice and 0xFFFFFF is not pushed
  (`FreeList.ListBuiltExactlyWhen`). The code tests neither. Memory below 64 GiB - 4 KiB does not hold that frame, so
  there disjoint regions suffice (`Boot.SmallListFromMap`); with more memory, releasing the frame always breaks
  the list (`FreeList.MarkerIsLost`).
- Address 0 stands for failure, so an allocation that pops frame 0 fails and drops the frame. The model keeps
  this: `Supply` counts the frames before frame 0, and `AfterFailure` drops it. Frame 0 is not
  assumed to be absent from the list.
- For every range of 64-bit addresses, `DirectMapRange` chooses pages that map the range to itself if and only
  if the range starts on a multiple of the first page size it uses and ends in the lower half of the address
  space (`DirectMap.IdentityExactlyWhen`); the code tests only for multiples of 4 KiB. It also ignores the
  status of every map and reports success. Such an aligned range really is mapped to itself if and only if the
  allocator can supply the tables that are missing; otherwise some address of it faults, and every other one
  was left alone or mapped to itself (`IdentityMap.RangeResult`, which `IdentityMap.DirectMapRange` ensures; at
  boot `Boot.PagingReady`, with the number of tables in closed form). Which addresses are mapped in a shortage
  follows from the rounds of the loop, which the method returns as a trace (`IdentityMap.SuppliedTranslation`).
- New tables are not cleared. Linking a frame at any level changes no translation if and only if the frame is
  silent: each of its entries is not present, or a large page with reserved bits set, or refers to a frame that
  is silent one level down (`StaleFrames.LinkIsSilentExactlyWhen`). Everything else takes the frames on the
  free list to hold no present entries, and keeps it so.
- `MappingExists` never looks at the PS bit or at the upper address bits. `Presence.TestsRightExactlyWhen` says
  for every address when it agrees with the processor. On a large page it tests words of the page's contents:
  for a canonical address it is right whatever those contents are if and only if no large page lies on the path
  (`Presence.AlwaysRightExactlyWhen`), and `Presence.LargePageIsMissed` is a memory where it denies a mapping
  that exists. It accepts the non-canonical alias of every address that a 4 KiB page maps, for example
  0x0000800000000000 if 0xFFFF800000000000 is mapped, on which the processor faults
  (`Presence.AliasIsAccepted`).
- `MapKernel` sets RW for the sections that are not marked writable, and leaves it clear for those that are
  (bootloader/pagemanager.h:429-435): code becomes writable and data read-only, as `KernelRights.KernelRightsAre` says
  for every address of the kernel.
- `PeIsValidImage` accepts an image that names the x64 machine or the PE32+ format; it does not ask for both
  (`PeBytes.ValidExactlyWhen`).
- `MapKernel` zeroes memory for every section whose virtual size exceeds its raw size, at an address that is the
  32-bit sum of the two sizes and no address of the section (bootloader/pagemanager.h:421-427). The model does
  the same. The image survives such a fill if and only if its bytes in the filled range are zero already
  (`ImageMemory.ImageSurvivesExactlyWhen`), and so do the tables (`ImageMemory.TablesSurviveExactlyWhen`). Free
  frames may be filled without harm (`ImageMemory.ZeroingKeepsClean`): a large uninitialised section, like that of
  this kernel (kernel/entry.c:41-42), fills ordinary memory. `KernelMap.MapKernel` requires of each fill that it
  spares the tables which exist by then, and of the image what is not zero anyway; `Startup.BootKernel` requires the
  same in terms of the memory map. A section of 0x2000 bytes of which the file holds 0x1000 fills the frame at
  0x3000, whatever its address: an image there is damaged, and if a page table lies there, every address below it
  faults (`KernelMap.FillDestroys`).
- The kernel runs at the preferred base of its image (bootloader/image.c:190), but the image is relocated to the
  address of the buffer that holds it. So a relocated pointer no longer leads to the kernel's own addresses but to
  the identity map, where it finds the same byte as long as the identity map is there
  (`Startup.KernelFollowsPointer`).
- The comment above `DirectMapRange` promises an offset of `DIRECT_MAP_BASE`; the code maps addresses to
  themselves, and so does the model.

## Model

| member | source | states |
|---|---|---|
| PageWalk.IndexMacros | bootloader/pagemanager.h:40-43 | the four index macros select the nine-bit fields that the processor uses at each level |
| PageWalk.AlignMacro | bootloader/pagemanager.h:71-72 | the page mask clears exactly the page offset |
| PageWalk.PageEntryMacro | bootloader/pagemanager.h:93-94 | a table entry is present and writable and refers to the table's frame |
| PageWalk.LeafEntryMacro | bootloader/pagemanager.h:97-98 | a leaf entry takes address bits 51:12 from the page and every other bit from the flags |
| PageWalk.LargeFlagFields | bootloader/pagemanager.h:316-334 | adding the PS flag sets that one bit and no other |
| FreeList.GetPops | bootloader/pagemanager.h:131-153 | taking a frame pops the first of the list, marks it allocated, and leaves a chain of exactly the remaining free frames |
| FreeList.ReleasePushes | bootloader/pagemanager.h:159-177 | releasing a frame that is not free puts it in front, and the chain again enumerates exactly the free frames |
| FreeList.ChainUnique | bootloader/pagemanager.h:24-38 | a database determines its free list: at most one finite chain of distinct frames starts at the head |
| FreeList.ReleaseSoundExactlyWhen | bootloader/pagemanager.h:163-176 | after a release of a frame in range a sound list exists if and only if the frame was not free and is not the end marker |
| FreeList.SmallReleaseExactlyWhen | bootloader/pagemanager.h:50-177 | in a database of at most 0xFFFFFF frames the list is sound after a release if and only if the frame was not free |
| FreeList.MarkerIsLost | bootloader/pagemanager.h:50-177 | after a release of frame 0xFFFFFF no list is sound |
| FreeList.ListLength | bootloader/pagemanager.h:131-177 | the list has as many frames as the database marks free |
| FreeList.RunConserves | bootloader/pagemanager.h:131-177 | over any legal run the list stays sound, Free plus Allocated is constant, and so is Reserved |
| FreeList.HeldUntilReleased | bootloader/pagemanager.h:131-177 | if a run hands out a frame that was allocated, an earlier operation of the run released it |
| FreeList.NoDoubleHandOut | bootloader/pagemanager.h:131-177 | if two operations of a run return the same frame, one between them released it |
| FreeList.PushAllLists | bootloader/UefiMain.c:263-270 | pushing distinct frames onto the initial database lists exactly these, newest first |
| FreeList.ListBuiltExactlyWhen | bootloader/UefiMain.c:315-351 | pushing frames builds a sound list if and only if none repeats and none is the end marker |
| FreeList.SmallListExactlyWhen | bootloader/UefiMain.c:315-351 | among at most 0xFFFFFF frames, pushing builds a sound list if and only if none repeats |
| Boot.HighestAddress | bootloader/UefiMain.c:217-238 | if no region wraps, MaxAddress is the largest start plus 4096 times the number of pages among the conventional and persistent regions, 0 if there is none; with wrapping, the same for the wrapped ends |
| Boot.DisjointPushesOnce | bootloader/UefiMain.c:315-351 | disjoint regions push every frame at most once |
| Boot.ListFromMap | bootloader/UefiMain.c:263-351 | disjoint regions that avoid the end marker give a list of exactly the frames they cover; all others stay reserved |
| Boot.ListedExactly | bootloader/UefiMain.c:315-351 | for page-aligned regions the list holds exactly the frames that lie in a conventional or persistent region |
| Boot.NewestFirst | bootloader/UefiMain.c:331-341 | the frames of the last region come first in the list, the highest of them before all others, and the list of the other regions follows |
| Boot.SmallListFromMap | bootloader/UefiMain.c:315-351 | below 0xFFFFFF frames, disjoint regions alone give a sound list of exactly their frames |
| Boot.BuildFreeList | bootloader/UefiMain.c:315-351 | whatever regions below the end of memory, the nested loops push their frames one by one; afterwards a frame is free if and only if it lies in a conventional or persistent region, and all others are reserved; if no frame repeats and none is the end marker, the list is sound |
| Boot.SetUpPaging | bootloader/UefiMain.c:315-367 | memory map to page tables: nothing but identities is mapped; all of memory is mapped if and only if the list supplies the root and the tables of the closed form, which are then taken from its front; no path above memory is obstructed; frames are taken from the front of the list only, for no tables but those the range needs, and no memory outside the list is written |
| Startup.MapStackAndCode | bootloader/UefiMain.c:374-402 | two pages are taken and mapped one after the other, whatever the calls return; each test succeeds if and only if its address is then translated; with eight frames left both are, byte by byte to their pages: the stack top 0xFFFFFFFF7FFFEFF0 to offset 0xFF0 of the stack page, 0xFFFFFFFF80000000 to the start of the code page, both writable |
| Startup.AccountPage | bootloader/UefiMain.c:374-393 | a page for the upper half takes from the list one frame for itself and one for each table on its path that the upper half does not have yet |
| Startup.BootPages | bootloader/UefiMain.c:361-393 | with eight frames more than the tables of the identity map, the stack and code pages are mapped to their pages, and of the list exactly these frames and those tables are gone |
| Startup.KernelKeeps | bootloader/pagemanager.h:397-448 | mapping the kernel changes the translation of no address on whose page none of its pages lies |
| Startup.BootKernel | bootloader/UefiMain.c:315-426 | from the memory map to the kernel's view: every step does its part, the tests tell what it made of their addresses, memory stays mapped to itself if the tables for that were to be had, the image stays intact, a kernel whose mapping succeeded sees every byte of it, with the rights of its sections; with the frames for the two pages, the kernel is mapped if and only if the list also supplies the tables that its pages do not share with them, and the two pages stay unless one of its pages takes their place |
| Startup.BootedKernelSeesFile | bootloader/image.c:118-336 | a kernel that booted from a loaded file finds its sections, zero fill included, and its headers at the virtual base, outside the relocated words |
| Startup.KernelFollowsPointer | bootloader/image.c:276-322 | a relocated pointer to an offset of the image leads through the identity map to the image's byte at that offset, the same that the kernel sees at its virtual base |
| Paging.PageManager.constructor | bootloader/UefiMain.c:240-270 | every entry is reserved, with offset 0xFFFFFF and no references, and the list is empty |
| Paging.PageManager.GetFreePhysicalPage | bootloader/pagemanager.h:131-153 | the database in place changes as the functional pop does: the first frame is handed out, allocated with one reference, and no entry that is in use changes |
| Paging.PageManager.FreePhysicalPage | bootloader/pagemanager.h:159-177 | the entry of the frame becomes free without references, with the old head as its offset, and the new head; no other entry changes, and a number out of range changes nothing; the list stays sound if the frame was not free and is not the end marker, and the tables stay valid if it is none of them and holds no present entry |
| Paging.PageManager.AllocatePage | bootloader/pagemanager.h:181-204 | succeeds exactly if the list starts with a frame other than 0, and yields a page that nobody held |
| Paging.PageManager.PagingInit | bootloader/pagemanager.h:210-230 | the root is a zeroed frame off the list; nothing is mapped yet and all invariants hold |
| PageTree.TranslateByDepth | bootloader/pagemanager.h:254-275 | in a table tree the hardware's translation is decided by one entry of the last table on the path |
| PageTree.LinkKeepsTree | bootloader/pagemanager.h:258-270 | hanging an unused frame below a non-present entry keeps the tree: every table linked once, at one depth, in its own frame |
| PageTree.LinkKeepsTranslations | bootloader/pagemanager.h:258-270 | and changes the translation of no address |
| PageTree.LeafKeepsTree | bootloader/pagemanager.h:275 | a leaf keeps the tree, without the tables that hung from the overwritten entry |
| PageTree.LeafTranslations | bootloader/pagemanager.h:275 | and changes exactly the translations of the addresses that its entry serves |
| StaleFrames.LinkIsSilentExactlyWhen | bootloader/pagemanager.h:258-270 | at each of the three levels, linking a frame as it is changes no translation if and only if it is silent |
| StaleFrames.SilentPageTable | bootloader/pagemanager.h:258-270 | as a page table a frame is silent if and only if none of its entries is present |
| Mapping.AlignedPage | bootloader/pagemanager.h:97-98 | an aligned page of any size sends each of its bytes to the same byte of the frame with the flags' rights and memory type, and affects no other address |
| Mapping.UnalignedPage | bootloader/pagemanager.h:322-338 | a large or huge page that is not aligned to its size is never the identity at its first byte |
| Paging.PageManager.NextTable | bootloader/pagemanager.h:256-273 | one step of the descent reaches the next table, allocating it only if it is missing, and changes no translation |
| Paging.PageManager.UefiMapTables | bootloader/pagemanager.h:233-278 | takes one frame per missing level; on success maps exactly the page asked for; if frames run out, keeps every translation and leaves every frame taken in the tree; a bad level changes nothing |
| Paging.PageManager.MapPage | bootloader/pagemanager.h:286-301 | the same for a 4 KiB page |
| Paging.PageManager.MapLargePage | bootloader/pagemanager.h:305-320 | the same for a 2 MiB page |
| Paging.PageManager.MapHugePage | bootloader/pagemanager.h:323-338 | the same for a 1 GiB page, which no large page can obstruct |
| Paging.PageManager.MappingExists | bootloader/UefiMain.c:84-126 | succeeds if and only if the four words it reaches by masking entries look present |
| Paging.PageManager.TestsMatchWalk | bootloader/UefiMain.c:84-126 | with no large page on the path, these words lie in memory, and they look present if and only if the table walk finds a page, which for a canonical address is what the hardware translates |
| Presence.TestsRightExactlyWhen | bootloader/UefiMain.c:84-126 | for every address and every valid tree, the tests agree with the hardware if and only if the last entry on the path is missing, or is a 4 KiB page and the address is canonical, or is a large page whose contents look present exactly if it is translated |
| Presence.AlwaysRightExactlyWhen | bootloader/UefiMain.c:84-126 | a canonical address is answered correctly whatever the mapped frames contain if and only if no large page lies on its path |
| Presence.AliasIsAccepted | bootloader/UefiMain.c:84-126 | the tests accept the non-canonical alias of every address mapped by a 4 KiB page, on which the hardware faults |
| Presence.LargePageIsMissed | bootloader/UefiMain.c:84-126 | in a memory whose first 1 GiB is one huge page, the hardware translates address 0 and the tests deny it |
| Runs.StaysMapped | bootloader/UefiMain.c:392-402 | an address mapped present by MapPage stays mapped as long as later maps that serve it are present 4 KiB pages |
| Runs.RunThenTest | bootloader/UefiMain.c:392-402 | after any run, each step of which does exactly its part, MappingExists succeeds if and only if the address is translated; and it is, if MapPage succeeded in the run for its page and later maps keep it mapped |
| Runs.TablesSeparate | bootloader/pagemanager.h:129-338 | in every valid state each table is allocated, on neither the free list nor in a caller's hands, and referred to by exactly one entry, the root by none |
| Separation.KeptElsewhere | bootloader/pagemanager.h:181-204 | whatever is written outside the tables changes no table, translation or clear path |
| Separation.MapConfined | bootloader/pagemanager.h:256-275 | a map takes its tables from the front of the free list and writes to tables only |
| Runs.Perform | bootloader/pagemanager.h:129-338 | any legal sequence keeps the invariants and passes through states in which each operation does exactly its step: an allocation succeeds if and only if the list supplies a frame, a map if and only if it supplies the missing tables, a store writes its word; live pages are distinct; no frame comes from outside |
| Runs.RunFromInit | bootloader/pagemanager.h:210-338 | the same from SsPagingInit on: an address that no map serves faults |
| DirectMap.AlignedStep | bootloader/pagemanager.h:360-381 | once the first chunk is naturally aligned, every later one is |
| DirectMap.ChunksTile | bootloader/pagemanager.h:360-381 | the chunks follow each other without gap or overlap from start to end |
| DirectMap.ChunksCounted | bootloader/pagemanager.h:360-381 | their number is N/1G + (N mod 1G)/2M + (N mod 2M)/4K |
| DirectMap.GreedyIsOptimal | bootloader/pagemanager.h:360-381 | no tiling by the three sizes has fewer pages |
| DirectMap.DirectIsIdentity | bootloader/pagemanager.h:344-384 | a naturally aligned range is mapped to itself, and no other address is affected |
| DirectMap.DirectIsAlias | bootloader/pagemanager.h:344-384 | a naturally aligned range anywhere in the 64-bit space: each address goes to the last of its aliases in the range, cut to 52 bits |
| DirectMap.MixedEqualsUniform | bootloader/pagemanager.h:344-384 | for every naturally aligned range, mixing page sizes gives every address the translation that 4 KiB pages alone would give it |
| DirectMap.IdentityExactlyWhen | bootloader/pagemanager.h:344-384 | any range of 64-bit addresses is mapped to itself by its chunks if and only if it is naturally aligned and ends in the lower half |
| TableCost.ChunkCost | bootloader/pagemanager.h:256-273 | one chunk takes exactly the tables on its path that the tree does not have |
| TableCost.TablesForRange | bootloader/pagemanager.h:256-273 | from an empty tree the range takes one table per 512 GiB touched, one page directory if the end is no multiple of 1 GiB, and one page table if it is no multiple of 2 MiB |
| IdentityMap.MissingFaults | bootloader/pagemanager.h:256-277 | an address whose path lacks a table and meets no large page faults |
| IdentityMap.RoundNodes | bootloader/pagemanager.h:360-381 | whether or not frames suffice, a round adds no tables but those on the path of its chunk |
| IdentityMap.SuppliedTranslation | bootloader/pagemanager.h:360-381 | also in a shortage, every address is translated as the chunks that found frames say, in order |
| IdentityMap.DirectMapRange | bootloader/pagemanager.h:344-384 | rejects misaligned or empty ranges unchanged; otherwise asks for each chunk in turn, in the states it returns; with enough frames leaves exactly the translation of its chunks and exactly the remaining frames, with too few leaves some address of the range unmapped; an aligned range is mapped to itself if and only if there were enough, and gains nothing but identities; paths that no chunk serves stay clear, no tables are added but those that the range needs, and no other memory is written |
| Pe.HeadersSame | bootloader/pe.c:3-37 | what the headers and the section table say depends on their bytes alone |
| PeBytes.FieldsReadBack | bootloader/image.c:184-191 | every header field that the loader uses reads back as it was written, whatever stands between the fields |
| PeBytes.SectionsReadBack | bootloader/image.c:211-248 | the section table reads back entry by entry: sizes, addresses and characteristics |
| PeBytes.ValidExactlyWhen | bootloader/pe.c:3-37 | the image is valid if and only if it starts with "MZ", has the signature "PE", and names the x64 machine or the PE32+ format |
| ByteOrder.ReadBack | bootloader/image.c:311-319 | a number written in little-endian order reads back modulo its width |
| Placement.EverySectionPlaced | bootloader/image.c:225-248 | with disjoint extents every section holds its file bytes followed by zeros, and every other byte is unchanged |
| Placement.LastOwnerWins | bootloader/image.c:225-248 | where sections overlap, the last one that owns a byte decides it |
| Placement.PlacingKeepsHeaders | bootloader/image.c:225-248 | placing sections clear of the headers does not change what the loop reads |
| Placement.PlacedAsWritten | bootloader/image.c:225-248 | each byte comes from the last entry of the section table, as it was written, that reaches it: raw data first, then zeros |
| Placement.AlignFileImage | bootloader/image.c:198-251 | the loop, which reads each header from the image it is changing, places all sections; for headers written field by field, it accepts exactly the valid ones and leaves what their section table says; an invalid image is refused unchanged |
| Relocation.RelocationsCompose | bootloader/image.c:284-322 | relocating by two distances in turn is relocating by their sum modulo 2^64 |
| Relocation.RelocationInverts | bootloader/image.c:284-322 | relocating there and back restores the image byte for byte |
| Relocation.WordAfterRelocation | bootloader/image.c:311-322 | a target word grows by the distance once for each time it is listed |
| Relocation.RelocationEffect | bootloader/image.c:276-336 | with disjoint targets every target word moves by the distance and every other byte is unchanged |
| RelocationWalk.DirectoryDecodes | bootloader/image.c:295-336 | for any serialised blocks the walk decodes exactly their entries in order and stops at the end |
| RelocationWalk.SplittingIsHarmless | bootloader/image.c:295-336 | splitting a block does not change what is decoded |
| RelocationWalk.PaddingIsHarmless | bootloader/image.c:306-309 | ABSOLUTE padding does not change which words are fixed |
| RelocationWalk.BranchesAgree | bootloader/image.c:284-322 | the adding and the subtracting branch move a word by the same distance modulo 2^64 |
| RelocationWalk.RelocateBlocks | bootloader/image.c:295-336 | the loops apply all fixups up to the first of an unknown kind, which they report, to the image they are reading from |
| RelocationWalk.RelocateImage | bootloader/image.c:255-340 | an invalid image is refused; a valid one is relocated by Image - ImageBase if and only if the two differ, on either side, and it has more than five directories; otherwise it is left alone |
| RelocationTable.DirectoryRelocatable | bootloader/image.c:276-336 | a directory of blocks with words of known kinds, clear of headers and directory, is one that the loops walk as it was written |
| RelocationTable.DirectoryMoves | bootloader/image.c:276-336 | on either side of the preferred base, every word that such a directory names becomes the word before plus Image - ImageBase modulo 2^64, and no other byte changes |
| RelocationTable.UnknownReported | bootloader/image.c:303-330 | the status is success if and only if every word is padding or a 64-bit fixup |
| KernelMap.PageSendsBytes | bootloader/pagemanager.h:407 | one page sends the bytes it covers to the same offset from the physical base |
| KernelMap.PagesSendBytes | bootloader/pagemanager.h:405-446 | in whatever order pages are mapped over each other, a covered offset leads to the image's byte at that offset, and any other address is as before |
| KernelMap.ImageStays | bootloader/pagemanager.h:405-446 | mapping a page keeps the image byte for byte, although its tables come from the same memory |
| KernelMap.FilledRange | bootloader/pagemanager.h:421-427 | for any two sizes the fill covers the bytes from their sum up to twice the virtual size, both reduced by 2^32 if the sum reaches it, and none if the virtual size is not the larger |
| ImageMemory.ZeroMem | bootloader/pagemanager.h:421-427 | exactly the bytes of the range become zero, and no other word changes |
| ImageMemory.ImageSurvivesExactlyWhen | bootloader/pagemanager.h:421-427 | an image survives a fill if and only if its bytes in the range are zero already |
| ImageMemory.TablesSurviveExactlyWhen | bootloader/pagemanager.h:421-427 | the tables survive a fill if and only if their bytes in the range are zero already |
| ImageMemory.ZeroingKeepsClean | bootloader/pagemanager.h:421-427 | a fill leaves free frames without present entries, whichever of them it covers |
| ImageMemory.FilledTableFaults | bootloader/pagemanager.h:421-427 | a fill that covers one table unmaps every address below it |
| KernelMap.FillKeeps | bootloader/pagemanager.h:421-427 | a fill that covers only zeros of the tables and the image keeps tables, translations, paths, image and clean free frames, and changes no other byte |
| KernelMap.PageSurvives | bootloader/pagemanager.h:397-448 | a frame that the allocator does not manage keeps its contents while the kernel is mapped, unless a fill touches it |
| KernelMap.FillDestroys | bootloader/pagemanager.h:421-427 | a section of 0x2000 bytes with 0x1000 in the file destroys what an image has in the frame at 0x3000, and unmaps every address below a table there |
| KernelMap.PageTakes | bootloader/pagemanager.h:405-446 | each page takes exactly its missing tables, or is the first for which the frames do not suffice |
| KernelMap.SuccessExactlyWhen | bootloader/pagemanager.h:405-446 | mapping a list of pages succeeds if and only if the tables they need together are in supply |
| KernelMap.MapKernel | bootloader/pagemanager.h:397-448 | fills sections and maps the pages of headers and sections in order; succeeds if and only if the list supplies the tables that they need together, which are then exactly what it has lost; otherwise stops at the first page for which it does not; the image stays intact, what was filled is zero, and no other memory changes but tables and free frames |
| KernelMap.KernelSeesImage | bootloader/pagemanager.h:397-448 | after success, loads from the virtual base yield the image's bytes at all offsets in the headers or in a section |
| KernelRights.FlagsInverted | bootloader/pagemanager.h:429-435 | the pages of a section are writable if and only if its highest characteristic bit is clear |
| KernelRights.KernelRightsAre | bootloader/pagemanager.h:397-448 | after success every address from the virtual base on is translated as the last section on whose pages it lies says, or else the headers, or else as before: to the same offset from the physical base, writable if and only if the section is not marked writable |
| Loader.LoadImage | bootloader/image.c:118-189 | header copy, section placement and relocation together yield the relocated image of the file |
| Loader.WrittenIsLoadable | bootloader/image.c:118-336 | a file written with sections inside file and image and clear of the headers is one that the loader takes, at any address, if the relocation directory, where one is needed, names words of known kinds clear of it and the headers |
| Loader.WrittenFileLoads | bootloader/image.c:118-336 | from headers, sections and relocation directory as they were written to the image: every byte as the section table says, and then, if the address is not the preferred base, every named word moved by the distance |
| Loader.LoadedImageHolds | bootloader/image.c:118-336 | outside relocated words a loaded image holds what the file's section table says |
| Loader.KernelSeesFile | bootloader/pagemanager.h:397-448 | and a kernel mapped from it loads exactly these bytes at its virtual base |
| Loader.KernelSeesHeaders | bootloader/pagemanager.h:402-413 | from the headers, where no section and no relocation touches them, the kernel loads the file's own bytes |
| Loader.KernelSeesTarget | bootloader/image.c:311-322 | with targets apart, the eight bytes that the kernel loads at a relocated word are the placed word plus Image - ImageBase modulo 2^64 |
| Loader.PointerMoves | bootloader/image.c:284-322 | a pointer to an offset of the image at its preferred base becomes a pointer to that offset at the address of the image |
| Runtime.OverlapTest | libs/runtimelib/string.c:19-23 | the two comparisons detect exactly the overlaps of two different ranges |
| Runtime.Memcpy | libs/runtimelib/string.c:4-58 | for every size and alignment the three phases copy the range and change nothing else; a partial overlap yields NULL and no change |
| Runtime.CopyWord | libs/runtimelib/string.c:36-43 | a copied long has the bytes of its source, and its store is aligned |
| Runtime.Memset | libs/runtimelib/string.c:62-80 | exactly the bytes of the range become the value modulo 256 |
| Runtime.Strlen | libs/runtimelib/string.c:175-182 | the distance to the first terminator |
| Runtime.TextIs | libs/runtimelib/string.c:175-182 | a string is what stands before its first terminator |
| Runtime.Strchr | libs/runtimelib/string.c:107-123 | the first occurrence, the terminator included; NULL exactly if there is none |
| Runtime.Strcmp | libs/runtimelib/string.c:126-139 | the unsigned difference of the first bytes that differ |
| Runtime.CompareHere | libs/runtimelib/string.c:126-139 | where two texts first differ, the result is the character of the first minus that of the second, an end counting as 0 |
| Runtime.ZeroIsEqual | libs/runtimelib/string.c:126-139 | comparing yields 0 exactly for equal strings |
| Runtime.DifferenceFlips | libs/runtimelib/string.c:126-139 | exchanging the strings changes the sign |
| Runtime.DifferenceOrders | libs/runtimelib/string.c:126-139 | the order is transitive |
| Runtime.Strlcpy | libs/runtimelib/string.c:142-172 | returns the length of the source and leaves as much of it as fits, terminated, changing nothing else |
| Runtime.CopyLaws | libs/runtimelib/string.c:126-182 | the copy's length is min(strlen(src), sz - 1), and it compares equal to the source exactly if strlen(src) < sz |
| Decimal.ConOutPrintDecimal | kernel/entry.c:100-127 | prints the decimal form of any 64-bit value, in characters 0x30 to 0x39, without a leading zero, in at most 20 of the 32 places |
| Decimal.DecimalUnique | kernel/entry.c:100-127 | a number has one decimal form only |

## Left out

- Paging.PageManager.UefiMapTables: requires that the descent meets no large page, because the code follows such an entry as if it were a table and then writes into the page. For the same reason the re-map of the switch page (bootloader/UefiMain.c:404-405) is not modelled.
- Paging.PageManager.TestsMatchWalk: requires the same; `Presence.TestsRightExactlyWhen` does not.
- Paging.PageManager.AllocatePage: the firmware's claim on a frame from the list (bootloader/pagemanager.h:192-200) succeeds in the model; a refusal would drop the frame. The output is 0 on failure, which is what all callers test for, although the code leaves it unwritten.
- IdentityMap.DirectMapRange: requires an end below 2^48, because the database describes at most 2^32 frames, so memory ends before; `DirectMap.IdentityExactlyWhen` and `DirectMap.DirectIsAlias` cover the other ends. The path of its tail must not meet a large page that is there already.
- Boot.SetUpPaging: requires page-aligned, disjoint regions that do not cover frame 0xFFFFFF; `Boot.BuildFreeList` and `FreeList.ListBuiltExactlyWhen` say what the loops do otherwise.
- Startup.BootKernel: requires that the fills spare the frames that the boot has taken from the list by then, or the whole list if that does not even supply the stack and code pages. It leaves out the contents of the code page (bootloader/UefiMain.c:388-390), whose store goes to a page that the boot holds (to address 0 if that allocation failed), and the writes to CR3.
- Placement.AlignFileImage: requires sections that stay inside file and image and clear of the headers; the code does not test this.
- RelocationWalk.RelocateBlocks: requires a directory inside the image and targets that change neither headers nor directory; the code does not test this.
- KernelMap.MapKernel: requires that its fills destroy neither the image nor a table that exists by then.
- Loader.KernelSeesTarget: requires targets that do not overlap; `Relocation.WordAfterRelocation` covers repeated targets.
- Runtime.Strlcpy: the result is the length; the code returns it as a pointer type.
- Firmware services, console output, waiting for keys, file access, control registers, the time-stamp counter and TLB effects.
- BlLdrLoadPEImageFile and the allocation of file and image buffers: the buffers are inputs.
- UnmapPage, PhysicalToVirtual, the ALIGN_LARGE and ALIGN_HUGE macros and the RuntimeVA argument: stubs or unused.
- memcmp and strstr (libs/runtimelib/string.c:84-104, 184-191): the first has no result for equal ranges, the second no body.
- Frames of tables that a larger page replaces are lost to the code; the model drops them from the tree and never reuses them.
- The TLB benchmark (kernel/entry.c:129-210), bootloader/util.c and the rest of the kernel: only easy members, or hardware timing.
