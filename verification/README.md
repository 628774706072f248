# Verified model of the kernel's memory management, devicetree reader and number output

The project models the hard core of a small RISC-V 64 kernel and proves what that code is
for. `dafny verify dfyconfig.toml` checks everything.

## What is modelled

**The buddy page allocator** (`kernel/src/mm/pmm.c`, `pfndb.c`, `page.h`). `PageAllocator.Pmm`
keeps the page descriptors, the ten intrusive free lists and the counters of the C code and
changes them in the same steps. Beside them stands a ghost map `frames` that names the owner
of every page frame: reserved, or a block with its head, order and state. The descriptors are
only right on block heads, as in the C code; the proof that the buddy test may read them
anyway is `BuddyState.StaleIsHarmless`, and it rests on `frames` being a partition into
aligned blocks without two free buddies. From that one invariant follow completeness of
allocation, canonical coalescing, conservation and, in `Histories`, safety and independence
of history over whole runs. The contracts of `PageAlloc` and `PmmFree` are the two steps
(`AllocStep`, `FreeStep`) of which such a run is made, and `Histories.Serve` makes one: it
serves any sequence of requests and gives back the run it went through. `Boot.StartAndServe`
does so from start-up on.

**The page-table builder** (`kernel/src/mm/paging.c`). Memory is a map from page numbers to
512 entries. `Sv.Translate` is the address translation of section 4.3.2 of the RISC-V
Privileged Architecture, for Sv39, Sv48 and Sv57, written without reference to the builder.
`PageTables.Paging` changes the tables in place and is proved against it: what was asked for
is translated, everything else is translated as before, and the tables stay a tree whose
pages nobody else is handed (`TablesSurvive`). One page is mapped exactly when no
superpage conflicts and the tables its path lacks are at most the free pages (`Outcome`); why
a mapping can fail is stated for every operation (`Obstacle`), and so is where the new tables
lie (`NewServe`). Superpage leaves left by the bootloader are part of the model.
`KernelMap` says the result byte by byte, without the builder's rounding: which addresses of the
direct map and of the kernel image translate, to what, and which are left alone.
`Boot.StartPaging` runs it all in the order of `kmain`, where the memory map given to
`paging_init` has already been cut.

**The devicetree reader** (`kernel/src/dev/fdt.c`). `DeviceTree.Items` is the abstract tree and
`DeviceTree.Encode` its flattened form (sections 5.4 and 5.5 of the Devicetree Specification
v0.4). The two scanners of the C code, the node walker with its path buffer and frame stack
and the depth-counting property scan, are modelled as functions of arbitrary bytes
(`FdtScan`, `FdtLookup`), as imperative code proved equal to those functions (`Fdt`,
`FdtQueries`), and related to the tree (`FdtWalk`, `FdtTree`, `FdtOpen`, `FdtPaths`, `FdtReg`).

**Number output** (`kernel/src/lib/printk.c`). Digits, padding, sign, time stamp and the count
of characters written, and the text of any lines with their breaks and stamps (`LinesOut`).

Modules: `Machine` (sizes and rounding), `Bits` (shifts, masks, alignment, buddies), `Ownership`,
`FreeLists`, `BuddyState`, `PageAllocator`, `Histories`, `PfnDatabase`, `Boot`, `Sv`, `Pte`, `PageTree`, `PageTables`, `KernelMap`,
`DeviceTree`, `FdtScan`, `FdtWalk`, `FdtLookup`, `FdtTree`, `FdtOpen`, `FdtPaths`, `FdtReg`, `Fdt`,
`FdtQueries`, `Printk`.

## What the code asks of its callers

- `pmm_free` is right for the pointer of a live block. Its refusals look at the flags of one
  page only; `PageAllocator.Refused` says which calls they stop. Freeing the same pointer again
  right away is refused exactly when the page then heads its free block (`PmmFree`), that is,
  when no aligned free run that starts below reaches it (`HeadsItsBlock`). A page merged into a lower
  buddy keeps its USED flag, and the second free is let through: `FreedTwice` gets there with two
  one-page buddies. The contract of `PmmFree` excludes carrying out such a call.
- `pmm_init` runs on descriptors whose flags are exactly FREE or RESERVED, which is what
  `PfnDb.Init` leaves. Usable memory-map entries do not overflow 64 bits; `Boot` also needs
  them page-aligned and disjoint.
- `pfndb_init` takes a database at physical address 0 for a failure, after it has already cut
  the entry (`kernel/src/mm/pfndb.c:86`), so it is not true that the database is built
  whenever an entry has room: `BaseZeroFails` is a map on which it is not. `PfnDb.Init` says
  exactly when it succeeds, as a condition on the memory map alone, and `ZeroIsAmbiguous` when
  the same sentinel in `pfndb_page_to_phys` is harmless.
- Mappings ask for at least one of read, write and execute, for canonical addresses that do
  not wrap, and for physical addresses below 2^56; kernel segments start at or above the
  kernel's virtual base and lie outside the direct map. The tables found at start-up form a tree of
  valid entries with aligned superpages.
- An existing leaf that already maps the page is kept with whatever it has besides the access
  asked for, and the test does not look at its U bit (`kernel/src/mm/paging.c:118-145`). The
  kernel runs in supervisor mode and never sets SUM, so a user leaf is accepted and then faults:
  `UserLeafAccepted` is such an entry, and `CoversGrants`, `MapOne` and `KernelAccess` say that
  the kernel has the access exactly when the leaf found was not a user leaf. Leaves written here
  never are.
- A leaf on the last level that maps something else is overwritten, not refused
  (`kernel/src/mm/paging.c:230-238`); a conflicting superpage is refused. `MapLeaf` and `MapOne`
  say both.
- The structure block of a devicetree blob is a multiple of four bytes, and blocks start
  aligned. `compatible` values end with a NUL. The bound test of `fdt_get_reg` is done in 32
  bits: `PastEndExact` gives the exact condition under which it is right, `PastEndWraps` an
  index for which it is not, and `InBoundsExact` when it still keeps the reads inside the
  property. Where it does not, the code reads almost 16 GiB behind the property (`StrayIsFar`),
  which is outside any blob; `GetReg` says where.
- On a tree that exceeds the walker's limits, the walk reports the nodes in preorder up to the
  first item that does not fit (`WalkerTakes`).
- The path buffer is not always NUL-terminated: when the name of a child does not fit, the
  slash before it has already replaced the terminator (`kernel/src/dev/fdt.c:177-187`).
  `SlashLeftExample` is a tree where this happens, and `NextNode` says exactly when. Every
  caller stops at the first failed call; a further call reads on behind the refused token and may
  find a node (`RefusalIsNotFinal`), but on a block that ends with its end token it finds
  nothing (`FurtherCallsStop`).

Every lemma is marked `{:induction false}`: no proof rests on automatic induction.

## Model

| member | source | states |
|---|---|---|
| BuddyState.StaleIsHarmless | kernel/src/mm/pmm.c:58-77 | Where the coalescing loop accepts a buddy by its flag and order, that page really heads a free block of that order and is on that order's list, although pages inside blocks keep old flags and orders |
| Ownership.FreeBlocksAreMaximalRuns | kernel/src/mm/pmm.c:53-81 | In a coalesced state a free block of order k stands at p exactly when the 2^k frames at p are a maximal naturally aligned free run of order at most 9 |
| Ownership.CanonicalForm | kernel/src/mm/pmm.c:53-81 | Two states with the same free frames have the same free blocks of every order |
| Ownership.CanonicalFrames | kernel/src/mm/pmm.c:53-81 | Two states that agree on who owns every frame that is not free, and on which are free, are the same state |
| Ownership.FreeRunExists | kernel/src/mm/pmm.c:168-201 | There is an aligned free run of 2^k frames exactly when some free block has order k or more, so searching the lists upwards from k is complete |
| Ownership.Conservation | kernel/src/mm/pmm.c:97-119 | Free frames and the sizes of the other owned blocks add up to the frames the allocator owns |
| Ownership.RunSize | kernel/src/mm/pmm.c:195-233 | A run of order k has 2^k frames, the amount the counters move by |
| Bits.BuddyHalves | kernel/src/mm/pmm.c:48-51 | Flipping bit k of an aligned frame number gives the other half of the enclosing aligned run of 2^(k+1) frames, and the lower half heads it |
| Bits.RunsNest | kernel/src/mm/pmm.c:58-77 | Two aligned runs that share a frame are nested, so the smaller lies inside the larger |
| FreeLists.PushLinked | kernel/src/mm/pmm.c:23-32 | Pushing a page that is on no list keeps next and prev mutually inverse, the head without prev and the count equal to the length, with the page in front |
| FreeLists.RemoveLinked | kernel/src/mm/pmm.c:34-46 | Unlinking the page at any position, head and tail included, leaves the list of the others well linked, acyclic and rightly counted |
| BuddyState.StepMerge | kernel/src/mm/pmm.c:69-77 | Joining a held block with its unlisted buddy keeps the lists, the descriptors of all block heads and the ownership in step |
| BuddyState.StepSplit | kernel/src/mm/pmm.c:184-191 | Halving a held block and listing its upper half keeps them in step |
| BuddyState.ListsHoldFreeFrames | kernel/src/mm/pmm.c:23-46 | The sum over the orders of count * 2^order is the number of free frames |
| PageAllocator.Pmm.ListPush | kernel/src/mm/pmm.c:23-32 | The list gets the page in front; all other lists and descriptors are unchanged but for the links named |
| PageAllocator.Pmm.ListRemove | kernel/src/mm/pmm.c:34-46 | The list loses exactly that page, wherever it stands |
| PageAllocator.Pmm.FreeBlock | kernel/src/mm/pmm.c:53-81 | The block's frames become free and nothing else changes owner; the state is again partitioned and coalesced, with no frame left over |
| PageAllocator.Pmm.Init | kernel/src/mm/pmm.c:83-126 | From a database of FREE and RESERVED pages: exactly the FREE pages are free, the rest stay reserved, each is freed once, and free equals total |
| PageAllocator.Pmm.PageAlloc | kernel/src/mm/pmm.c:168-201 | Null exactly when the allocator is not ready, the order is 10 or more, or no aligned run of that size is entirely free, and then nothing changes; otherwise an entirely free aligned run, from the shortest list that has one, becomes a live block and nothing else changes owner |
| PageAllocator.SmallestBlockServes | kernel/src/mm/pmm.c:178-184 | The page taken headed a free block large enough, and no free block large enough was smaller |
| PageAllocator.Pmm.Carve | kernel/src/mm/pmm.c:184-195 | Splitting down gives back everything above the first 2^order frames as free blocks and makes those a live block |
| PageAllocator.Pmm.PmmAlloc | kernel/src/mm/pmm.c:133-166 | The same with the page turned into its direct-map address |
| PageAllocator.Pmm.PmmFree | kernel/src/mm/pmm.c:203-235 | A pointer into a live block's head page gives back exactly that block and the counter grows by its size; a null, out-of-range, reserved or FREE-flagged page changes nothing. Right after a free, the same pointer is refused exactly when its page heads the free block it ended in |
| PageAllocator.HeadsItsBlock | kernel/src/mm/pmm.c:53-81 | In a coalesced state a free page heads its block exactly when no aligned free run of an allowed order that starts below it reaches it |
| PageAllocator.FreedTwice | kernel/src/mm/pmm.c:203-235 | Allocating both of two one-page buddies and freeing them, the lower one first, ends in a state in which the pointer of the upper, free page is accepted once more |
| PageAllocator.PointerRoundTrip | kernel/src/mm/pmm.c:163-219 | Page to direct-map pointer and back is the identity, also where the direct map wraps around 64 bits |
| PageAllocator.PointerInto | kernel/src/mm/pmm.c:215-219 | Any pointer into a page, up to its last byte, gives that page |
| PageAllocator.LiveIsAccepted | kernel/src/mm/pmm.c:203-231 | The flags never refuse the pointer of a live block |
| PageAllocator.Refused | kernel/src/mm/pmm.c:221-231 | Freeing a reserved page, or the head of a free block again, is refused |
| PageAllocator.Accounting | kernel/src/mm/pmm.c:195-233 | The free counter is the sum of count * 2^order and the number of free frames; with the sizes of the live blocks it is the total |
| Histories.LedgerIsLive | kernel/src/mm/pmm.c:133-235 | After any sequence of allocations and frees the live blocks are exactly those handed out and not given back, and reserved frames are the original ones |
| Histories.OutstandingBlocksAreSafe | kernel/src/mm/pmm.c:133-235 | Over every run, each outstanding block is aligned, of order below 10, inside the database, without reserved pages, and disjoint from every other outstanding block and from all free frames |
| Histories.HistoryIndependence | kernel/src/mm/pmm.c:53-81 | Two runs from the same start with the same outstanding blocks end in the same state, whatever was allocated and freed in between and in which order |
| Histories.AllocFreeRoundTrip | kernel/src/mm/pmm.c:168-235 | Allocating and then freeing the block restores every block of every order |
| Histories.Serve | kernel/src/mm/pmm.c:133-235 | Any sequence of allocation requests and returns of held pages, served through pmm_alloc and pmm_free, is a run in the sense of the lemmas above, and what the callers hold is its ledger |
| PfnDatabase.PfnDb.CalcMaxPfn | kernel/src/mm/pfndb.c:17-32 | The last frame of the memory map: MaxPfn of its entries |
| PfnDatabase.MaxPfnIsLargest | kernel/src/mm/pfndb.c:17-32 | MaxPfn is the largest last frame of any usable entry, zero-length ones included, or 0 |
| PfnDatabase.UsableBelowMax | kernel/src/mm/pfndb.c:17-32 | No usable frame lies above it |
| PfnDatabase.CoversBytes | kernel/src/mm/pfndb.c:54-70 | A frame counts as usable exactly when one of its bytes belongs to a usable entry |
| PfnDatabase.EndPfnIsNext | kernel/src/mm/pfndb.c:26-28 | The frame behind an entry is the first one that starts at or above its end |
| PfnDatabase.PfnDb.ReserveStorage | kernel/src/mm/pfndb.c:34-52 | The first usable entry long enough loses its first bytes to the database; with none, nothing changes |
| PfnDatabase.PfnDb.MarkRange | kernel/src/mm/pfndb.c:54-70 | Exactly the pages the range touches and the database has get the flags; all others are unchanged |
| PfnDatabase.PfnDb.Init | kernel/src/mm/pfndb.c:72-107 | It succeeds exactly when both boot responses are there and the first entry with room for the records of all frames up to the last does not start at address 0; then a page is FREE if and only if an entry left after carving covers it, and RESERVED otherwise. The memory map is cut exactly when some entry has room, also if it then fails |
| PfnDatabase.BaseZeroFails | kernel/src/mm/pfndb.c:85-89 | A sane map with two entries large enough on which the database is not built, because the first starts at address 0 |
| PfnDatabase.CarvedUsable | kernel/src/mm/pfndb.c:34-52 | After carving, a frame is usable exactly when it was usable and does not hold the database |
| PfnDatabase.CarvedBytes | kernel/src/mm/pfndb.c:44-46 | Cutting an entry takes away its first bytes and no others |
| PfnDatabase.StorageSizeOk | kernel/src/mm/pfndb.c:12-15 | The storage is the least number of whole pages that holds a record of 24 bytes for every frame |
| PfnDatabase.StorageFrames | kernel/src/mm/pfndb.c:12-15 | The frames that hold the database are exactly those in which a record of it lies |
| PfnDatabase.ConversionsInverse | kernel/src/mm/pfndb.c:119-156 | Page, frame number and physical address convert back and forth without loss inside the database, and outside it the failure value comes back |
| PfnDatabase.PhysInverse | kernel/src/mm/pfndb.c:138-156 | Any address in the database range gives the page that starts at or before it, any other gives no page |
| PfnDatabase.ZeroIsAmbiguous | kernel/src/mm/pfndb.c:138-146 | The failure value 0 can be told from the address of a page exactly when the page is not page 0 |
| Boot.StartMemory | kernel/src/main.c:38-42 | Database and allocator started in order: it succeeds exactly when the memory map is bootable, and then the new allocator is ready for requests, a frame is free if and only if the memory map calls it usable and the database is not stored there, everything else is reserved, nothing is allocated, and the memory map has lost exactly the storage |
| Boot.StorageReserved | kernel/src/mm/pfndb.c:94-104 | The frames holding the database are in range and reserved |
| Boot.FreeAtStart | kernel/src/mm/pfndb.c:72-107 | After start-up a frame is free exactly when it is in a usable entry and not in the first 24 bytes per frame of the entry that was cut; otherwise it is reserved |
| Boot.FramesAtStart | kernel/src/mm/pfndb.c:17-32 | There is a record for every frame up to the end of the highest usable entry, and no more |
| Boot.DatabaseIsNeverHandedOut | kernel/src/mm/pfndb.c:72-107 | Over every run from start-up no outstanding block touches the database or memory not called usable |
| Boot.FirstRequest | kernel/src/mm/pmm.c:97-119 | After start-up any aligned run of usable frames outside the database is free |
| Boot.StartAndServe | kernel/src/main.c:38-42 | Start-up followed by any requests: the blocks then held are of usable frames outside the database, and share no frame |
| Boot.StartPaging | kernel/src/main.c:38-60 | Database, allocator and page tables started in order: paging_init runs on the cut memory map; on success every byte of it can be read and written at its direct-map address, every byte of the segments leads to its place in the loaded image with its segment's access, and in any case the addresses of the database in the direct map translate as the bootloader left them |
| Boot.DatabaseOff | kernel/src/mm/paging.c:270-297 | No page the cut memory map touches, and none of the segments, shows the database |
| Pte.LeafFlagsMeaning | kernel/src/mm/paging.c:89-106 | The leaf flags are valid and accessed, never user, readable, writable, executable and global exactly as asked, where write brings read and dirty along |
| Pte.LeafPteMeaning | kernel/src/mm/paging.c:236-238 | The entry written is a leaf of the Sv format with the page number of the address and exactly the leaf flags |
| Pte.TablePteMeaning | kernel/src/mm/paging.c:113-116 | A table entry is a pointer in the Sv format that converts back to the table's address |
| Pte.IndexIsDigit | kernel/src/mm/paging.c:152-165 | The shifted and masked index is the level's 9-bit digit of the virtual page number |
| Pte.CoversMeaning | kernel/src/mm/paging.c:118-145 | For an entry with a page number in range, the test holds exactly when the leaf translates the address to the wanted physical address and has at least the wanted R, W, X and G with A, and D for writing; the U bit is not looked at |
| Pte.CoversGrants | kernel/src/mm/paging.c:118-145 | A leaf that is accepted gives the kernel the access exactly when its U bit is clear |
| Pte.UserLeafAccepted | kernel/src/mm/paging.c:118-145 | An entry that is accepted and gives the kernel no access, being a user leaf |
| Sv.CanonicalVpn | kernel/src/mm/paging.c:152-165 | Canonical addresses in different pages have different virtual page numbers, for Sv39, Sv48 and Sv57 |
| Sv.TranslateExample | kernel/src/mm/paging.c:193-241 | Three tables in numbers, with the page, the superpage and the fault that the hardware finds in them |
| PageTree.LinkFrame | kernel/src/mm/paging.c:202-212 | Linking an empty table into an empty slot changes no walk from any table |
| PageTree.LeafFrame | kernel/src/mm/paging.c:230-239 | Writing a last-level entry changes no walk except those of that page |
| PageTree.StepLink | kernel/src/mm/paging.c:202-212 | Linking a fresh table keeps the tables a tree, keeps every walk, and keeps the walk of this address on its path |
| PageTree.StepLeaf | kernel/src/mm/paging.c:230-239 | Writing the leaf keeps the tree and all walks but the one of this page, which now ends in the new leaf |
| PageTree.ReferencedOnce | kernel/src/mm/paging.c:193-241 | Every table but the root is pointed to by exactly one slot of one table, which exists, and the root by none |
| PageTables.Paging.AllocTable | kernel/src/mm/paging.c:167-191 | A new table is a zeroed one-page live block that was no table before, and only its page leaves the free ones; failure means no free page is left and changes nothing |
| PageTables.Paging.LinkTable | kernel/src/mm/paging.c:202-212 | The slot points to a new empty table and only its page leaves the free ones, or no page is free; no translation changes either way |
| PageTables.Paging.MapOne | kernel/src/mm/paging.c:193-241 | It succeeds exactly when no superpage conflicts and the tables missing on the path are at most the free pages; the new tables are that many, or all free pages, and lie on the path of the address. On success the address walks to exactly the requested page with at least the requested access, for the kernel unless it was so mapped by a user leaf, through a leaf of its own with exactly the requested flags unless it was already so mapped (then nothing is written), and every other page translates as before. On failure no translation changes. The frames taken from the allocator are exactly the new tables, and the tables stay a tree |
| PageTables.Paging.MapLeaf | kernel/src/mm/paging.c:228-241 | The last level always succeeds: a leaf that serves is kept, any other is overwritten |
| PageTables.Paging.MapPage | kernel/src/mm/paging.c:372-383 | The same behind the alignment and root checks, which refuse exactly where they fail; with every cause of a refusal |
| PageTables.Paging.MapRange | kernel/src/mm/paging.c:385-403 | Success makes the whole page-rounded range translate at a constant offset, with access for the kernel on each page that was not mapped by a user leaf; nothing outside changes in any case, and every new table lies on the path of an address of the range. Failure means a misaligned address, no root, no page left for tables, or a superpage that conflicted before the call on some page of the range |
| PageTables.Paging.MapHhdm | kernel/src/mm/paging.c:270-297 | Success maps every page the memory map touches at its direct-map address, overlapping entries included; failure has one of the causes above on some entry; nothing elsewhere changes, and every new table lies on the path of an address of the direct map |
| PageTables.Paging.MapSegment | kernel/src/mm/paging.c:243-268 | Success maps every page of the segment at the kernel's load offset; failure has one of the causes above; nothing outside it changes, and every new table lies on the path of one of its addresses |
| PageTables.Paging.MapSegments | kernel/src/mm/paging.c:299-324 | Success maps the pages of all segments; where segments share a page the later one decides its access and the address is the same; failure has one of the causes above on some segment; every new table lies on the path of an address of a segment |
| PageTables.Paging.Init | kernel/src/mm/paging.c:343-370 | On success both the whole direct map and all segments are mapped: later mappings did not disturb earlier ones. Failure means no load address or one of the causes above, in the tables as they were before. Nothing outside the two areas changes, and every new table lies on the path of an address in them |
| PageTables.MappedHadNoConflict | kernel/src/mm/paging.c:214-224 | A range that has been mapped had no conflicting superpage before, so such a conflict always fails the mapping |
| PageTables.KernelAccess | kernel/src/mm/paging.c:228-241 | A page mapped by any of these gives the kernel the access asked for, unless it had been mapped by a user leaf before |
| PageTables.TablesSurvive | kernel/src/mm/paging.c:167-179 | Over any run of other callers' allocations and frees in which no table is freed, no block handed out meets a table and the tables stay out of the free blocks |
| PageTables.ExtentKept | kernel/src/mm/paging.c:278-294 | Mapping one memory-map entry keeps the direct map of any other, even where they overlap |
| PageTables.HhdmKept | kernel/src/mm/paging.c:361-366 | Mapping the kernel segments keeps the direct map |
| KernelMap.DirectMapCovers | kernel/src/mm/paging.c:270-297 | Once the direct map has been built, every byte of every memory-map entry, usable or not, is found at the direct-map offset, readable and writable |
| KernelMap.SegmentCovers | kernel/src/mm/paging.c:243-268 | Once a segment has been mapped, each of its bytes, and all of its first and last page, leads to the physical load address plus its distance from the virtual one, with the segment's access |
| KernelMap.ImageCovers | kernel/src/mm/paging.c:299-324 | Once all segments have been mapped, each of their bytes leads to its place in the image, with the access of its segment unless a later one shares the page |
| KernelMap.RangeShows | kernel/src/mm/paging.c:385-403 | Each byte of a mapped range is found at the same distance from the start of the physical range |
| KernelMap.ElsewhereKept | kernel/src/mm/paging.c:343-370 | An address on no page of the memory map or of a segment translates as before |
| FdtWalk.WalkerRefinesTree | kernel/src/dev/fdt.c:125-260 | On the flattened form of any tree within the limits the walk reports exactly the nodes in preorder with offset, path and parent cell counts, and then stops |
| DeviceTree.FlattenedExample | kernel/src/dev/fdt.c:6-10 | A small tree in its flattened form, byte for byte |
| FdtWalk.WalkerTakes | kernel/src/dev/fdt.c:125-260 | On the flattened form of any well-formed tree, within the limits or not, the walk reports the nodes in preorder up to the first item that does not fit, and then stops |
| FdtWalk.TakenWhole | kernel/src/dev/fdt.c:145-187 | Everything in the tree is reported exactly when it keeps the limits: at most 32 levels, paths below 256 bytes, cell counts of one word |
| FdtWalk.WalkPending | kernel/src/dev/fdt.c:125-260 | From any point of the scan the walk reports exactly the nodes still to come, with the path and the counts restored at each END_NODE |
| FdtTree.WalkReportsNodes | kernel/src/dev/fdt.c:125-260 | With properties before child nodes and each cell count given once, the reported path is the full path from the root and the counts are what property lookup finds in the parent, or 2 and 1 |
| FdtTree.FullPathInjective | kernel/src/dev/fdt.c:168-190 | Different lists of names without slashes give different full paths |
| FdtTree.FullPathExample | kernel/src/dev/fdt.c:168-190 | The root is / and the child uart of soc is /soc/uart |
| FdtOpen.ReportedPaths | kernel/src/dev/fdt.c:168-210 | On arbitrary bytes every path the walk reports is the join of the names of the nodes open at that token |
| FdtOpen.PathsAreJoins | kernel/src/dev/fdt.c:143-210 | The same from any state of the walk whose path and frames belong to its open nodes |
| FdtOpen.PathAfterCall | kernel/src/dev/fdt.c:125-260 | Whether or not a call finds a node, the path it leaves is the join of the names of the open nodes |
| FdtOpen.SlashLeftExample | kernel/src/dev/fdt.c:171-187 | A tree on whose third node the path buffer loses its terminator |
| FdtOpen.RefusalIsNotFinal | kernel/src/dev/fdt.c:139-141 | A call after the last one may find a node, because the cursor stands behind the token that ended the walk |
| FdtWalk.FurtherCallsStop | kernel/src/dev/fdt.c:139-141 | On a block that is exactly a flattened tree within the limits and its end token, the walk ends at the end of the block and every further call finds nothing |
| FdtOpen.OpenPathIsFull | kernel/src/dev/fdt.c:168-190 | For names without slashes that join is the full path |
| FdtScan.TokenStep | kernel/src/dev/fdt.c:130-257 | On arbitrary bytes one token strictly advances the cursor, keeps it aligned and inside the block, the depth at most 32 and the path shorter than 256 bytes |
| FdtScan.HaltsExactly | kernel/src/dev/fdt.c:139-257 | On arbitrary bytes the walk ends exactly at: a node on level 33, without an end to its name or with a path of 256 bytes or more; an END_NODE of no node; a property that is cut off, has no name, stands in no node or is a cell count not of four bytes; and any word that is none of the four tokens |
| FdtScan.Next | kernel/src/dev/fdt.c:125-260 | Each reported node leaves the scan in a good state further on, whatever the bytes |
| Fdt.Walker.NextNode | kernel/src/dev/fdt.c:125-260 | The imperative walker with its path buffer and frame stack does exactly what the scanner does on any bytes. After a node the buffer is NUL-terminated; when nothing more is found the cursor, depth and path are stated, and the terminator is missing exactly when the walk ended in a child name that does not fit although the slash before it does |
| Fdt.Walker.EnterNode | kernel/src/dev/fdt.c:143-201 | The BEGIN_NODE case against the scanner: depth, name and path limits, the offset and the inherited counts; a refusal leaves path, depth and frames as they were and the terminator as said above |
| Fdt.Walker.AppendName | kernel/src/dev/fdt.c:171-190 | The buffer gets the child's path if it fits; otherwise the path stays, and its terminator is lost exactly when the slash has been written and the name does not fit |
| Fdt.Walker.LeaveNode | kernel/src/dev/fdt.c:202-210 | The END_NODE case: the path is cut back to the parent's, or the walk ends with everything as it was |
| Fdt.Walker.NoteProperty | kernel/src/dev/fdt.c:211-249 | The PROP case: bounds, and the two cell counts of the innermost open node; where the cursor stands after a refusal |
| FdtLookup.LookupAgrees | kernel/src/dev/fdt.c:325-400 | At the offset of a flattened node the depth-counting scan returns the first property of that name of the node itself, never a descendant's, and fails exactly when it has none |
| FdtLookup.LookupIsFirst | kernel/src/dev/fdt.c:325-400 | That is the first of the node's own properties with the name, wherever its child nodes stand, and none exactly when no own property has it |
| FdtLookup.ScanNest | kernel/src/dev/fdt.c:336-397 | From any point inside the node the scan gives what the rest of the node's own items give |
| FdtLookup.Scan | kernel/src/dev/fdt.c:336-397 | On arbitrary bytes the scan ends and a value it returns lies inside the structure block |
| FdtLookup.AnswersBehindTokens | kernel/src/dev/fdt.c:336-397 | On arbitrary bytes a property found stands behind whole tokens only, none of which leaves the node |
| FdtPaths.ReportedNodeLookup | kernel/src/dev/fdt.c:325-400 | Any node the walker reports can be asked for its properties, and lookup at its offset agrees with that node of the tree |
| FdtPaths.FindByPathIsUnique | kernel/src/dev/fdt.c:430-454 | With distinct sibling names, lookup by path gives a node exactly when the tree has one with that full path, and it is the only one |
| FdtPaths.FirstWithPathIsFirst | kernel/src/dev/fdt.c:430-454 | On any bytes, lookup by path gives the first reported node with that path, and none exactly when no reported node has it |
| FdtReg.RegRoundTrip | kernel/src/dev/fdt.c:485-528 | Entry i of any encoded list of pairs with 0 to 2 cells each is the i-th pair, and there is none past the end |
| FdtReg.RegExample | kernel/src/dev/fdt.c:514-524 | A 64-bit address and a 32-bit size, byte for byte |
| FdtReg.PastEndExact | kernel/src/dev/fdt.c:508-508 | The 32-bit bound test is right for every length exactly when (index + 1) * entry_cells fits in 32 bits |
| FdtReg.PastEndWraps | kernel/src/dev/fdt.c:508-508 | An index that slips past the test although the property is empty |
| FdtReg.InBoundsExact | kernel/src/dev/fdt.c:508-512 | What the 32-bit test lets through lies inside the value for every length exactly when the wrapped product still covers one entry |
| FdtReg.StrayIsFar | kernel/src/dev/fdt.c:508-512 | Where the test lets through an entry outside the value, and only there, the code reads outside it, and the wrapped product is short of one entry and the read starts almost 16 GiB behind |
| FdtReg.RefusedExactly | kernel/src/dev/fdt.c:494-510 | An entry is refused exactly for a cell count above 2, for none at all, for a value that is not whole words, and for an index past the end by the wrapped count |
| FdtReg.HasStringIsMember | kernel/src/dev/fdt.c:412-425 | On a list of NUL-terminated strings the loop finds a string exactly when it is in the list |
| FdtQueries.Init | kernel/src/dev/fdt.c:289-323 | It succeeds exactly when the magic is right and both blocks lie inside the blob, and gives those blocks |
| FdtQueries.GetProperty | kernel/src/dev/fdt.c:325-400 | The imperative scan returns what the scanner function does on any bytes |
| FdtQueries.FindNodeByPath | kernel/src/dev/fdt.c:430-454 | The first reported node whose path is the one asked for |
| FdtQueries.GetReg | kernel/src/dev/fdt.c:485-528 | The entry the code reads from the node's own reg property, or none, or where it reads outside the property; cell counts above 2 are refused whatever the index |
| FdtQueries.RegRefused | kernel/src/dev/fdt.c:494-510 | The query is refused exactly for a missing reg property and in those cases |
| FdtQueries.RegEntryAt | kernel/src/dev/fdt.c:502-527 | The entry at any 32-bit index of a value, with the code's refusals and its wrapping arithmetic, or the offset of a read outside the value |
| FdtQueries.NodeHasCompatible | kernel/src/dev/fdt.c:402-428 | Whether the node's own compatible value has the string |
| FdtQueries.FindCompatible | kernel/src/dev/fdt.c:456-483 | The first reported node that is compatible |
| FdtQueries.FirstCompatibleIsFirst | kernel/src/dev/fdt.c:456-483 | None exactly when no reported node is compatible; otherwise the node reported before all other compatible ones |
| FdtQueries.FindCompatibleOfTree | kernel/src/dev/fdt.c:456-483 | On a flattened tree, the first node in preorder whose compatible list has the string, and none exactly when no list has it |
| FdtQueries.RegOfTree | kernel/src/dev/fdt.c:485-528 | At any reported node of a flattened tree, reg reads back the pairs the tree lists, in order and no more |
| FdtQueries.CompatibleOfTree | kernel/src/dev/fdt.c:402-428 | A reported node of a flattened tree is compatible with a string exactly when its list has it |
| Fdt.StrCmp | kernel/src/lib/string.c:82-99 | Zero exactly when the two C strings are equal, and -1 or 1 by their order as unsigned bytes |
| Fdt.StrNLen | kernel/src/lib/string.c:71-80 | The length of the C string, or the limit when no NUL comes first |
| Fdt.CopyBytes | kernel/src/lib/string.c:5-15 | The destination range holds the source bytes and the rest is unchanged |
| Printk.NumeralRoundTrip | kernel/src/lib/printk.c:121-132 | The digits emitted for any value in any base read back as the value |
| Printk.NumeralCase | kernel/src/lib/printk.c:114-124 | Letters among the digits are A to F when upper case is asked for and a to f when not |
| Printk.NoLeadingZero | kernel/src/lib/printk.c:121-132 | The numeral of a non-zero value does not start with a zero |
| Printk.NumeralFits | kernel/src/lib/printk.c:114-124 | Every 64-bit value in every base fits the 64-byte buffer |
| Printk.PaddedRoundTrip | kernel/src/lib/printk.c:126-132 | A zero-padded field is as wide as asked or as the number needs, and still reads back as the value |
| Printk.PaddedShape | kernel/src/lib/printk.c:126-132 | With any padding character, the field is the numeral behind that character only, as wide as asked or as the number needs |
| Printk.SignedRoundTrip | kernel/src/lib/printk.c:268-282 | Signed output reads back as the value |
| Printk.SignedShape | kernel/src/lib/printk.c:268-282 | The sign stands in front of the padding and does not count for the width |
| Printk.OutPlain | kernel/src/lib/printk.c:71-78 | With no stamp due, text without line breaks adds exactly itself and its length |
| Printk.OutStamped | kernel/src/lib/printk.c:47-78 | With a stamp due, it goes out once, before the text |
| Printk.LinesOut | kernel/src/lib/printk.c:33-87 | Lines with line breaks between them come out each behind its stamp when stamps are on, with a carriage return before each line feed, and no stamp for a last line that has not begun |
| Printk.StampReads | kernel/src/lib/printk.c:47-69 | The stamp reads back as the uptime: seconds, a point and three decimals in brackets |
| Printk.WrittenIsOutput | kernel/src/lib/printk.c:33-78 | The count returned grows by exactly the characters put out |
| Printk.FillDigits | kernel/src/lib/printk.c:121-124 | The buffer holds the numeral backwards, without overrun |
| Printk.Printer.EmitUnsigned | kernel/src/lib/printk.c:110-133 | The output is the padded numeral, and nothing for a base outside 2 to 16 |
| Printk.Printer.EmitString | kernel/src/lib/printk.c:80-87 | The string goes out character by character |
| Printk.Printer.EmitPaddedString | kernel/src/lib/printk.c:89-108 | The string goes out behind its padding |
| Printk.Printer.EmitRawUnsigned | kernel/src/lib/printk.c:135-152 | The output is the bare numeral |
| Printk.Printer.EmitSigned | kernel/src/lib/printk.c:268-282 | Right for every 64-bit value down to -2^63, with the magnitude computed in 64-bit arithmetic: the sign, then the padded magnitude |
| Printk.Printer.EmitLogPrefix | kernel/src/lib/printk.c:47-69 | The time stamp goes out at the start of a line when prefixes are on, and only then |

## Left out

- PageTables.Paging.AllocTable: does not model the static early pool used when the page allocator has nothing to give (`kernel/src/mm/paging.c:181-190`); it turns an address in the kernel image into a physical one through the direct-map offset, which is not the relation the rest relies on. The model fails there instead.
- PageAllocator.Pmm.PmmFree: says when an immediate second free is refused, but not what a double free or foreign pointer that is let through does to the allocator.
- PageAllocator.Pmm.PageAlloc: does not fix the order of pages within a free list, only which list serves the request and that its head is taken.
- PfnDatabase.PfnDb.Init: the database is an array of its own and not overlaid on the carved memory; that its frames are reserved is `Boot.StorageReserved`.
- FdtQueries.Init: does not model null pointers, nor a blob shorter than its own totalsize says.
- FdtQueries.GetReg: where the code would read outside the property it says at which offset, not what is found there.
- Printk.Printer.EmitLogPrefix: the clock is a value fixed for one print; reading it anew at each line of a multi-line print is not modelled.
- Page descriptors are named by their index in the database, not by address, and their flags are the three bits the code uses.
- Counters, list counts and the count of written characters are unbounded; their machine widths cannot be reached with the memory the model allows, except `written` on very long output.
- Translation lookaside buffers and `sfence.vma`, the `satp` register: hardware effects. Root and number of levels are given.
- `paging_map_mmio` (`kernel/src/mm/paging.c:405-418`): one rounded call of `paging_map_range`.
- `fdt_get_stdout_path`, `fdt_resolve_alias` and `fdt_get_u32`: one property lookup and a copy each.
- `memset`, `memmove`, `memcmp`, `strchr` (`kernel/src/lib/string.c`): not used by what is modelled, except `memset` for a new table, which is the empty table here.
- Printk.Printer.EmitString: does not model a null pointer, for which the code prints `(null)`.
- Argument decoding and the format grammar of `vprintk_internal`: the conversions are modelled from the value on.
- Log messages of the modelled functions, UART, SBI, trap handling, time keeping, the bootloader's request objects and the framebuffer console: I/O and thin wrappers.
