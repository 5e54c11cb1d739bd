# A model of the annos kernel's memory managers, console, formatter and SMBIOS walk

annos is a small 32-bit x86 kernel. This project models its most involved code in Dafny and proves what that code
keeps, computes and gets wrong.

* **Physical memory** (`src/PMM.cpp`). Zones of pages with one bitmap each, a hint below which the search does not
  look, and tables carved from the memory behind the kernel. `Bitmap`, `PmmSpec`, `PmmRuns`, `PmmHint`, `PmmFrames`,
  `PmmBoot`, `PmmKinds` and `PmmRoom` are the specification and its theorems; the class `Pmm.PMM` is the code, over
  arrays.
* **Virtual memory** (`src/arch/x86/VMM.cpp`). Two-level page tables edited through a recursive self-map, with the
  page walk of section 4.3 ("32-Bit Paging") of the Intel SDM, Volume 3A, as the meaning of an address. `Paging`,
  `VmmSpec`, `VmmMap`, `VmmInit`, `VmmRuns`, `VmmStability`, `VmmReserved`, `VmmOutside`, `Boot` and `VmmReach` are the
  specification and its theorems; the class `Vmm.VMM` is the code. Every load and store of the class goes through the
  page walk, so that it edits the hardware's tables is a theorem and not a definition.
* **Console** (`src/VGAConsole.cpp`), module `VgaConsole`: an 80x25 buffer that shows the end of an unbounded screen.
* **Formatter** (`src/libk/stdio.cpp`): `CString`, `Stdio` and `Format` are the specification, `Printf` is the code.
* **SMBIOS table** (`src/arch/x86/SMBIOS.cpp`), module `Smbios`: the walk over structures and their strings.

The methods are proved to do what functions on values say. The lemmas say what those functions mean: over all inputs,
over all runs, or against a second definition written the way the documentation reads. Where the code does not do what
it is meant to do, the model follows the code, and the theorems say exactly when the two agree.

## Where the code and its intent part

* `src/PMM.cpp:133-137` The `continue` in the search goes on with the inner loop, so the search leaves the zone and
  reads the bits behind its bitmap; it also skips the comparison meant to keep the last page back
  (`PmmSpec.LastPageIff`, `PmmFrames.LastPageIsHandedOut`). `PmmFrames.FullZoneHandsOutLivePage` is a run in which a
  page in use is handed out again.
* `src/PMM.cpp:112-113` The end of a zone that reaches the top of memory wraps to 0, so the zone is taken for full:
  `PmmSpec.TopZoneIsNeverUsed`. With the search leaving its zone this is all that keeps a request from what it is
  promised: `PmmSpec.AllocateMeetsPromiseIff`, `PmmSpec.PanicIsRightIff`.
* `src/PMM.cpp:121-145` A request for several pages moves the hint over free pages it stepped over. They are lost to
  every request until there is an `UnmapPages` in their zone: `PmmHint.AllocateKeepsTightIff`,
  `PmmHint.SkippedPageIsHidden`, `PmmHint.HiddenPageIsLost`, and a run in `PmmHint.TwoPagesLoseOne`.
* `src/PMM.cpp:45-57` A reserved entry below one megabyte has the type LOWMEMORY too, and an entry that ends at the top
  of memory is taken for low: `PmmKinds.LowMemoryIsAvailableIff`, `PmmKinds.LowRequestGetsReserved`,
  `PmmKinds.LowRequestGetsHigh`. Normal memory is always available: `PmmKinds.NormalMemoryIsAvailable`.
* `src/PMM.cpp:124` The sum of hint and page count wraps, so a request for nearly 2^32 pages passes: `PmmSpec.OpenIff`.
* `src/PMM.cpp:321-326` An empty entry at address 0 takes every address: `PmmFrames.InZoneIff`.
* `src/PMM.cpp:301` Unmapping flips bits, so unmapping twice maps again: `Bitmap.UnmapTwice`.
* `src/arch/x86/VMM.cpp:209-211` Only the first new table of a mapping is cleared: `VmmMap.MapExactIff` and
  `VmmMap.UnmapUndoesMapIff`, and from boot `VmmReach.GarbageFromBoot`.
* `src/arch/x86/VMM.cpp:22-36` The zone for programs lies inside the user zone:
  `VmmStability.UserAndProgramShareAddress`, with the exact condition in `VmmStability.AllocateKeepsLiveIff`, and from
  boot `VmmReach.OverlapFromBoot`.
* `src/arch/x86/SMBIOS.cpp:95` The end of a string set is not seen when the next structure has type 0:
  `Smbios.WalkIsExactIff`, `Smbios.TypeZeroIsSkipped`.
* `src/libk/stdio.cpp:39-49` `ipow` squares repeatedly and `_strtoint` asserts that its sum is below the base, so
  few widths above 99 are read: `Stdio.IpowSquares`, `Stdio.WidthIsExactIff`.
* `src/libk/stdio.cpp:194` `%x` renders into 8 characters, so eight digits overrun it: `Format.EightHexDigitsOverrun`.
* `src/libk/stdio.cpp:175-190` `%u` prints numbers from 2^31 on as negative: `Format.LargeUnsignedIsNegative`.
* `src/libk/stdio.cpp:155-157,228-233` `%%` does not move the cursor, so its character is written over, and `%c` steps
  over a byte nobody wrote and has its character written over: `Format.PercentIsLost`, `Format.CharIsRightIff`, and
  over whole formats `Format.MeetsMeaningIff`.

## Model

| member | source | states |
|---|---|---|
| Bitmap.SetRunBits | src/PMM.cpp:195-215 | marking a run sets exactly the bits of the run and no other bit of any bitmap |
| Bitmap.ToggleRunBits | src/PMM.cpp:294-309 | unmapping flips exactly the bits of the run: it clears them only if all were set |
| Bitmap.UnmapUndoesMap | src/PMM.cpp:195-309 | marking free pages and unmapping the same run gives the bitmap back byte for byte |
| Bitmap.UnmapTwice | src/PMM.cpp:299-301 | unmapping a run twice leaves every byte as it was |
| Bitmap.SetRunCount | src/PMM.cpp:195-215 | marking n free pages raises the number of set bits by exactly n |
| Bitmap.ToggleRunCount | src/PMM.cpp:294-309 | unmapping n pages that are all mapped lowers the number of set bits by exactly n |
| PmmSpec.AllocateFirstFit | src/PMM.cpp:97-153 | the run handed out is the lowest free run at or above the hint in the first zone passing the checks, and ends inside that zone if and only if the zone has such a run; after a panic no zone of the type below the top of memory has a free run that ends before its last page |
| PmmSpec.PromisedIsFirstFit | src/PMM.cpp:105-147 | what a request is promised: pages of the first zone of the type with a free run ending before its last page, as the lowest such run, and none exactly when no zone has one |
| PmmSpec.AllocateMeetsPromiseIff | src/PMM.cpp:105-150 | the request gets what it is promised exactly when the first zone passing the checks, if there is one, has a free run ending before its last page, and no zone in front of it that ends at the top of memory has one |
| PmmSpec.PanicIsRightIff | src/PMM.cpp:112-150 | a panic means that no zone could serve the request if and only if no zone ending at the top of memory could |
| PmmSpec.TopZoneIsNeverUsed | src/PMM.cpp:112-116 | four free pages at the top of memory, and a request for one that panics |
| PmmSpec.LastPageIff | src/PMM.cpp:124-139 | the run handed out ends at the very end of its zone exactly when the zone has a free run there and none that ends before its last page |
| PmmSpec.OpenIff | src/PMM.cpp:107-128 | a zone is searched exactly when it has a type asked for, does not end at the top of memory, its hint is inside it, and fewer pages are asked for than lie behind the hint, or so many that the sum wraps |
| PmmRuns.StepKeepsExact | src/PMM.cpp:97-312 | one call that stays in its zone takes only free pages and leaves the bitmaps the exact union of the live ranges |
| PmmRuns.AllocateIsProperIff | src/PMM.cpp:105-147 | AllocatePhysical stays in the pool and keeps the bitmaps the exact union of the live ranges if and only if the first zone passing the checks, if there is one, has room for the request |
| PmmRuns.NoDoubleAllocation | src/PMM.cpp:97-312 | through any run of allocating, mapping and unmapping live ranges, every page is in at most one live range and the bitmaps are exactly their union |
| PmmHint.HintOnlySpeedsUp | src/PMM.cpp:121-139 | when no free page lies below the hint, the search from the hint finds the run that a search from page 0 finds |
| PmmHint.SinglePagesSkipNothing | src/PMM.cpp:130-145 | a request for one page takes the lowest free page at or above the hint, so it steps over none |
| PmmHint.HintStaysTight | src/PMM.cpp:121-145 | through any run in which the lowest free page at or above the hint starts each request, with any mapping and unmapping between, no free page ever lies below a hint |
| PmmHint.StepsOverNothingIff | src/PMM.cpp:130-139 | the search steps over no free page exactly when the lowest free page at or above the hint starts n free pages |
| PmmHint.AllocateKeepsTightIff | src/PMM.cpp:141-145 | an allocation keeps the free pages at or above the hint if and only if the lowest free page at or above it started n free pages before the call |
| PmmHint.SkippedPageIsHidden | src/PMM.cpp:143-145 | a free page that a request stepped over is still free and lies below the new hint of its zone |
| PmmHint.HiddenPageIsLost | src/PMM.cpp:121-145 | through any run that keeps to its zones and unmaps nothing in the page's zone, a page below the hint keeps its bit, and neither AllocatePhysical nor MapPages hands it out |
| PmmHint.TwoPagesLoseOne | src/PMM.cpp:121-145 | a fresh zone and two calls: the second page is mapped, a request for two gets the third and the fourth, and the first page, which is free, is lost |
| PmmHint.UnmapGivesBack | src/PMM.cpp:280-311 | unmapping a live range returns its page count and frees its pages, and the hint becomes the lower one of itself and the first page, so the zone has room for as many again; outside all zones it returns -1 and changes nothing |
| PmmFrames.AllocateClaimsFrames | src/PMM.cpp:141-146 | an allocation inside a page-aligned zone returns whole frames that were free, takes exactly these and frees none, wherever the other zones start |
| PmmFrames.MapClaimsFrames | src/PMM.cpp:238-272 | MapPages inside a page-aligned zone either fails and changes nothing or takes exactly the frames asked for, all free before |
| PmmFrames.LiveRangesShareNoByte | src/PMM.cpp:85-146 | on zones that do not overlap, wherever they start, no byte of physical memory lies in two live ranges |
| PmmFrames.LiveByteIsNotHandedOut | src/PMM.cpp:105-272 | neither AllocatePhysical nor MapPages, staying in its zone, hands out a byte of a live range |
| PmmFrames.FindZoneIff | src/PMM.cpp:316-330 | in a map without overlap an address belongs to a zone exactly when a page of the zone holds it, if no zone is empty at address 0 |
| PmmFrames.InZoneIff | src/PMM.cpp:320-326 | an address passes the comparison exactly when a page of the zone holds it, or the zone is empty at address 0 |
| PmmFrames.FullZoneHandsOutLivePage | src/PMM.cpp:130-146 | two fresh zones and four calls after which a page in use is handed out a second time |
| PmmFrames.LastPageIsHandedOut | src/PMM.cpp:130-146 | a fresh zone and three calls after which its last page has been handed out |
| PmmBoot.CarvedApart | src/PMM.cpp:20-66 | the bitmaps lie one behind the other behind the zone array, share no byte, and have a bit for every page of their zone |
| PmmBoot.FreshIsExact | src/PMM.cpp:37-66 | with the bitmaps cleared, the zones of a map without overlap start with every page free |
| PmmBoot.ClearedBitmaps | src/PMM.cpp:66 | clearing each bitmap as it is carved clears all of them |
| PmmBoot.ReservationCovers | src/PMM.cpp:80-85 | every byte of the kernel and of the tables lies in one of the reserved pages |
| PmmBoot.ReservationIsTight | src/PMM.cpp:80 | every page reserved starts no later than the tables end |
| PmmBoot.KernelNeverHandedOut | src/PMM.cpp:80-272 | after the constructor has reserved the kernel in a page-aligned zone, and after any run that does not unmap the kernel's own range, neither AllocatePhysical nor MapPages hands out a byte of the kernel or of the tables |
| PmmBoot.PcMapIsGood | src/PMM.cpp:37-43 | the map of a PC, with an entry that does not start at a page, is one of the maps of these theorems |
| PmmKinds.ZoneOfEntry | src/PMM.cpp:37-60 | through any run each zone has the start and the type of its entry and its whole pages, or one page if the entry is smaller than a page and not empty |
| PmmKinds.TypesOfEntry | src/PMM.cpp:44-58 | a zone is NORMAL exactly when its entry is available and does not end below one megabyte, LOWMEMORY exactly when it does, and MMIO exactly when it is not available |
| PmmKinds.NormalMemoryIsAvailable | src/PMM.cpp:37-147 | from any memory map and after any run, every byte a request for normal memory gets inside its zone lies in a whole page of an entry reported as available that does not end below one megabyte |
| PmmKinds.LowMemoryIsAvailableIff | src/PMM.cpp:44-147 | every byte a request for low memory gets lies in one entry that ends below one megabyte, or whose end wraps; all of it is available exactly when the first zone passing the checks comes from an available entry |
| PmmKinds.LowRequestGetsReserved | src/PMM.cpp:53-57 | a map whose first low request gets a reserved page |
| PmmKinds.LowRequestGetsHigh | src/PMM.cpp:45-47 | a map whose first low request gets a page near the top of memory |
| PmmRoom.NextRequest | src/PMM.cpp:105-147 | with k free pages behind the hint of the first zone of normal memory, which starts at a page, a request for up to k pages gets the next frames and leaves the others |
| PmmRoom.RoomAfterReservation | src/PMM.cpp:32-89 | if the first entry of normal memory starts with the kernel and has more than pages + k pages, the constructor's reservation succeeds and leaves the next k frames free behind the hint |
| PmmRoom.PcMapIsRoomy | linker.ld:13 | the map of a PC is such a map for the kernel at one megabyte |
| Pmm.PMM.constructor | src/PMM.cpp:15-89 | leaves the carved zones with cleared bitmaps and the kernel range marked, and keeps the answer to the reservation: failed, granted, or out of the bytes given |
| Pmm.PMM.CarveZones | src/PMM.cpp:32-74 | one zone and one cleared bitmap per entry of the memory map, as Carve lays them out |
| Pmm.PMM.AllocatePhysical | src/PMM.cpp:97-153 | answer and new state are those of Allocate; leaving the pool is reported and not hidden |
| Pmm.PMM.Search | src/PMM.cpp:130-139 | stops at the first free run at or above its start, or where the pool ends |
| Pmm.PMM.CheckIfPagesFree | src/PMM.cpp:161-189 | Free exactly when all n bits are clear, for every position of the byte and bit cursor |
| Pmm.PMM.MapPagesInBitmap | src/PMM.cpp:195-215 | the cursor loop sets exactly the run |
| Pmm.PMM.MapPages | src/PMM.cpp:238-272 | answer and new state are those of MapPages on values |
| Pmm.PMM.UnmapPages | src/PMM.cpp:280-312 | answer, hint and flipped bits are those of UnmapPages on values |
| Pmm.PMM.FindZone | src/PMM.cpp:316-330 | the first zone that holds the address |
| Paging.DirectoryWindow | src/arch/x86/VMM.cpp:119 | with the self-map in place the word at 0xfffff000 + 4d is directory entry d |
| Paging.TableWindow | src/arch/x86/VMM.cpp:187-198 | the word at 0xffc00000 + 4(1024d + t) is entry t of the table of directory d, and is reachable exactly when directory d is present |
| Paging.TranslateByLeaf | src/arch/x86/VMM.cpp:169-216 | the translation of an address depends on its page's table entry alone |
| Paging.WriteEntry | src/arch/x86/VMM.cpp:198 | writing one table entry changes the entry of one page and of no other, and keeps self-map and tables distinct |
| Paging.AddTable | src/arch/x86/VMM.cpp:179-211 | hanging a frame that is no table under an absent directory entry keeps all other entries, the self-map and the tables distinct |
| Paging.ClearTable | src/arch/x86/VMM.cpp:182 | clearing a table unmaps exactly the pages of its directory |
| VmmSpec.TurnEffect | src/arch/x86/VMM.cpp:195-213 | one turn of the mapping loop, with or without a directory boundary, writes one page entry, keeps the system well-formed and can only stop in a panic |
| VmmSpec.MapLoopEffect | src/arch/x86/VMM.cpp:195-213 | over any number of boundaries the loop writes exactly its pages; the other entries of a new table are what its frame held |
| VmmMap.MapEffect | src/arch/x86/VMM.cpp:169-216 | a mapping panics for want of frames or writes exactly its entries, adds only free frames as tables and leaves all data words alone |
| VmmMap.MapMeetsSpec | src/arch/x86/VMM.cpp:169-216 | page i of the range walks to the frame of phys + 4096 i, and for page-aligned phys its entry is phys + 4096 i + (flags & 0x7f); every page outside whose directory was present walks as before |
| VmmMap.NewTablesAreWritable | src/arch/x86/VMM.cpp:179-211 | a directory entry that a mapping changes was absent and becomes the address of a frame that was free, plus 3 |
| VmmMap.MapTranslates | src/arch/x86/VMM.cpp:169-216 | translate(virt + k) = phys + k for every k below 4096 n, across directory boundaries |
| VmmMap.MapExactIff | src/arch/x86/VMM.cpp:179-211 | mapping leaves every other translation alone if and only if the frames that become the later tables held no present entry |
| VmmMap.UnmapLoopEffect | src/arch/x86/VMM.cpp:241-260 | the loop clears the present bit of exactly its pages if each has a table, and faults otherwise |
| VmmMap.UnmapFaultsIff | src/arch/x86/VMM.cpp:221-263 | unmapping works exactly when the first page, and every page of the range, has a table, and faults otherwise |
| VmmMap.UnmapMeetsSpec | src/arch/x86/VMM.cpp:221-263 | exactly the n pages stop translating, and of their entries only the lowest bit changes |
| VmmMap.UnmapUndoesMapIff | src/arch/x86/VMM.cpp:169-263 | unmapping a range mapped over unmapped pages gives back the earlier translation, even if tables were added, if and only if the added tables were clean |
| VmmInit.InitAccesses | src/arch/x86/VMM.cpp:277-298 | where the three accesses of Init go before and after the self-map entry is written |
| VmmInit.InitEstablishes | src/arch/x86/VMM.cpp:265-303 | Init leaves distinct, owned tables and a working self-map whose entry is the directory's address plus 3, and the translation is exactly the kernel's four megabytes and the two ends of the identity map |
| VmmRuns.FrameSeparation | src/arch/x86/VMM.cpp:147-389 | page directory, page tables and the frames of all ranges handed out are pairwise distinct |
| VmmRuns.HandleTranslates | src/arch/x86/VMM.cpp:333-401 | every offset of a live range translates to the frame the range was given |
| VmmRuns.HandleEntries | src/arch/x86/VMM.cpp:195-198 | the entry of every page of a live range is the address of its frame plus the low seven flags |
| VmmRuns.AllocateVirtualSafe | src/arch/x86/VMM.cpp:333-360 | returns the bump pointer, inside the zone and above everything returned there before, as one more range that disturbs no other |
| VmmRuns.MapAddressSafe | src/arch/x86/VMM.cpp:371-401 | the same for a given physical address, with the offset in the page added to the result |
| VmmRuns.UnalignedAddressTranslates | src/arch/x86/VMM.cpp:371-401 | translate(MapPhysicalAddress(p, n) + k) = p + k for every k below 4096 n - p mod 4096 |
| VmmRuns.KernelRangeFree | src/arch/x86/VMM.cpp:22-36 | a range at the bump pointer of the kernel zone meets no range of another zone |
| VmmRuns.HandleInZone | src/arch/x86/VMM.cpp:22-36 | live ranges lie between 0x1000 and 0xbfffffff, between 0xc0400000 and the windows, or between 0x400000 and 0x480000, by their zone |
| VmmRuns.ExhaustedIff | src/arch/x86/VMM.cpp:339-343 | below the windows a request is turned away for want of addresses exactly when it would end behind 0xbfffffff in the user zone or behind 0x480000 in the program zone |
| VmmStability.StoreIsContained | src/arch/x86/VMM.cpp:147-216 | a store through a range changes that word of that range: no translation and no word of any other range |
| VmmStability.ReleaseIsContained | src/arch/x86/VMM.cpp:221-263 | unmapping a live range never faults, ends exactly its translations and keeps all other ranges |
| VmmStability.StepKeepsInv | src/arch/x86/VMM.cpp:221-401 | every guarded step keeps the invariant of all runs and can stop only in a panic |
| VmmStability.Stability | src/arch/x86/VMM.cpp:333-401 | through any guarded run every range not released keeps translating to its frames, and the ranges of a zone are increasing, disjoint and inside the zone |
| VmmStability.WordSurvivesRun | src/arch/x86/VMM.cpp:169-401 | a word stored in a range is read back through the same address after any run that neither releases the range nor overwrites the word |
| VmmStability.AllocateKeepsLiveIff | src/arch/x86/VMM.cpp:333-360 | a mapping at the bump pointer keeps every live range if and only if the pages were free of ranges of other zones |
| VmmStability.UserAndProgramShareAddress | src/arch/x86/VMM.cpp:22-36 | two one-page allocations, one in the user zone grown to 0x400000 and one in the program zone, that get the same address |
| VmmReserved.StepAround | src/arch/x86/VMM.cpp:169-401 | frames that are taken and in no one's range are given to no range by any step, become no page table, and unless they hold one already have no word changed, by mapping, unmapping or a client's store |
| VmmReserved.RunAround | src/arch/x86/VMM.cpp:169-401 | the same through any guarded run |
| VmmOutside.StepKeepsOutside | src/arch/x86/VMM.cpp:221-401 | one guarded step, whatever it is, keeps the directory and the translation of every address that belongs to no zone |
| VmmOutside.RunKeepsOutside | src/arch/x86/VMM.cpp:221-401 | through any guarded run the addresses in front of 0x1000 and from 0xc0000000 to 0xc0400000 translate as before |
| Boot.BootTablesAreReserved | src/PMM.cpp:80-85 | page tables inside the reserved kernel range are taken in the allocator |
| Boot.StableFromBoot | src/arch/x86/VMM.cpp:265-401 | from a memory map without overlap, with the kernel in a page-aligned zone, and the boot page tables, every guarded run keeps the invariant and can stop only in a panic; the kernel's four megabytes from 0xc0000000 stay mapped to physical 0 and the page at address 0 stays unmapped; and no frame of the kernel or of the allocator's tables becomes part of a range or a new page table or, unless it holds a boot table, has a word changed |
| VmmReach.MapWithRoom | src/arch/x86/VMM.cpp:169-216 | a mapping succeeds when the allocator has a free page behind its hint for every table the range needs |
| VmmReach.RoomMeetsGuard | src/arch/x86/VMM.cpp:333-360 | an allocation is within the guards of all runs and succeeds when the allocator has room behind its hint for pages and tables, the zone is not exhausted and no range of another zone is in the way |
| VmmReach.StartedIsFresh | src/arch/x86/VMM.cpp:265-303 | behind Init directory 0 has a table, directory 1 has none, and the bump pointers are 0x1000, 0xc0400000 and 0x400000 |
| VmmReach.RoomyMapStarts | src/arch/x86/VMM.cpp:265-303 | from such a memory map, cleared bitmaps and boot tables inside the kernel, the constructor and Init do reach the state that the theorems from boot start in |
| VmmReach.RoomFromBoot | src/PMM.cpp:32-89 | behind Init the allocator still has the k free frames behind the kernel |
| VmmReach.OverlapFromBoot | src/arch/x86/VMM.cpp:22-36 | from a memory map with 1029 pages to spare, three requests that succeed: one fills the user zone up to 0x400000, the next two, for a user and for a program, get that same address for different frames |
| VmmReach.GarbageFromBoot | src/arch/x86/VMM.cpp:179-211 | from a memory map with 1025 pages to spare, one request after which a page handed to no one translates by whatever word a known frame held before |
| Vmm.VMM.Init | src/arch/x86/VMM.cpp:265-303 | the edits made through the identity map and the new window leave exactly the system of InitEstablishes |
| Vmm.VMM.Load | src/arch/x86/VMM.cpp:187-190 | a load reads the word the page walk leads to, or faults |
| Vmm.VMM.Store | src/arch/x86/VMM.cpp:181-198 | a store writes the word the page walk leads to, or faults and writes nothing |
| Vmm.VMM.MapPageDirectoryIndex | src/arch/x86/VMM.cpp:147-157 | asks the allocator for one frame, panics above 1023 |
| Vmm.VMM.PrepareDirectory | src/arch/x86/VMM.cpp:179-211 | makes the directory entry present, with the table cleared only when asked |
| Vmm.VMM.ClearPage | src/arch/x86/VMM.cpp:182 | the word loop through the table window clears exactly that table |
| Vmm.VMM.MapPhysicalToVirtual | src/arch/x86/VMM.cpp:169-216 | the edits through the windows leave the system of Map, whose meaning MapMeetsSpec states |
| Vmm.VMM.MapEntry | src/arch/x86/VMM.cpp:195-213 | one turn through the windows is one Turn: entry toffset + i is written, and the pair of indices moves to the next page |
| Vmm.VMM.UnmapVirtual | src/arch/x86/VMM.cpp:221-263 | the edits through the window leave the system of Unmap, whose meaning UnmapMeetsSpec states |
| Vmm.VMM.AllocateVirtualPhysical | src/arch/x86/VMM.cpp:333-360 | reply and new state are those of the function that AllocateVirtualSafe is about |
| Vmm.VMM.MapPhysicalAddress | src/arch/x86/VMM.cpp:371-401 | reply and new state are those of the function that MapAddressSafe is about |
| VgaConsole.CellParts | src/VGAConsole.cpp:51-52 | the low byte of a cell is the character; a 7-bit character in 4-bit colours fills the background, foreground and character parts, and from 0x80 on all attribute bits are set |
| VgaConsole.WideColors | src/VGAConsole.cpp:51-52 | foreground bits above the fourth are or-ed into the background |
| VgaConsole.BlankCell | src/VGAConsole.cpp:30-33 | a blank cell is a space in light grey on black |
| VgaConsole.BlankAhead | src/VGAConsole.cpp:34-67 | everything at and behind the cursor of the unbounded screen is blank |
| VgaConsole.PrintedStays | src/VGAConsole.cpp:34-67 | what lies before the cursor never changes again, whatever is written later |
| VgaConsole.NothingIsOverwritten | src/VGAConsole.cpp:47-53 | every printed character is on the unbounded screen where the cursor was when it came |
| VgaConsole.PlainTextFillsRows | src/VGAConsole.cpp:47-58 | character k of a text without newlines and tabs lands in column k mod 80 of row k div 80 |
| VgaConsole.TabStops | src/VGAConsole.cpp:39-58 | a tab takes the cursor to the next multiple of four, or to the next row exactly from column 76 on, a newline to the start of the next row, and neither changes a cell |
| VgaConsole.AfterScroll | src/VGAConsole.cpp:19-34 | moving the rows up and blanking the last one shows the next window of the unbounded screen |
| VgaConsole.LastRowsAreSeen | src/VGAConsole.cpp:60-66 | the buffer shows the 25 rows up to the cursor's row, or the first 25 |
| VgaConsole.Console.constructor | src/include/VGAConsole.hpp:16-19 | starts with an empty screen and the cursor at the top left |
| VgaConsole.Console.Clear | src/VGAConsole.cpp:147-156 | the buffer shows the screen of an empty history |
| VgaConsole.Console.Scroll | src/VGAConsole.cpp:19-34 | the row copies in place leave the buffer shifted up by one row with a blank bottom row |
| VgaConsole.Console.WriteChar | src/VGAConsole.cpp:36-67 | after any history with newlines, tabs, wrapping and scrolling, the buffer is the last 25 rows of the unbounded screen and the cursor is inside |
| CString.Strlen | src/libk/stdio.cpp:6-14 | the number of bytes before the first 0 |
| Stdio.DigitsAreExact | src/libk/stdio.cpp:53-66 | the digits of a number, read from the left, have its value in every base from 2 to 36 |
| Stdio.DigitsFromTable | src/libk/stdio.cpp:56-66 | every character of a number is from the table 0-9a-z, for a digit below the base |
| Stdio.DigitsOfValue | src/libk/stdio.cpp:53-66 | the text of a number is the only one: any text of such characters without a zero in front is what its value is written as |
| Stdio.DigitsAreMinimal | src/libk/stdio.cpp:61-66 | no zero is written in front of a positive number |
| Stdio.DigitCountIff | src/libk/stdio.cpp:61-67 | a number has at most k digits exactly when it is below base to the k |
| Stdio.PaddedValue | src/libk/stdio.cpp:69-80 | zero padding keeps the value, and the text is as long as the longer of padding and digits |
| Stdio.RightAligned | src/libk/stdio.cpp:69-80 | the digits stand at the right end of the field, the padding character in front |
| Stdio.ValueOfChar | src/libk/stdio.cpp:88-99 | a character is read as the digit it is in the table, a capital letter as the small one, and any other character as 0 |
| Stdio.IpowSquares | src/libk/stdio.cpp:39-49 | ipow(b, e) is b to the power 2^(e-1), modulo 2^32 |
| Stdio.WidthIsExactIff | src/libk/stdio.cpp:38-106 | a decimal numeral of up to seven digits is read back exactly when it has one or two digits, or three with a 0 in the middle |
| Format.ParseUnparsed | src/libk/stdio.cpp:130-154 | reading the directive of a piece gives its zero flag, its width digits and what follows |
| Format.FieldIsRightIff | src/libk/stdio.cpp:130-226 | a conversion appends what it asks for exactly when %d and %u have a value below 2^31 and a field below 16, %x has at most seven characters, and the width of %s is read back or neither it nor what was read asks for a space |
| Format.WritesWhatItMeans | src/libk/stdio.cpp:124-247 | a format whose pieces all work fills the buffer with the concatenation of their texts and two 0s, touches nothing else, and overruns exactly the buffers too small for that |
| Format.MeetsMeaningIff | src/libk/stdio.cpp:124-247 | in a large enough buffer a format of literals, %%, %c, %d, %u, %x and %s of any width, and everything it starts with, come out as asked for if and only if every piece works; %% never does, and %c exactly when its character is under the cursor already |
| Format.OutputIsRightIff | src/libk/stdio.cpp:124-247 | without %% and with widths of up to three digits, the whole output alone is what the format asks for if and only if every piece works |
| Format.PercentCanGoUnnoticed | src/libk/stdio.cpp:155-157 | "%%%c" with the character 0 in front of a 0: the whole output is what was asked for although the %% went wrong |
| Format.WritesForwards | src/libk/stdio.cpp:124-247 | whatever the format, nothing in front of the cursor is written again |
| Format.EightHexDigitsOverrun | src/libk/stdio.cpp:193-204 | "%08x" overruns its scratch array whatever the value |
| Format.LargeUnsignedIsNegative | src/libk/stdio.cpp:175-190 | from 2^31 on %u appends a minus sign and the number less 2^31 |
| Format.UnknownIsSkipped | src/libk/stdio.cpp:154-236 | a % in front of any other character is skipped with it, and no argument is taken |
| Format.LonePercent | src/libk/stdio.cpp:124-236 | a % at the end of the format makes the code read on behind it |
| Format.PercentIsLost | src/libk/stdio.cpp:155-157 | in any format, a literal character behind "%%" replaces it |
| Format.PercentStep | src/libk/stdio.cpp:155-157 | "%%" puts its character under the cursor and leaves the cursor there, whatever follows |
| Format.CharStep | src/libk/stdio.cpp:228-233 | "%c" leaves the byte under the cursor and puts its character under the new cursor, whatever follows |
| Format.CharIsRightIff | src/libk/stdio.cpp:228-233 | "%c" is right exactly when its character was in the buffer already |
| Printf.Strrev | src/libk/stdio.cpp:16-26 | the destination holds the string reversed and its closing 0 |
| Printf.Strcat | src/libk/stdio.cpp:246-260 | the string is appended with its closing 0 and the result is the place of the last character, one before the start for an empty string |
| Printf.Inttostr | src/libk/stdio.cpp:53-80 | the array holds padding and digits, unless one of the arrays is too short |
| Printf.PutDigits | src/libk/stdio.cpp:60-67 | the digit loop leaves the digits in reverse, at most 64 of them |
| Printf.Pad | src/libk/stdio.cpp:69-74 | fills up to the width and closes the string, unless the width leaves the array |
| Printf.PowerOf | src/libk/stdio.cpp:39-49 | the squaring loop computes Ipow |
| Printf.Strtoint | src/libk/stdio.cpp:82-106 | the loop from the last character computes Convert, with a failed assertion as None |
| Printf.ReadPadding | src/libk/stdio.cpp:130-152 | the specifier loop reads the directive, with overlong widths and failed assertions reported |
| Printf.Field | src/libk/stdio.cpp:161-226 | a conversion of an argument appends exactly its text and a 0 |
| Printf.AppendUnsigned | src/libk/stdio.cpp:175-190 | %u appends the low 31 bits behind a sign for bit 31 |
| Printf.AppendString | src/libk/stdio.cpp:207-225 | %s appends the string and the spaces up to the width |
| Printf.PutSpaces | src/libk/stdio.cpp:212-221 | the loop writes the spaces and a 0, or reports that they leave the buffer |
| Printf.Vsprintf | src/libk/stdio.cpp:124-247 | buffer and outcome are those of Run, whose meaning MeetsMeaningIff states |
| Smbios.FoundInsideTable | src/arch/x86/SMBIOS.cpp:67-108 | on any bytes: there is no string 0, string 1 follows the formatted area, later ones follow a 0, and string j starts at least 2(j - 1) bytes on, inside the table length |
| Smbios.FirstStringIff | src/arch/x86/SMBIOS.cpp:69-87 | there is a string 1 exactly when the formatted area is not followed by two 0s and ends inside the table length |
| Smbios.UnprintableEndsLookup | src/arch/x86/SMBIOS.cpp:86-102 | no string is found behind a byte outside 32 to 126, unless it is a 0 or stands behind one |
| Smbios.FindsEveryString | src/arch/x86/SMBIOS.cpp:67-108 | on a structure laid out as in DSP0134 the lookup returns string j for every j from 1 to the number of strings, and nothing for 0 |
| Smbios.NoFurtherStringIff | src/arch/x86/SMBIOS.cpp:91-97 | no string past the last is found exactly when there are no strings or the byte behind the set is not 0 |
| Smbios.StepIsExactIff | src/arch/x86/SMBIOS.cpp:326-344 | the walk steps to the first byte behind a structure under the same condition, and too far otherwise |
| Smbios.WalkIsExactIff | src/arch/x86/SMBIOS.cpp:303-347 | round i stands on structure i for every i exactly when no structure behind one with strings has type 0 |
| Smbios.LaidInTable | src/arch/x86/SMBIOS.cpp:303-344 | in a table each structure is laid out at its position |
| Smbios.WalkFindsEveryString | src/arch/x86/SMBIOS.cpp:67-344 | over a whole table in which no structure behind one with strings has type 0, round i stands on structure i and string j looked up there is its j-th string |
| Smbios.WalkFindsNothingElse | src/arch/x86/SMBIOS.cpp:67-344 | in the same table no structure has a string 0, none but the last has one past its last, and the last has none exactly when it has no strings or the byte behind the table is not 0 |
| Smbios.TypeZeroIsSkipped | src/arch/x86/SMBIOS.cpp:91-97 | two structures of which the walk never stands on the second |
| Smbios.WholeTableIsMapped | src/arch/x86/SMBIOS.cpp:297-301 | mapped with length / 4096 + 2 pages, every byte of the table is read at its own offset, wherever it starts in a page, and at most two pages too many are mapped |
| Smbios.GetSMBiosString | src/arch/x86/SMBIOS.cpp:67-108 | the loop computes String, and stops on any bytes |
| Smbios.Walk | src/arch/x86/SMBIOS.cpp:303-347 | the loop visits exactly the headers Visited lists, and stops on any bytes |

## Left out

- Pmm.PMM.AllocatePhysical: a search that leaves the bytes given to the constructor ends as `Overrun`; what the kernel would read there is not modelled.
- Pmm.PMM.constructor: the zone array is an array of records, so only its size is taken from the carved memory, and the pool is kept apart from the memory the page tables live in; that nothing but the allocator writes to the frames of the pool is Boot.StableFromBoot.
- PmmFrames.AllocateClaimsFrames: stated for pages taken from a zone that starts at a page, in a map without overlap; pages of other zones are no frames, and for them the theorems about bytes hold (PmmFrames.LiveByteIsNotHandedOut). For zones that overlap only the theorems about bits hold.
- VmmRuns.AllocateVirtualSafe: stated for ranges below 0xffc00000; the kernel zone also holds the windows, and a range reaching them would overwrite the tables.
- VmmMap.MapTranslates: stated for page-aligned addresses and flags with the present bit; without it the pages do not translate (VmmMap.MapMeetsSpec).
- Format.OutputIsRightIff: stated without %% and for widths of at most three digits; with them a wrong piece can be made up for by another (Format.PercentCanGoUnnoticed), and Format.MeetsMeaningIff speaks of every beginning of the format instead.
- Vmm.VMM.MapPhysicalToVirtual: says nothing for ranges that reach the windows at 0xffc00000, where the code would overwrite the tables it works through, or when the allocator leaves its zone.
- Vmm.VMM.AllocateVirtualPhysical: the same.
- Vmm.VMM.MapPhysicalAddress: the same.
- Smbios.GetSMBiosString: bytes behind the modelled memory read as 0, so a string that runs off the end ends there.
- `CheckPages` and `CheckPhysicalToVirtual`, which are stubs, and `AllocateVirtual`, which passes its arguments on.
- The translation cache and reloading cr3; accessed and dirty bits; four-megabyte pages; write protection and user access.
- Logging, and halting after a panic: a panic is an outcome that ends the run.
- A page fault inside the kernel: it ends the run with an outcome of its own, and is excluded by the theorems.
- `WriteVGA` with its colour escapes, and the hardware cursor.
- Printing of SMBIOS fields, the search for the entry point and its checksum, and the pointer used unmapped when the table lies below 0xf0000.
- `itoa`, `atol` and `strncmp`, and negative numbers with `%d`, whose digits always overrun (Format.FieldIsRightIff).
- Overlap of the strings passed to `vsprintf` with its buffer, and of the arrays passed to `strrev`.
- 32-bit overflow of the string length counted by the SMBIOS walk, which takes strings of two gigabytes.
- Interrupts, timers, drivers, the PCI bus and the boot assembly.
