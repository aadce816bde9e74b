# Models of the Rune kernel

This project models the stateful core of the Rune kernel in Dafny and proves what each part promises.

* **Physical memory.** `Region`, `Sorting`, `ClaimRules`, `MergeRules` and `MemoryMap` model the table of typed memory
  regions: claiming carves pages out of a region, an in-place quicksort restores the order, merging joins touching
  neighbours, and two 64-bit counters keep the totals. `Frames`, `AllocatorRules`, `RoundTripRules`, `RunRules`,
  `LiveRules`, `InitRules`, `Bits`, `RunLengths` and `BitMapAllocator` model the page frame allocator on top of it. The
  class works on packed bytes; it is proved against transitions of an abstract state (the map plus the set of used
  frames), and the properties of whole runs are proved about that state. `FreeRules` says which
  free calls are safe, and `ExplicitRules` whose frames an explicit allocation takes.
* **Loading programs.** `ElfImages` says what memory holds after the PT_LOAD segments are loaded; `ElfLoader` is the
  8 KiB buffered reader over a file node that may read short, and the copy loops on top of it.
* **Text.** `Numerals` and `NumberStrings` print and parse integers. `FormatMachine` is the eight-state interpreter of
  format strings, `FormatItems` a grammar of formats with its meaning, `Formatting` and `RenderRules` the rendering of
  arguments, and `Interpolate` the loops over a character buffer that refine the machine.
* **Terminal.** `TerminalRules` is the interpreter of escape sequences with cursor, colours and scroll-back buffer as a
  function of one byte; `TerminalStream` is the object with its fixed-size buffers; `CommandRules` says what the bytes
  of a command do, whatever earlier sequences left in the parser; `CursorRules` says in which cells texts appear and
  where control codes and commands lead the cursor; `ColorRules` connects the colour interface of text
  streams, through the formatter, to what the terminal does; `TranscriptRules` relates the scroll-back buffer to what
  was drawn.
* **Ownership and devices.** `RefRules` and `SharedPointer` model reference counting; `DeviceRules` and `DeviceModule`
  the device tree and the drivers bound to its devices.

Integers of the source are unbounded in Dafny; every place where 8-, 32- or 64-bit arithmetic can wrap or truncate
writes the wrap out (`Wrap8`, `Wrap32`, `Wrap64`). A long C++ function is sometimes several Dafny methods, one for each
stretch of it; their comments say which.

## What the contracts assume

* A memory map given to the allocator is ordered, page-aligned, without empty or NONE regions, ends below 2^64 - 1,
  and has fewer than 2^32 - 7 frames of a page size below 4 GiB (`InitRules.FirmwareMap`). `claim` itself only needs an
  ordered, page-aligned map and a claimant that is not empty.
* Free calls in a run must free only frames their request reaches (`FreeRules.FreesItsOwn`); nothing is asked of any
  other call. Requests in the window start at or above the base, do not overflow the address space and have frame
  numbers of 32 bits (`Frames.InWindow`); they are such calls. Owners of blocks ask for frames in the window, at frame
  starts.
* The file node reports at least one byte before the end of the file unless a device error occurs.
* Character arguments and strings contain no zero character behind their end; a format contains none at all.
* A terminal is at least one column wide. Devices registered with the device module have a handle other than 0 and no
  children. A raw pointer is wrapped once.

## Where the code does something else than expected

Each of these is a proved member of the table below.

* `memory_align(..., true)` moves an aligned address a whole boundary on (`Regions.RoundingUpSkipsAligned`).
* A claim with an unaligned start is rounded down but its size is rounded on its own, so the granted pages may miss the
  claim's last bytes (`ClaimRules.GrantCovers`, `ClaimRules.UncoveredClaimExample`). An interior claim retypes what
  lies to its right as USABLE, and the counters assume that exactly one side is USABLE
  (`ClaimRules.ClaimTouchesOnlyGrant`, `ClaimRules.ClaimAccounting`, `ClaimRules.RetypedPageExample`,
  `ClaimRules.WrongChargeExample`).
* `free` computes the first frame and the number of frames with wrap-around and truncation to 32 bits: an address 2^32
  pages above the base, or far below it, frees frames the request does not reach (`FreeRules.FreeSafeExactly`,
  `FreeRules.TruncatedFreeExample`, `FreeRules.BelowBaseFreeExample`). For counts from 2^32 on the condition is exact
  over all states, but not over those after a start, where the check for the bitmap can refuse the call
  (`FreeRules.HugeCountExample`).
* `allocate_explicit` truncates its frame numbers in the same way: a request behind managed memory, or below it, can
  succeed, and takes free frames it does not name (`ExplicitRules.ExplicitTakesItsOwnExactly`,
  `ExplicitRules.ForeignTakeExample`). What it takes is always managed and was free (`ExplicitRules.ExplicitTakes`).
* `allocate_explicit` rounds its address down and `free` rounds it up, so they undo each other only at frame starts
  (`RoundTripRules.ExplicitFreeRoundTrip`, `RoundTripRules.UnalignedFreeExample`).
* The segment copy loop does not end when the file is shorter than the header says (`ElfLoaders.ELFLoader.CopyTurns`,
  `ElfImages.CopyEndsExactly`). The seek offset passes through a 32-bit signed conversion, which keeps it only below
  2 GiB (`ElfLoaders.ELFLoader.Seek`, `ElfImages.SoughtAtOffset`, `ElfImages.WrongOffsetExample`).
* `parse_int` accumulates into its out parameter, and its overflow test compares with a variable that stays zero
  (`NumberStrings.ParseInt`, `NumberStrings.ParseExact`, `NumberStrings.ParseOverflowExample`). A number with more than
  32 digits is printed without its first ones (`NumberStrings.PrintParseRoundTrip`, `NumberStrings.CutBinaryExample`).
* A radix prefix is written without looking at the end of the buffer: one that begins in its last character, or is
  pushed there by padding, passes the end (`Formatting.ArgumentOvershoot`, `FormatItems.InterpolateCorrect`,
  `FormatItems.OverrunExample`). An empty specification in front of an alignment character is refused, because the
  look-ahead takes the closing brace for a fill character (`FormatItems.InterpolateCorrect`,
  `FormatItems.RefusedExample`).
* The terminal keeps the arguments and digits of an aborted sequence, and the next command begins with them
  (`CommandRules.AbortKeeps`, `CommandRules.CommandReceived`). Its own arguments are appended; one that finds no room
  aborts it, and its remaining bytes are printed. A command without arguments finds room always, and is carried out
  with what is held. A colour command sets its colour only if nothing but a zero is held
  (`CommandRules.CarriedAsWritten`, `ColorRules.ColorReceived`, `ColorRules.LostColorExample`).
* Moving the cursor up by more lines than there are above it on the screen leads to line 0 of the buffer, not to the top
  of the screen (`TerminalRules.CursorStaysVisible`, `CommandRules.UpLeavesScreenExample`).
* `register_device` looks its bus up by handle only: with another object of the same handle it returns true and the
  device is not in the tree, but bound. When its driver leaves the store it stays bound, and registering it in the tree
  then binds a device of the tree to a driver that is not in the store (`DeviceModules.DeviceModule.RegisterDevice`,
  `DeviceModules.StaleDriverExample`).

## Model

| member | source | states |
|---|---|---|
| Regions.RegionOrderIsTotal | Kernel/Src/KRE/Memory.cpp:72-75 | the order regions are sorted by is total, transitive, and only ties regions of equal start and size |
| Regions.ContainsMeaning | Kernel/Src/KRE/Memory.cpp:59-61 | two regions that are not empty contain each other, in the source's sense, exactly when they share an address |
| Regions.MemoryAlignMeaning | Kernel/Src/KRE/Memory.cpp:32-38 | rounding down is exact for every address; rounding up goes to the boundary above the floor whenever that fits 64 bits |
| Regions.RoundingUpSkipsAligned | Kernel/Src/KRE/Memory.cpp:32-38 | rounding up is the least multiple at or above the address exactly when the address is not aligned; an aligned one moves a whole boundary on |
| Sorting.Partition | Kernel/Include/KRE/Utility.h:116-128 | the pivot ends at a place with nothing larger before and nothing smaller behind it; the stretch is permuted and nothing else changes |
| Sorting.QuickSort | Kernel/Include/KRE/Utility.h:130-137 | the stretch is sorted under the region order and a permutation of what it was; elements outside it are untouched |
| Sorting.Sort | Kernel/Include/KRE/Utility.h:146-149 | the first n elements are sorted and permuted, the rest is untouched |
| Sorting.ArrayDelete | Kernel/Include/KRE/Utility.h:159-163 | the element is gone, those behind it move one place down, the last place keeps its old copy |
| MemoryMaps.MemoryMap.constructor | Kernel/Src/KRE/Memory.cpp:81-99 | the map holds the regions before the first NONE entry and both counters are their sums in 64 bits |
| MemoryMaps.MemoryMap.FindHost | Kernel/Src/KRE/Memory.cpp:144-145 | the first region whose bounds contain the claimant, or none |
| MemoryMaps.MemoryMap.Split | Kernel/Src/KRE/Memory.cpp:150-178 | splits exactly when the table has room for the pieces, writes them behind the last region, and leaves the table alone otherwise |
| MemoryMaps.SplitArithmetic | Kernel/Src/KRE/Memory.cpp:154-177 | inside a page-aligned host none of the 64-bit additions and subtractions of a split wraps |
| MemoryMaps.MemoryMap.Claim | Kernel/Src/KRE/Memory.cpp:141-197 | succeeds exactly when some region hosts the claimant and the table has room, which `ClaimRules.ClaimSucceedsExactly` puts in bytes and entries; the map is then the old one with the claimed pages carved out, sorted, and the counters move by the granted size; a failed claim changes nothing |
| ClaimRules.HostIsUnique | Kernel/Src/KRE/Memory.cpp:144-145 | at most one region of an ordered map hosts a claimant that is not empty |
| ClaimRules.HostsExactly | Kernel/Src/KRE/Memory.cpp:144-145 | a page-aligned region hosts a claimant exactly when it covers every byte of it, whatever their types |
| ClaimRules.ClaimSucceedsExactly | Kernel/Src/KRE/Memory.cpp:141-178 | for a well-formed map and a claimant that is not empty: a claim can be granted if and only if one region covers all its bytes, whatever the types, and it takes the whole region or the entries it adds (one at an end, two in the middle) leave fewer than 64 |
| ClaimRules.PiecesSplit | Kernel/Src/KRE/Memory.cpp:147-177 | the pieces of a claim lie inside the host, overlap nowhere and are page-aligned |
| ClaimRules.ClaimKeepsOrder | Kernel/Src/KRE/Memory.cpp:141-197 | after a claim the map is sorted, disjoint, page-aligned and below 2^64 again |
| ClaimRules.ClaimTypeAt | Kernel/Src/KRE/Memory.cpp:141-197 | the type of every address after a claim: the claimed type on the granted pages, USABLE on the part an interior claim splits off, unchanged elsewhere |
| ClaimRules.ClaimTouchesOnlyGrant | Kernel/Src/KRE/Memory.cpp:169-175 | types change on the granted pages only, if and only if the host is USABLE or the claim takes the whole region or touches one of its ends |
| ClaimRules.ClaimAccounting | Kernel/Src/KRE/Memory.cpp:185-191 | the counters stay the sums of USABLE and other sizes if and only if exactly one of claimant and host is USABLE and nothing beside the grant is retyped |
| ClaimRules.ClaimCorrect | Kernel/Src/KRE/Memory.cpp:141-197 | under that condition a granted claim keeps the map well-formed, changes types on the granted pages only, and keeps both counters right |
| ClaimRules.GrantCovers | Kernel/Src/KRE/Memory.cpp:154-167 | the granted pages hold all of a claim exactly when its offset in its first page still fits the rounded size |
| ClaimRules.RetypedPageExample | Kernel/Src/KRE/Memory.cpp:169-191 | claiming the middle one of three RESERVED pages makes the last one USABLE, and the counters miss it |
| ClaimRules.WrongChargeExample | Kernel/Src/KRE/Memory.cpp:185-191 | claiming a RESERVED page for kernel code wraps the counter of free memory below zero |
| ClaimRules.UncoveredClaimExample | Kernel/Src/KRE/Memory.cpp:154-167 | 4 KiB claimed at an offset of 2 KiB are granted the page they begin in, without their last byte |
| MemoryMaps.TallyAccounts | Kernel/Src/KRE/Memory.cpp:85-98 | for an ordered map below 2^64 the constructor's counters are the true sums |
| MemoryMaps.MemoryMap.Merge | Kernel/Src/KRE/Memory.cpp:199-212 | the loop with its decrement ends, leaves the merged map and clears every entry behind it |
| MemoryMaps.MemoryMap.Absorb | Kernel/Src/KRE/Memory.cpp:204-206 | one merge: the region behind is added in 64 bits and deleted |
| MergeRules.MergedSameMemory | Kernel/Src/KRE/Memory.cpp:203-206 | adding a touching neighbour of equal type changes the type of no address and the total of no type |
| MergeRules.MergeCorrect | Kernel/Src/KRE/Memory.cpp:199-212 | merging keeps order and alignment, the type of every address and every total, and leaves nothing to merge |
| MergeRules.MergeMeaning | Kernel/Src/KRE/Memory.cpp:199-212 | the merged map is the old one cut into stretches, each in one piece: regions of one type of which each begins where the one before it ends; two neighbours of it differ in type or do not touch |
| Frames.WindowFrames | Kernel/Src/Memory/PhysicalMemoryManager.cpp:42-48 | for requests in the managed window the frame conversions neither wrap nor truncate |
| Frames.AlignedFrames | Kernel/Src/Memory/PhysicalMemoryManager.cpp:42-48 | rounding a frame's own address up or down gives that frame |
| Frames.AddressOfFrame | Kernel/Src/Memory/PhysicalMemoryManager.cpp:50-53 | the address of a managed frame is base plus index times page size, without wrap-around |
| AllocatorRules.FirstFitIsLeast | Kernel/Src/Memory/BitMapAllocator.cpp:66-81 | the search returns the smallest managed frame where the run fits, and the invalid index exactly when there is none |
| AllocatorRules.MarkBlockExact | Kernel/Src/Memory/BitMapAllocator.cpp:44-50 | a block is marked if and only if it lies in the managed range; no other bit changes |
| AllocatorRules.FreeInWindow | Kernel/Src/Memory/BitMapAllocator.cpp:211-228 | free clears exactly the frames the request rounds up to, or nothing when it is refused |
| AllocatorRules.AllocateExact | Kernel/Src/Memory/BitMapAllocator.cpp:172-182 | allocation succeeds if and only if a run of free frames exists, takes the first one, and hands out no protected frame |
| AllocatorRules.AllocateMeaning | Kernel/Src/Memory/BitMapAllocator.cpp:172-182 | allocation frame by frame: success exactly when that many managed frames in a row (one, if none is asked for) have no bit set; the address is that of the first such place, and exactly the frames asked for get their bits |
| AllocatorRules.ExplicitKeepsSound | Kernel/Src/Memory/BitMapAllocator.cpp:184-209 | allocating at any given address keeps every protected frame marked used |
| AllocatorRules.ExplicitExact | Kernel/Src/Memory/BitMapAllocator.cpp:184-209 | when the 32-bit frame numbers of the request do not wrap, an explicit allocation succeeds exactly when these frames are managed, free and the request passes the reserved check |
| RoundTripRules.UnprotectedBlockPasses | Kernel/Src/Memory/BitMapAllocator.cpp:83-100 | the reserved check refuses no block of frames that are unprotected, although its test against the bitmap rounds down |
| RoundTripRules.AllocateFreeRoundTrip | Kernel/Src/Memory/BitMapAllocator.cpp:172-228 | freeing what allocate returned succeeds and restores every bit |
| RoundTripRules.ExplicitFreeRoundTrip | Kernel/Src/Memory/BitMapAllocator.cpp:184-228 | freeing the same explicit request undoes it if and only if the first frame it took is the first one it frees (for no frame: if that one is managed); in the window this means that the address is the start of a frame |
| RoundTripRules.UnalignedFreeExample | Kernel/Src/Memory/BitMapAllocator.cpp:184-228 | allocating and freeing at an address inside a frame both succeed, and the frame stays used |
| FreeRules.FreeClears | Kernel/Src/Memory/BitMapAllocator.cpp:52-64 | for every address and count: free clears exactly the frames the wrapped and truncated numbers name when they are managed, and nothing otherwise |
| FreeRules.ReachedIsGuarded | Kernel/Src/Memory/BitMapAllocator.cpp:83-100 | a request that reaches a byte of a frame that touches memory which is not USABLE is refused |
| FreeRules.FreeKeepsSound | Kernel/Src/Memory/BitMapAllocator.cpp:211-228 | free, at any alignment, leaves every frame that touches memory which is not USABLE marked used, as long as the request reaches the frames it frees |
| FreeRules.WindowFreesItsOwn | Kernel/Src/Memory/BitMapAllocator.cpp:52-64 | requests at or above the base whose frame numbers fit 32 bits reach the frames they free |
| FreeRules.FreeSafeExactly | Kernel/Src/Memory/BitMapAllocator.cpp:52-100 | for every address and count: free keeps every sound state sound if and only if it frees nothing or the first frame it frees does not lie in front of the request, nor the last one behind its end; for counts below 2^32 this is also exact over the states after a start |
| FreeRules.ForeignFreeBreaks | Kernel/Src/Memory/BitMapAllocator.cpp:83-100 | otherwise there is a machine on which the reserved check passes and a protected frame is freed |
| FreeRules.TruncatedFreeExample | Kernel/Src/Memory/BitMapAllocator.cpp:60-63 | freeing the frame at 16 TiB frees the protected frame 0 of a 64 KiB machine |
| FreeRules.BelowBaseFreeExample | Kernel/Src/Memory/PhysicalMemoryManager.cpp:46-48 | with memory from 16 TiB on, freeing address 0 frees its protected first frame |
| FreeRules.HugeCountExample | Kernel/Src/Memory/BitMapAllocator.cpp:85-89 | a larger count at an address below memory is refused in every state after a start, although it would free foreign frames |
| ExplicitRules.ExplicitTakes | Kernel/Src/Memory/BitMapAllocator.cpp:195-208 | for every address and count: what a successful explicit allocation takes is managed and was free, and nothing else changes |
| ExplicitRules.ExplicitTakesItsOwnExactly | Kernel/Src/Memory/BitMapAllocator.cpp:195-208 | a successful explicit allocation takes the frames of its request if and only if the request lies in managed memory or asks for none |
| ExplicitRules.ForeignTakeExample | Kernel/Src/Memory/PhysicalMemoryManager.cpp:42-44 | with 64 KiB of memory, allocating a page behind 16 TiB succeeds and takes frame 3 |
| RunRules.FreeRegionExact | Kernel/Src/Memory/BitMapAllocator.cpp:52-64 | freeing a managed page-aligned region clears exactly the frames that begin in it |
| RunRules.ReclaimCorrect | Kernel/Src/Memory/BitMapAllocator.cpp:146-170 | reclaiming always succeeds, makes exactly the reclaimable bytes USABLE and frees exactly their frames |
| RunRules.MergeFromSound | Kernel/Src/KRE/Memory.cpp:199-212 | merging the map keeps the allocator sound |
| RunRules.RunSafe | Kernel/Src/Memory/BitMapAllocator.cpp:83-228 | after any mix of allocate, allocate_explicit, reclaim, merge and free calls that free only frames they reach, every managed frame that touches memory which is not USABLE is still marked used |
| RunRules.IndexFrameIsProtected | Kernel/Src/Memory/BitMapAllocator.cpp:85-89 | every frame that shares a byte with the bitmap is protected by the map, its last partial page included |
| RunRules.HandedOutFramesAreUsable | Kernel/Src/Memory/BitMapAllocator.cpp:172-182 | at every moment of every such run an allocation returns frames that were free, are used now, and belong neither to protected memory nor to the bitmap |
| RunRules.HandedOutBytes | Kernel/Src/Memory/BitMapAllocator.cpp:172-182 | byte by byte: every address of a block handed out is USABLE or in no region of the map, and none belongs to the bitmap |
| RunRules.TakenFramesAreUsable | Kernel/Src/Memory/BitMapAllocator.cpp:184-209 | the same for the frames any explicit allocation takes, whatever it asks for |
| LiveRules.LiveStepKeeps | Kernel/Src/Memory/BitMapAllocator.cpp:172-228 | when only live blocks are freed, one call keeps them pairwise disjoint, keeps free plus live frames constant, and no free fails |
| LiveRules.LiveRunConserves | Kernel/Src/Memory/BitMapAllocator.cpp:172-228 | over any such run live blocks stay disjoint, free plus live frames stay constant, and no release fails |
| InitRules.DetectionCorrect | Kernel/Src/Memory/PhysicalMemoryManager.cpp:27-40 | the detected base, page size and frame count are valid and every region lies in the managed range |
| InitRules.DetectsAllUsable | Kernel/Src/Memory/PhysicalMemoryManager.cpp:27-40 | the detection finds one region of whole pages again |
| InitRules.MarkIndexExact | Kernel/Src/Memory/BitMapAllocator.cpp:124 | marking the bitmap's bytes marks exactly the frames of its pages |
| InitRules.StartCorrect | Kernel/Src/Memory/BitMapAllocator.cpp:107-128 | after initialisation the bitmap's pages are RESERVED, all other types are as before, and a managed frame is used exactly when it is not USABLE or belongs to the bitmap |
| InitRules.CanStartExactly | Kernel/Src/Memory/PhysicalMemoryManager.cpp:64-94 | start succeeds if and only if the map is not empty and its first USABLE region with a bit for each frame between its first and last address has that size exactly or leaves the table of 64 entries room |
| InitRules.FirstUsedIsStarted | Kernel/Src/Memory/PhysicalMemoryManager.cpp:64-94 | starting with one USABLE region, whose first page takes the bitmap, leaves a machine whose first frame alone is RESERVED and used |
| InitRules.AllAllocated | Kernel/Src/Memory/BitMapAllocator.cpp:172-182 | allocating everything that is left then uses all frames: the machine of the failing free calls |
| BitMapAllocators.BitMapAllocator.DetectMemoryRange | Kernel/Src/Memory/PhysicalMemoryManager.cpp:27-40 | fails exactly when no region ends above zero; otherwise the fields are the folded minimum, maximum and quotient |
| BitMapAllocators.BitMapAllocator.FindIndexRegion | Kernel/Src/Memory/PhysicalMemoryManager.cpp:74-82 | the start of the first USABLE region the bitmap fits, or the largest address |
| BitMapAllocators.BitMapAllocator.Start | Kernel/Src/Memory/PhysicalMemoryManager.cpp:64-94 | each failure code is returned exactly when its condition holds, success exactly when there is memory, a region for the bitmap and room in the table; then the packed bitmap is the set of frames not USABLE plus the bitmap's own |
| BitMapAllocators.BitMapAllocator.Init0 | Kernel/Src/Memory/BitMapAllocator.cpp:107-128 | establishes that state, or fails exactly when the table has no room, and keeps the counters right |
| BitMapAllocators.BitMapAllocator.FillBitmap | Kernel/Src/Memory/BitMapAllocator.cpp:113 | every bit of the bitmap is set |
| BitMapAllocators.BitMapAllocator.FreeUsableRegions | Kernel/Src/Memory/BitMapAllocator.cpp:115-119 | exactly the frames of USABLE regions are cleared; it never fails on a firmware map |
| BitMapAllocators.BitMapAllocator.IsFree | Kernel/Src/Memory/BitMapAllocator.cpp:27-33 | the packed bit decides, frames behind the managed range count as free |
| BitMapAllocators.BitMapAllocator.Mark | Kernel/Src/Memory/BitMapAllocator.cpp:35-42 | exactly one member enters or leaves the set the bytes stand for |
| BitMapAllocators.BitMapAllocator.MarkMemoryBlock | Kernel/Src/Memory/BitMapAllocator.cpp:44-50 | the loop refines the abstract block operation |
| BitMapAllocators.BitMapAllocator.MarkMemoryRegion | Kernel/Src/Memory/BitMapAllocator.cpp:52-64 | rounds outwards when marking used and inwards when marking free |
| BitMapAllocators.BitMapAllocator.FindFreeRegion | Kernel/Src/Memory/BitMapAllocator.cpp:66-81 | the sliding search that skips behind used frames finds the first fit |
| BitMapAllocators.SkipBlocked | Kernel/Src/Memory/BitMapAllocator.cpp:75-78 | restarting behind a used frame skips no place where the run fits |
| BitMapAllocators.BitMapAllocator.IsReservedOrBitMapAddress | Kernel/Src/Memory/BitMapAllocator.cpp:83-100 | -1, -2 or 0 exactly as the abstract check |
| BitMapAllocators.BitMapAllocator.Allocate | Kernel/Src/Memory/BitMapAllocator.cpp:172-182 | refines the abstract allocation on the packed bytes |
| BitMapAllocators.BitMapAllocator.AllocateExplicit | Kernel/Src/Memory/BitMapAllocator.cpp:184-209 | refines the abstract explicit allocation |
| BitMapAllocators.BitMapAllocator.Free | Kernel/Src/Memory/BitMapAllocator.cpp:211-228 | refines the abstract free |
| BitMapAllocators.BitMapAllocator.ClaimBootLoaderReclaimableMemory | Kernel/Src/Memory/BitMapAllocator.cpp:146-170 | refines the abstract reclaim, although it claims from the map it iterates over, and keeps the counters right |
| Bits.MarkBit | Kernel/Src/Memory/BitMapAllocator.cpp:35-42 | setting or clearing one bit of packed bytes changes the set of bits by exactly that member |
| Bits.BitOrder | Kernel/Src/Memory/BitMapAllocator.cpp:27-42 | bits count from the lowest one of the first byte |
| Bits.BitsDetermineBytes | Kernel/Src/Memory/BitMapAllocator.cpp:35-42 | equal sets of bits mean equal bytes, so restoring the set restores the bitmap bit for bit |
| RunLengths.EncodingCorrect | Kernel/Src/Memory/BitMapAllocator.cpp:240-265 | the runs are maximal, alternate and leave no gap, and every frame lies in one that is USED if its bit is set and USABLE if it is not |
| RunLengths.ReadBounds | Kernel/Src/Memory/BitMapAllocator.cpp:236-241 | the rounded bounds are the first and last frame the addresses touch |
| BitMapAllocators.BitMapAllocator.ReadPageFrameStates | Kernel/Src/Memory/BitMapAllocator.cpp:230-266 | for start below end the buffer gets the first runs of that encoding, as many as fit; out of range gives 0; an empty range gives the one page its start lies in, USED if and only if its bit is set |
| BitMapAllocators.BitMapAllocator.ReadRuns | Kernel/Src/Memory/BitMapAllocator.cpp:243-265 | the loop writes the prefix of the encoding |
| ElfLoaders.ELFLoader.GetNextBuffer | Kernel/Src/App/ELFLoader.cpp:28-36 | a good refill continues the file where the node stood; a bad one leaves the buffer limits alone |
| ElfLoaders.ELFLoader.ReadBytes | Kernel/Src/App/ELFLoader.cpp:38-52 | delivers the next min(requested, remaining) bytes of the file, for every pattern of short reads |
| ElfLoaders.ELFLoader.Seek | Kernel/Src/App/ELFLoader.cpp:54-62 | on success the cursor stands at the offset converted to a 32-bit int, which must name a byte of the file |
| ElfImages.SoughtAtOffset | Kernel/Src/App/ELFLoader.cpp:54-62 | a segment is sought at its own offset if and only if that is below the file size and below 2 GiB |
| ElfImages.WrongOffsetExample | Kernel/Src/App/ELFLoader.cpp:54-56 | a segment at offset 2^32 + 5 is loaded from offset 5 |
| ElfLoaders.ELFLoader.CopyFile | Kernel/Src/App/ELFLoader.cpp:282-297 | when the file holds them, the copy loop ends and moves exactly the file bytes |
| ElfLoaders.ELFLoader.CopyChunk | Kernel/Src/App/ELFLoader.cpp:291-296 | one turn takes a buffer full from the cursor, or what is left of the file, and copies what is still wanted of it |
| ElfLoaders.ELFLoader.CopyTurns | Kernel/Src/App/ELFLoader.cpp:290-297 | for every file and every number of turns: what the loop has copied, and that what is left to copy is what the count of turns says |
| ElfLoaders.ELFLoader.LoadSegment | Kernel/Src/App/ELFLoader.cpp:282-301 | copies the file bytes and zero-fills up to the memory size; nothing else changes |
| ElfLoaders.ELFLoader.LoadSegments | Kernel/Src/App/ELFLoader.cpp:269-301 | handles the headers in order up to the first PT_LOAD that cannot be sought, and succeeds exactly when there is none |
| ElfImages.WriteAt | Kernel/Src/App/ELFLoader.cpp:282-301 | the byte at every address after one segment |
| ElfImages.ImageOutside | Kernel/Src/App/ELFLoader.cpp:269-301 | addresses no segment touches keep their bytes |
| ElfImages.ImageInside | Kernel/Src/App/ELFLoader.cpp:269-301 | where segments overlap the last one decides, file bytes first, zeros behind |
| ElfImages.ImageIsGabi | Kernel/Src/App/ELFLoader.cpp:269-301 | the PT_LOAD rule of the System V gABI, chapter 5: file bytes at the virtual address, zeros up to the memory size, nothing outside changed |
| ElfImages.CopyEndsExactly | Kernel/Src/App/ELFLoader.cpp:290-297 | some number of turns leaves nothing to copy if and only if the file still holds the bytes the header asks for |
| Numerals.DigitsValue | Kernel/Include/KRE/String.h:399-407 | the printed digits are digits of the radix and their positional value is the number modulo radix to the buffer length |
| Numerals.NoLeadingZero | Kernel/Include/KRE/String.h:401-407 | no leading zero except for zero itself |
| Numerals.DigitCharacters | Kernel/Include/KRE/String.h:436-447 | sixteen digit characters in either case, printed in upper case, and no others |
| Numerals.DigitsLength | Kernel/Src/KRE/String.cpp:73-85 | a number has at most k digits if and only if it is below the k-th power of the radix |
| NumberStrings.IntToString | Kernel/Include/KRE/String.h:393-410 | the loop prints the digits of the number, at most 32 of them |
| NumberStrings.ParseInt | Kernel/Include/KRE/String.h:412-462 | accepts exactly an optional sign and digits below the radix; the result is the value added to what out held, times the sign, modulo 2^64; a refused text has already added its tail |
| NumberStrings.ParseExact | Kernel/Include/KRE/String.h:436-461 | from zero the result is the denoted integer if and only if that integer fits 64 bits: the overflow test compares with a variable that stays zero |
| NumberStrings.SignedText | Kernel/Include/KRE/String.h:425-461 | digits with a plus, a minus or no sign in front are accepted, and what each leaves in out; a sign alone or two of them are refused |
| NumberStrings.ParseOverflowExample | Kernel/Include/KRE/String.h:453-457 | 2^64 in hexadecimal is accepted and parses as 0 |
| NumberStrings.PrintParseRoundTrip | Kernel/Include/KRE/String.h:393-462 | parsing a printed number gives it back if and only if its digits fit the buffer, which holds for every radix from 4 on |
| NumberStrings.CutBinaryExample | Kernel/Include/KRE/String.h:393-462 | 2^32 printed in binary reads back as 0 |
| Formatting.PutWritten | Kernel/Src/KRE/String.cpp:116-124 | writing pieces with the buffer test keeps the buffer the beginning of the full text |
| Formatting.ArgumentOvershoot | Kernel/Src/KRE/String.cpp:163-185 | an argument passes the end of the buffer, by at most two characters, if and only if its radix prefix is written with fewer than two characters of room behind the left padding |
| RenderRules.ArgumentRendered | Kernel/Src/KRE/String.cpp:87-193 | the full text of every argument under every style: characters as they are; at most 255 characters of a string, or as many as the precision names, in a field on the side the alignment names; integers likewise, with '#' behind 0b, 0o or 0x, which stands in front of the number, or with '=' in front of the filling |
| RenderRules.NumberPlaces | Kernel/Src/KRE/String.cpp:130-193 | the same for an integer position by position: where the prefix, the filling and the number stand |
| RenderRules.ZeroFilledReadsBack | Kernel/Src/KRE/String.cpp:155-188 | filled with zeros behind its prefix, an integer that is not negative reads back as itself in the radix the prefix names |
| RenderRules.NumberReadsBack | Kernel/Src/KRE/String.cpp:130-193 | the text of an integer in its radix parses back as the integer |
| RenderRules.NumberDefinedExactly | Kernel/Src/KRE/String.cpp:139-147 | printing an integer of up to 64 bits is defined except for the smallest of its type: in radix 8, 10 and 16 always, in radix 2 if and only if digits and sign are at most 32 characters |
| FormatMachine.DetectNumber | Kernel/Src/KRE/String.cpp:41-48 | the length of the longest run of decimal digits |
| FormatMachine.AlignCharacters | Kernel/Src/KRE/String.cpp:371-380 | the four alignment characters |
| FormatMachine.Step | Kernel/Src/KRE/String.cpp:325-637 | every step that continues reads a character or moves to a state of lower rank, so the machine ends |
| FormatItems.SpecRun | Kernel/Src/KRE/String.cpp:364-446 | the machine reads the specification of a placeholder into the style it denotes |
| FormatItems.HoleRun | Kernel/Src/KRE/String.cpp:336-632 | one well-formed placeholder is consumed and its argument written |
| FormatItems.MisreadRun | Kernel/Src/KRE/String.cpp:364-374 | an empty specification in front of an alignment character ends the run with an error |
| FormatItems.ItemsRun | Kernel/Src/KRE/String.cpp:324-639 | from any point of a well-formed format the machine writes what the rest stands for |
| FormatItems.InterpolateCorrect | Kernel/Src/KRE/String.cpp:309-640 | a well-formed format fails if and only if a misread placeholder is reached before the buffer is full; otherwise it writes the first buffer-size characters of its text and returns their number, and passes the end if and only if a radix prefix overruns it |
| FormatItems.AddressLogged | Kernel/Src/KRE/String.cpp:130-193 | the format of the kernel's log lines, '{:0=#16x}', writes every address as 0x and sixteen more characters that read back as the address |
| FormatItems.RadixIsNamed | Kernel/Src/KRE/String.cpp:424-446 | with '#' and a letter an integer is 0, that letter, and digits that read back as the integer in the radix the letter stands for |
| FormatItems.PlainFits | Kernel/Src/KRE/String.cpp:309-640 | formats whose placeholders specify nothing neither fail nor overrun |
| FormatItems.OverrunExample | Kernel/Src/KRE/String.cpp:174-185 | an integer in hexadecimal with its prefix writes two characters into a buffer of one |
| FormatItems.RefusedExample | Kernel/Src/KRE/String.cpp:364-380 | an empty specification in front of an alignment character is refused |
| Interpolate.DetectDigits | Kernel/Src/KRE/String.cpp:41-48 | the loop computes that length |
| Interpolate.ParseDigits | Kernel/Src/KRE/String.cpp:50-60 | up to three digits give their value in 8 bits through the table of powers |
| Interpolate.IntToBuf | Kernel/Src/KRE/String.cpp:73-85 | the digits, least significant first |
| Interpolate.WriteReverse | Kernel/Src/KRE/String.cpp:62-71 | the message reversed, as far as the buffer reaches; nothing behind changes |
| Interpolate.FormatString | Kernel/Src/KRE/String.cpp:87-128 | padding, the cut text, padding, as far as the buffer reaches |
| Interpolate.FormatNumber | Kernel/Src/KRE/String.cpp:130-193 | the loops write prefix, padding, sign and digits as the pieces say whose text `RenderRules.ArgumentRendered` describes, as far as the buffer reaches |
| Interpolate.FormatArgument | Kernel/Src/KRE/String.cpp:450-624 | each kind of argument goes to its formatter |
| Interpolate.ReadIndex | Kernel/Src/KRE/String.cpp:335-363 | index or automatic counting, never both |
| Interpolate.ReadPrecision | Kernel/Src/KRE/String.cpp:399-422 | a precision only for strings, its length kept in 8 bits |
| Interpolate.Interpolate | Kernel/Src/KRE/String.cpp:309-640 | the imperative loop refines the machine for every buffer that reaches as far as the run writes: its return value, the buffer up to it, and everything behind it |
| TerminalRules.AlwaysGood | Kernel/Src/App/TerminalStream.cpp:612-704 | for every byte sequence at most 5 arguments and 3 digits are held, the column stays in the screen and at most 128 lines are kept |
| TerminalRules.ScrollShowsCursor | Kernel/Src/App/TerminalStream.cpp:356-365 | scrolling to the cursor makes it visible exactly when its line is visible or buffered |
| TerminalRules.CursorStaysVisible | Kernel/Src/App/TerminalStream.cpp:428-493 | for a cursor that can be scrolled to: down and the absolute position end on the screen, up exactly when there are enough lines above or line 0 is visible, left and right exactly when it was visible |
| TerminalRules.WriteAllAppend | Kernel/Src/KRE/Stream.cpp:28-35 | writing a concatenation is writing its parts |
| CommandRules.CommandReceived | Kernel/Src/App/TerminalStream.cpp:612-704 | what the bytes of any command do to a parser with held arguments and digits: which arguments it is carried out with, or from which byte on it is printed, and what is held then |
| CommandRules.CarriedAsWritten | Kernel/Src/App/TerminalStream.cpp:672-698 | a command is carried out as written if and only if it has at most five arguments, none is held, and the held digits are zeros that leave room (or, without arguments, amount to zero) |
| CommandRules.AbortKeeps | Kernel/Src/App/TerminalStream.cpp:694-698 | an aborted sequence leaves its arguments and digits in the parser and draws its last byte; every parser state within the bounds is reached this way |
| CommandRules.CommandArrives | Kernel/Src/App/TerminalStream.cpp:612-704 | from a clean parser the bytes of a command with one to five arguments carry out exactly that command, draw nothing and leave the parser clean (ECMA-48, section 5.4) |
| CommandRules.UpLeavesScreenExample | Kernel/Src/App/TerminalStream.cpp:428-441 | on a new terminal of 25 lines: a character, 34 newlines, 23 lines up and 2 more leave the cursor in line 0, above the first visible line |
| CursorRules.TextFillsCells | Kernel/Src/App/TerminalStream.cpp:286-301 | writing n characters from column c: the k-th is drawn in column (c + k) mod width, (c + k) / width lines further down, in the current colours; the cursor ends in column (c + n) mod width, (c + n) / width lines further down |
| CursorRules.BackspaceMoves | Kernel/Src/App/TerminalStream.cpp:623-630 | backspace moves one column left, not beyond the first, and changes nothing else |
| CursorRules.TabMoves | Kernel/Src/App/TerminalStream.cpp:631-639 | a tab draws spaces up to the next multiple of four columns |
| CursorRules.NewlineMoves | Kernel/Src/App/TerminalStream.cpp:640-649 | a newline leads to the first column of the next line and scrolls by one behind the last visible line, as far as there are lines |
| CursorRules.ReturnMoves | Kernel/Src/App/TerminalStream.cpp:650-656 | a carriage return leads to the first column and empties the last line of the buffer, and no other |
| CursorRules.RightAndLeft | Kernel/Src/App/TerminalStream.cpp:455-475 | right and left by n columns, at least one, up to the last and the first column |
| CursorRules.RightAndBack | Kernel/Src/App/TerminalStream.cpp:455-475 | right and then left by n leads back if and only if the way right was free or began in the first column |
| CursorRules.UpAndDown | Kernel/Src/App/TerminalStream.cpp:427-454 | up and down by n lines, at least one, after the view moved to the cursor |
| CursorRules.PositionSet | Kernel/Src/App/TerminalStream.cpp:476-493 | the absolute position: columns and lines of the screen counted from one, cut at its end |
| CursorRules.TextAtPosition | Kernel/Src/App/TerminalStream.cpp:476-493 | text behind an absolute position begins in the cell with these coordinates and goes on to its right |
| CursorRules.ScrollsView | Kernel/Src/App/TerminalStream.cpp:588-599 | S and T move the view back to the first buffered line at most, and on to the last, and nothing else |
| CursorRules.ErasingKeepsCursor | Kernel/Src/App/TerminalStream.cpp:494-587 | J and K leave the cursor in its line and column; only the argument 3 of J takes lines away, and then all |
| CursorRules.GraphicsSelected | Kernel/Src/App/TerminalStream.cpp:408-426 | the bytes of 38;2;r;g;b set the foreground, those of 48;2;r;g;b the background, those of 0 both defaults |
| CursorRules.CharacterClasses | Kernel/Src/App/TerminalStream.cpp:371-374 | the selectors, control codes and digits the interpreter knows |
| CursorRules.ThreeDigitArgument | Kernel/Src/App/TerminalStream.cpp:376-403 | three digits are an argument modulo 256 |
| CursorRules.EscapedCharacter | Kernel/Src/App/TerminalStream.cpp:662-670 | an escape character without a bracket behind it vanishes, and the character behind it is drawn even if it is a control code |
| CursorRules.SeparatorWithoutRoom | Kernel/Src/App/TerminalStream.cpp:683-693 | a separator behind five arguments changes nothing |
| ColorRules.FormattedColor | Kernel/Src/KRE/Stream.cpp:51-61 | formatting a colour yields the command with the selector and the three components in decimal |
| ColorRules.ColorArrives | Kernel/Src/App/TerminalStream.cpp:405-426 | set_foreground_color and set_background_color set exactly that colour, reset_style restores both defaults, and nothing is drawn |
| ColorRules.ColorReceived | Kernel/Src/App/TerminalStream.cpp:405-426 | wherever text may stand, a colour command sets exactly its colour when the parser holds nothing but at most a zero, and otherwise changes no colour |
| ColorRules.LostColorExample | Kernel/Src/App/TerminalStream.cpp:672-698 | an aborted sequence with five arguments, after which the next colour is lost |
| CommandRules.TextArrives | Kernel/Src/App/TerminalStream.cpp:751-772 | plain text outside control sequences is drawn character by character in the current colours and changes neither colours nor parser |
| ColorRules.ProgramArrives | Kernel/Src/KRE/Stream.cpp:28-66 | any list of colour commands and texts shows every text in the colours in force and ends with the last ones |
| TranscriptRules.ByteRecords | Kernel/Src/App/TerminalStream.cpp:74-85 | every byte that erases nothing keeps the scroll-back buffer the end of what was drawn, and all of it unless the oldest line is dropped |
| TranscriptRules.BufferRecordsScreen | Kernel/Src/App/TerminalStream.cpp:147-166 | without erasing, the buffer holds the end of everything drawn, each character in the colours it was drawn in; as long as no line was dropped it holds everything |
| TranscriptRules.FewLinesNeverDrop | Kernel/Src/App/TerminalStream.cpp:152-166 | up to 127 newlines written to a new terminal drop no line |
| TranscriptRules.LinesStaySized | Kernel/Src/App/TerminalStream.cpp:74-85 | as long as nothing is erased every line's size is the number of characters in its pieces |
| TranscriptRules.NewTerminalMirrors | Kernel/Src/App/TerminalStream.cpp:706-743 | a new terminal at least one column wide starts so |
| TerminalStreams.TerminalStream.constructor | Kernel/Src/App/TerminalStream.cpp:706-743 | a new terminal has a clean parser, empty buffers and the default colours |
| TerminalStreams.TerminalStream.ScrollBackBufferAppendNewLine | Kernel/Src/App/TerminalStream.cpp:152-166 | the oldest lines go until there is room, the last line is styled, an empty one follows |
| TerminalStreams.TerminalStream.DrawChar | Kernel/Src/App/TerminalStream.cpp:286-301 | draws at the cursor in the current colours and moves it on, as `CursorRules.TextFillsCells` says of whole texts |
| TerminalStreams.TerminalStream.ParseCsiArg | Kernel/Src/App/TerminalStream.cpp:376-403 | the 8-bit value of the digits; the digit buffer is empty and zero again |
| TerminalStreams.TerminalStream.MoveCursor | Kernel/Src/App/TerminalStream.cpp:428-493 | the five cursor commands with their clamping |
| TerminalStreams.TerminalStream.SelectGraphicRendition | Kernel/Src/App/TerminalStream.cpp:408-426 | records the buffered text in the old colours, then sets or resets |
| TerminalStreams.TerminalStream.ExecCsiCommand | Kernel/Src/App/TerminalStream.cpp:405-610 | carries out the command and clears selector and arguments |
| TerminalStreams.TerminalStream.InterpretControl | Kernel/Src/App/TerminalStream.cpp:619-662 | backspace, tab, newline and carriage return; the result says whether the byte was one |
| TerminalStreams.TerminalStream.InterpretArgument | Kernel/Src/App/TerminalStream.cpp:672-698 | digits, separators, selectors and aborts inside a sequence |
| TerminalStreams.TerminalStream.InterpretChar | Kernel/Src/App/TerminalStream.cpp:612-704 | refines the parser on the fixed-size buffers |
| TerminalStreams.TerminalStream.Write | Kernel/Src/App/TerminalStream.cpp:751-772 | one byte refines one step; all array indices stay in bounds |
| TerminalStreams.TerminalStream.WriteString | Kernel/Src/KRE/Stream.cpp:28-35 | the counting loop writes every byte |
| TerminalStreams.TerminalStream.SetForegroundColor | Kernel/Src/KRE/Stream.cpp:57-61 | from a parser that holds nothing: the foreground is that colour, the buffered text is recorded in the old one, all else as before; behind any other aborted sequence no colour changes |
| TerminalStreams.TerminalStream.SetBackgroundColor | Kernel/Src/KRE/Stream.cpp:51-55 | the same for the background |
| TerminalStreams.TerminalStream.ResetStyle | Kernel/Src/KRE/Stream.cpp:63-66 | the same for both defaults |
| RefRules.StepKeeps | Kernel/Include/KRE/Memory.h:107-216 | every operation keeps strong counts equal to the number of handles and deletions at zero while there is one, one when there is none |
| RefRules.HeldAfter | Kernel/Include/KRE/Memory.h:107-216 | what every handle holds after every operation: copy and assignment share, a move empties its source, self-move changes nothing, and no third handle changes |
| RefRules.CountsAreHandles | Kernel/Include/KRE/Memory.h:107-216 | after any run the strong count of a block is the number of its handles, and its deleter has run exactly once if and only if there is none |
| RefRules.DeletedWithLastHandle | Kernel/Include/KRE/Memory.h:143-151 | the deleter runs in the very step that takes the last handle away, and in no other; a freed block gets no handle again |
| RefRules.NothingLeaks | Kernel/Include/KRE/Memory.h:107-216 | when no handle holds anything every object was deleted exactly once and no block is left |
| SharedPointers.SharedPointer.constructor | Kernel/Include/KRE/Memory.h:124-131 | a block with one holder, or an empty handle for a null argument |
| SharedPointers.SharedPointer.FromCopy | Kernel/Include/KRE/Memory.h:163-174 | joins the holders, also with another pointer type |
| SharedPointers.SharedPointer.FromMove | Kernel/Include/KRE/Memory.h:188-193 | takes the block over and empties the source |
| SharedPointers.SharedPointer.Reset0 | Kernel/Include/KRE/Memory.h:143-151 | gives up the block; at zero the deleter runs and the block is freed |
| SharedPointers.SharedPointer.Assign | Kernel/Include/KRE/Memory.h:176-186 | refines assignment, self-assignment and assignment within one block included |
| SharedPointers.SharedPointer.Swap | Kernel/Include/KRE/Memory.h:133-141 | both handles exchange block and pointer |
| SharedPointers.SharedPointer.MoveAssign | Kernel/Include/KRE/Memory.h:195-199 | the temporary and the swap amount to releasing the old block and taking the new one over, self-move included |
| SharedPointers.SharedPointer.Reset | Kernel/Include/KRE/Memory.h:211-214 | gives up the block, if any |
| SharedPointers.SharedPointer.Destroy | Kernel/Include/KRE/Memory.h:158-161 | gives up the block and ends the handle |
| SharedPointers.SharedPointer.GetRefCount | Kernel/Include/KRE/Memory.h:203-209 | the number of handles that hold the block |
| SharedPointers.SharedPointer.Get | Kernel/Include/KRE/Memory.h:201 | what a live handle points to has not been deleted |
| DeviceRules.AllBelowRoot | Kernel/Src/Device/DeviceModule.cpp:35-44 | every device of the tree reaches the root over its buses |
| DeviceRules.OneAncestorPerDepth | Kernel/Src/Device/DeviceModule.cpp:35-44 | no device stands below two devices of one depth |
| DeviceRules.VisitedAll | Kernel/Src/Device/DeviceModule.cpp:53-59 | visiting a device and then each child's subtree visits everything below it |
| DeviceModules.DeviceModule.Promises | Kernel/Src/Device/DeviceModule.cpp:187-233 | in every state the operations reach: mutual links, one root, unique handles; and what it means that all bound drivers fit |
| DeviceModules.DeviceModule.FindDevice | Kernel/Src/Device/DeviceModule.cpp:35-44 | a handle is found if and only if a device of the tree has it |
| DeviceModules.DeviceModule.FindDeviceBelow | Kernel/Src/Device/DeviceModule.cpp:35-44 | the recursive search ends and overlooks no device of the subtree |
| DeviceModules.DeviceModule.FindDeviceDriver | Kernel/Src/Device/DeviceModule.cpp:46-51 | the first matching driver of the store |
| DeviceModules.FirstMatchIsFirst | Kernel/Src/Device/DeviceModule.cpp:46-51 | the driver found stands at an index in front of which no driver matches; none is found exactly when none matches |
| DeviceModules.DeviceModule.MatchDevices | Kernel/Src/Device/DeviceModule.cpp:53-59 | exactly the matching devices of the subtree, each once |
| DeviceModules.DeviceModule.RemoveDeviceDriver | Kernel/Src/Device/DeviceModule.cpp:61-72 | no device of the subtree is bound to the driver afterwards; nothing else is bound differently |
| DeviceModules.DeviceModule.RegisterDeviceDriver | Kernel/Src/Device/DeviceModule.cpp:143-165 | enters the store once and is bound to exactly the matching devices it accepts; bound drivers go on fitting |
| DeviceModules.DeviceModule.UnregisterDeviceDriver | Kernel/Src/Device/DeviceModule.cpp:167-172 | leaves the store and exactly the devices bound to it; bound drivers go on fitting |
| DeviceModules.DeviceModule.RegisterDevice | Kernel/Src/Device/DeviceModule.cpp:187-215 | succeeds exactly when the bus is known and the device is not; the device enters the tree exactly when the bus object itself is in it, gets the first matching driver if that accepts and keeps its own otherwise; bound drivers go on fitting if and only if that one is in the store and made for it |
| DeviceModules.StaleDriverExample | Kernel/Src/Device/DeviceModule.cpp:143-215 | from a new module on: calls after which a device of the tree is bound to a driver that is not in the store |
| DeviceModules.DeviceModule.UnregisterDevice | Kernel/Src/Device/DeviceModule.cpp:218-233 | succeeds exactly when the device has a bus; it leaves the tree with all that stands below it, the bus's list and its driver |
| DeviceModules.DeviceModule.ReplaceRootDevice | Kernel/Src/Device/DeviceModule.cpp:129-135 | the new root takes the children over, they know it as their bus, and the tree is sound again |
| DeviceModules.DeviceModule.LoadPlaceholder | Kernel/Src/Device/DeviceModule.cpp:85-106 | the placeholder becomes the root exactly when the store has a driver for it |
| DeviceModules.DeviceModule.ControlDevice | Kernel/Src/Device/DeviceModule.cpp:236-251 | unknown device, device without driver, or the driver bound to it |

## Left out

- MemoryMaps.MemoryMap.Merge: needs a map with at least one region, because for an empty one the loop bound `_num_regions - 1` wraps.
- MemoryMaps.MemoryMap.Claim: needs a claimant that is not empty; an empty one can be hosted by an empty table entry.
- BitMapAllocators.BitMapAllocator.Start: the virtual address of the bitmap, its relocation and the field for the largest free block are not modelled; the bitmap is an array.
- BitMapAllocators.BitMapAllocator.IsFree: frame index equal to the frame count reads one bit behind the last frame, as the source does; the array is required to have that byte.
- BitMapAllocators.BitMapAllocator.ReadPageFrameStates: the order in which an unaligned end is clamped is modelled for ends inside the managed range only.
- ElfLoaders.ELFLoader.CopyFile: is for files that hold the bytes asked for; on a shorter one the loop does not end, which `ElfLoaders.ELFLoader.CopyTurns` says of any number of its turns.
- ElfLoaders.ELFLoader.CopyChunk: is for nodes without device errors, as is `ElfLoaders.ELFLoader.CopyTurns`; after one the position of the node is unknown.
- ElfLoaders.ELFLoader.LoadSegments: assumes a node without device errors, a file that holds the bytes of every header it can seek, and segments that lie in memory; page flags, and the page allocation with its rollback, are left out.
- ElfImages.ImageIsGabi: for files of at most 2 GiB, the offsets the seek conversion keeps.
- NumberStrings.IntToString: at the type of unsigned 64-bit integers.
- FormatMachine.Step: floating-point arguments are left out; numbers of more than three digits, digits that do not fit the 32-character buffer and the negation of the smallest integer are marked as undefined behaviour.
- FormatItems.InterpolateCorrect: says nothing about formats with such undefined steps; centring an integer follows the code, with its 64-bit wrap-around, and has no meaning of its own.
- TerminalRules.AlwaysGood: the line number of the cursor is not bounded, because neither it nor the viewport follows lines that are dropped.
- TerminalStreams.TerminalStream.ExecCsiCommand: what commands J and K leave of the buffered text is a parameter that keeps the number of lines, and the glyphs they blank are not modelled; scrolling moves the viewport only, and drawing the uncovered lines, the cursor itself, its thread and the mutex are left out.
- CommandRules.TextArrives: texts with escape characters or tabs are left out; what one tab draws is `CursorRules.TabMoves`.
- SharedPointers.SharedPointer.FromCopy: conversions that change the pointer value are left out.
- SharedPointers.SharedPointer.constructor: a raw pointer must not have been wrapped before.
- DeviceModules.DeviceModule.RegisterDevice: devices with children, whose handles the source does not check, or without a valid handle are left out, and drivers do not call back into the module while they accept a device.
- DeviceModules.DeviceModule.LoadPlaceholder: the request for the ACPI information, the handle counter and the texts of a device are left out.
- `MemoryMap::find_type_of` and `get_managed_memory`: the first compares each region with itself, the second overflows on purpose.
- The constructor of `MemoryMap` from an initializer list: the same loop without a limit.
- `UniquePointer`, `write_line` and `write_formatted`: they would only add easy members.
- Paging, the slab allocator, the scheduler, ACPI, PCI and keyboard code.
