# SYPAS boot path, verified

A Dafny model of the code that decides what a SYPAS machine boots and which memory it may use,
with proofs of what that code promises. `dafny verify dfyconfig.toml` checks the whole project.

SYPAS boots in a few steps, and each has its modules here.

- **The boot medium.** `tools/mkfat.py` lays a list of files out as a FAT16 volume;
  `tests/media/validate_media.py` was written separately and walks such a volume back into a
  dictionary of files. `FatNames`, `FatTree`, `FatLayout` and `FatWriter` are the builder,
  `FatOrder` says in which order directories list their names, and `FatReader` is the validator.
  `FatRoundTrip` and `FatTheorems` prove what the validator finds in every built volume, and
  `FatExact` for which lists of files that is exactly the list.
- **Loader relocation.** `Reloc` is the bounded self-relocation of `bootloader/uefi/reloc.c` on the
  bytes of the loader image; `RelocTheorems` says what it leaves behind. `Patches` and `Slices`
  hold the theory of ordered writes that these and the FAT builder share.
- **The kernel image.** `Elf` is the load planner of `bootloader/uefi/elf.c` on the bytes of the
  file, and `Loader` executes a plan on physical memory.
- **The memory map.** `MapSpec` says what a translated map means and when it is canonical,
  `MapCount` why comparing two byte counts decides coverage, `MapProgress` what the translator's
  loops keep, and `MemoryMap` is the translator of `bootloader/uefi/memory_map.c`.
  `MapTheorems` draws consequences for whole maps.
- **Leaving the firmware.** `Handoff` is the sizing loop and the ExitBootServices loop of
  `bootloader/uefi/main.c` against a firmware that may answer anything at any time.
- **The page allocator.** `Bits`, `PmmSpec` and `Pmm` are `kernel/mm/pmm.c`: a bitmap class that
  refines next fit on a set of free pages.
- **Everything together.** `Ownership` composes planner, translator, handoff and allocator.
- **The cases that fail.** The methods of `PmmExamples` and `FatExamples` call allocator, builder and
  validator with concrete inputs outside the conditions found below; their contracts state the
  outcome.
- **The text console.** `Raster`, `TextGrid` and `Fbcon` are `kernel/graphics/fbcon.c`: pixels that
  follow a grid of characters.

- **The formats.** `ElfBytes`, `RelocBytes`, `FatBytes`, `FatReading` and `ScreenPixels` say what the
  theorems mean for bytes and pixels: at which offset a field lies, and which number it must hold, with
  no use of the parsers, the layout functions and the named constants of the other modules. `Becomes` in
  `MapSpec`, `RoomAt` and `PlainlyFree` in `Pmm`, and `HoldsBoth` in `Handoff` do the same for the memory
  map, the allocator and the handoff buffers.

`Words`, `LittleEndian` and `Bags` hold machine words, byte order and pairwise relations.

Integers are mathematical, with the source's widths as subset types. Every overflow test, unsigned
wraparound and mask of the source is written out, and each is proved to be the test it stands for.
Loops, in-place updates and early returns are methods on arrays and classes; their contracts name
functions and predicates about which the theorems are proved.

## What was found

Five promises of the code hold only under a condition. In each case the model follows the code, a
lemma or a method with concrete inputs shows the failure, and the exact condition is proved.

- **The translator can hang.** The loop at `bootloader/uefi/memory_map.c:218-239` has no test that
  the cursor still lies inside the descriptor. With room for all it appends it stops if and only if no
  segment crosses the upper end of the loader descriptor it works on (`MemoryMap.LoopExits`); without
  room it ends with a full output. The translator hangs if and only if it gets to a descriptor whose
  upper end a segment crosses, and the translation up to that end fits the output
  (`MapTheorems.HangsExactly`). Two adjacent one-page loader descriptors under one two-page segment
  meet every other demand on the input and hang it with any output buffer that is not empty
  (`MapTheorems.FragmentedKernelHangs`, `MapTheorems.TranslateFragments`). The model reports this as a
  status of its own, `Diverges`; for every other status it follows the source, and the condition of
  each status is exact (`MapTheorems.VerdictUnique`).
- **The allocator can hand out memory that does not exist.** `pmm_init` may leave the cursor at the
  number of tracked pages (`kernel/mm/pmm.c:113`). If that number is a multiple of eight, the next
  allocation tests a bit behind the bitmap, and if that stray bit is clear it returns the address
  behind the last page. `Pmm.PageAllocator.AllocPage` is next fit exactly if its start state is
  `Sound`, a test on cursor, page count and that bit. The first page that an allocator returns after
  `pmm_init` is memory if and only if the state is sound (`Ownership.FirstPage`).
  `PmmExamples.UnsoundBoot` starts from a boot map that leads there.
- **The self-test leaks.** `pmm_selftest` gives back what it took only if it passes, and it passes if
  and only if the state is sound, 512 pages are free and each page it took keeps its pattern
  (`Pmm.PageAllocator.SelfTest`). With fewer pages nothing is free afterwards
  (`PmmExamples.SelfTestLeaks`).
- **Releasing a page that nobody holds** passes the allocator's tests. The accounting survives a
  release if and only if the caller held the page (`PmmSpec.UndisciplinedFree`). The bitmap's own
  page can be given back, and is then handed out (`PmmExamples.BitmapHandedOut`).
- **File names survive only if they are visible.** An entry is read back as its node if and only if
  its name is upper-case ASCII within 8.3, neither part ends in white space, a dot is followed by an
  extension, the name is neither "." nor "..", and its first code is not NUL
  (`FatRoundTrip.EntryExact`). The builder accepts "." and NUL; the validator skips the first
  (`FatExamples.DotLost`) and takes the second for the end of the directory, which loses every later
  file as well (`FatExamples.RestLost`). For any list that the builder accepts, the validator
  returns exactly the list if and only if no destination lies below another or is given twice with
  different contents, all names are visible, no destination is nested too deeply, and each is written
  with one slash in front of every name (`FatExact.RoundTripExact`). Below a destination that is a file, other destinations are dropped
  without notice (`FatTree.InsertLookup`).

## Model

| member | source | states |
|---|---|---|
| Words.MulOk | bootloader/uefi/memory_map.c:26-32 | the division test yields the product exactly if it fits 64 bits |
| Words.PowerOfTwoExact | bootloader/uefi/elf.c:24-27 | the bit trick accepts exactly the powers of two |
| Words.WrapCongruent | bootloader/uefi/elf.c:82-85 | masking a wrapped difference tests congruence modulo a power of two, wraparound or not |
| Words.PageMask | bootloader/uefi/elf.c:121-126 | the page masks are remainder and rounding down |
| Elf.AlignTestExact | bootloader/uefi/elf.c:78-85 | the alignment test is the gABI rule: 0, 1, or a power of two modulo which address and offset agree |
| Elf.CheckHeader | bootloader/uefi/elf.c:42-61 | accepts exactly the required identification, type, machine, versions and header sizes, and else names the first test that fails |
| Elf.CheckPolicy | bootloader/uefi/elf.c:75-97 | accepts exactly headers that keep the size, alignment, identity-map and no-W+X policy |
| Elf.PlanSegment | bootloader/uefi/elf.c:107-130 | plans a segment exactly if its file and page-rounded memory ranges neither overflow nor leave the file |
| Elf.OverlapsAny | bootloader/uefi/elf.c:132-139 | finds a page shared with an accepted segment exactly if there is one |
| Elf.PlanSegments | bootloader/uefi/elf.c:71-146 | plans all loaded headers in order with their smallest page span, or stops at the first header with a defect, under the exact condition of its status |
| Elf.SpanExact | bootloader/uefi/elf.c:150-151 | the running minimum and maximum test whether any two segments are too far apart |
| Elf.FindEntry | bootloader/uefi/elf.c:153-168 | succeeds exactly if the entry lies in file-backed executable bytes; its overflow error cannot occur |
| Elf.ElfPlanLoad | bootloader/uefi/elf.c:29-169 | accepts exactly the well-formed files, plans exactly their segments, and every status is returned under its own condition |
| ElfBytes.AcceptedExact | bootloader/uefi/elf.c:36-168 | acceptance on bytes: magic, class, byte order, versions, type and machine, counts, offsets, ranges and entry, each at its literal offset with its literal number |
| ElfBytes.PlanExact | bootloader/uefi/elf.c:107-156 | the plan on bytes: entry from the word at 24, and for each header that takes memory, in order, a segment with the fields of that header |
| ElfBytes.ImageVerdictUnique | bootloader/uefi/elf.c:36-168 | the conditions of the statuses exclude one another, so that each status is returned exactly under its own |
| ElfBytes.PrintedEhdr | bootloader/uefi/elf.h:36-45 | an ELF header written field by field in gABI order is parsed back |
| ElfBytes.PrintedPhdr | bootloader/uefi/elf.h:47-50 | a program header written field by field in gABI order is parsed back |
| LittleEndian.FieldValues | bootloader/uefi/elf.c:41-41 | a field is the sum of its bytes times powers of 256 |
| Elf.SegmentRejects | bootloader/uefi/elf.c:71-168 | a diagnosed segment defect makes the image unacceptable |
| Elf.PrefixAccepted | tests/unit/test_elf.c:285-297 | a prefix is accepted exactly if the file is and the cut spares every header and planned byte; the plan is the same |
| Elf.OrderIrrelevant | bootloader/uefi/elf.c:132-168 | permuting program headers changes neither acceptance nor the planned segments |
| Elf.PlanSound | bootloader/uefi/elf.c:107-130 | a plan's segments are aligned, hold their bytes, and copy from inside the file |
| Loader.LoadSegment | bootloader/uefi/main.c:203-204 | the pages of a segment hold its file bytes and zeros; nothing else changes |
| Loader.ExecutedStep | bootloader/uefi/main.c:192-205 | loading one more segment destroys no earlier one |
| Loader.ExecutePlan | bootloader/uefi/main.c:192-205 | loads the segments up to the first refused one, exactly |
| Loader.LoadKernelElf | bootloader/uefi/main.c:184-207 | memory is touched only for a file whose bytes are acceptable, and then holds its segments and is otherwise unchanged |
| Loader.EntryByteLoaded | bootloader/uefi/elf.c:153-167 | the byte executed first is the file's byte for the entry address |
| MapSpec.PushCanonical | bootloader/uefi/memory_map.c:98-131 | appending a later range keeps the map sorted, disjoint, aligned and merged, and adds one entry at most |
| MapSpec.PushMeans | bootloader/uefi/memory_map.c:98-131 | appending adds exactly the range with its type to the meaning of the map |
| MapSpec.PushBytes | bootloader/uefi/memory_map.c:105-127 | appending adds exactly the bytes of the range |
| MapSpec.CanonicalUnique | bootloader/uefi/memory_map.h:37-39 | canonical maps with the same meaning are identical |
| MapSpec.RestrictionShorter | bootloader/uefi/memory_map.c:122-123 | a part of a canonical map needs no more entries than the whole |
| MemoryMap.TranslatesPlainly | bootloader/uefi/memory_map.c:69-96 | every translation lists, type by type in plain numbers, exactly the addresses of the descriptors of the firmware types that become it |
| MapCount.SizesCountPages | bootloader/uefi/memory_map.c:174-184 | adding up segment sizes counts each page once exactly if no two segments share a page |
| MapCount.CountingIsCoverage | bootloader/uefi/memory_map.c:248-249 | tagged bytes equal expected bytes if and only if segments are disjoint and lie wholly in loader memory |
| MapProgress.EmitStep | bootloader/uefi/memory_map.c:217-245 | emitting the next uniform range keeps meaning, tagged bytes and byte total in step with the scan |
| MapProgress.Finished | bootloader/uefi/memory_map.c:186-246 | when the scan is over, the map means what the firmware map and the plan mean, with equal bytes |
| MemoryMap.ShiftUp | bootloader/uefi/memory_map.c:56-63 | shifts exactly the descriptors above the key one slot up |
| MemoryMap.InsertDescriptor | bootloader/uefi/memory_map.c:52-65 | inserts descriptor i among the sorted ones before it and keeps the multiset and the rest |
| MemoryMap.SortDescriptors | bootloader/uefi/memory_map.c:45-66 | sorts by start address and permutes whole descriptors, extension bytes included |
| MemoryMap.Append | bootloader/uefi/memory_map.c:98-131 | appends, merges, or fails, each under its exact condition |
| MemoryMap.NoCollision | bootloader/uefi/memory_map.c:106-120 | behind a canonical map the overflow errors of append cannot occur |
| MemoryMap.NextSegmentIs | bootloader/uefi/memory_map.c:133-148 | the search finds the lowest segment that meets the range, or none meets it |
| MemoryMap.NextKernelSegment | bootloader/uefi/memory_map.c:136-148 | the scan over unsorted segments computes that search |
| MemoryMap.LoopExits | bootloader/uefi/memory_map.c:217-240 | with room for all it appends, the split loop terminates if and only if no segment crosses the descriptor's upper end |
| MemoryMap.StraddlingHangs | bootloader/uefi/memory_map.c:217-240 | a concrete plan and descriptor for which, with room for all it appends, no number of rounds is enough |
| MemoryMap.SplitRound | bootloader/uefi/memory_map.c:224-238 | one round emits the gap and the kernel part and advances the cursor |
| MemoryMap.SplitLoader | bootloader/uefi/memory_map.c:217-240 | the loop leaves no kernel page of the descriptor untagged, fails for lack of room, or stands at the end before a crossing segment, which no number of rounds leaves |
| MemoryMap.CheckSegments | bootloader/uefi/memory_map.c:172-184 | the plan check computes the expected bytes and accepts exactly the plans whose ranges are sane and add up |
| MemoryMap.ValidateDescriptor | bootloader/uefi/memory_map.c:191-208 | each validity error is returned only for its own defect |
| MemoryMap.TaggedDecides | bootloader/uefi/memory_map.c:248-249 | at the end of the loop the byte comparison decides whether the input is translatable |
| MemoryMap.TranslateSorted | bootloader/uefi/memory_map.c:186-252 | each status of the descriptor loop under its own condition; success exactly on translatable maps, never an output overflow, and at most descriptors + 2 * segments entries |
| MemoryMap.TranslateChecked | bootloader/uefi/memory_map.c:172-252 | on the sorted map: a plan that fails its check is an overflow and makes the input untranslatable; otherwise each status under its own condition |
| MemoryMap.TranslateMemoryMap | bootloader/uefi/memory_map.c:150-253 | success exactly on well laid out translatable inputs; the output is the canonical map of the same meaning and bytes, with every owner type as the number its firmware type becomes; every status, a full output and the hang included, under its own condition on the sorted map; a diagnostic for the first overlap and for nothing else |
| MapTheorems.OrderIndependent | bootloader/uefi/memory_map.c:133-148 | the order of descriptors and of segments changes neither acceptance nor the output |
| MapTheorems.UsableIsFree | bootloader/uefi/memory_map.c:211-246 | what is called usable is conventional memory and no part of the kernel |
| MapTheorems.VerdictUnique | bootloader/uefi/memory_map.c:150-253 | the conditions of the statuses exclude one another, so that each status is returned exactly under its own |
| MapTheorems.NotTooLong | bootloader/uefi/memory_map.c:122-123 | a translation that fits later on fits up to every address before |
| MapTheorems.HangsExactly | bootloader/uefi/memory_map.c:217-240 | the translator hangs if and only if it gets to a descriptor whose upper end a segment crosses and the translation up to there fits |
| MapTheorems.FragmentedKernelHangs | bootloader/uefi/memory_map.c:217-240 | a kernel reported in two loader descriptors meets every demand but the crossing rule; its status is the hang, or a full output if there is no room at all |
| MapTheorems.TranslateFragments | bootloader/uefi/memory_map.c:150-253 | the translator, called on the fragmented kernel, hangs with any output buffer that is not empty |
| Handoff.ComputeSizes | bootloader/uefi/main.c:309-325 | the checked arithmetic yields the exact buffer sizes, and gives up exactly if one does not fit 64 bits |
| Handoff.CapacitySuffices | bootloader/uefi/main.c:309-325 | any map that fits the raw buffer with the same stride needs no more output entries than were reserved |
| Handoff.SizingRound | bootloader/uefi/main.c:305-346 | one round keeps a buffer that was filled, or frees one that was too small or laid out for another stride at its address and size, or ends in exactly the refusal that the reason names |
| Handoff.SizeBuffers | bootloader/uefi/main.c:298-346 | the whole trace: the query, discarded rounds each sized by the answer before and freed once, and the round that is kept or, for each reason, the one that fails; the pages of a kept buffer hold the raw map and all entries of 24 bytes, and are no more than needed |
| Handoff.TranslateReply | bootloader/uefi/main.c:367-371 | a fetched map is translated exactly if it is usable, else the status is what the translator's conditions make of it |
| Handoff.LeaveFirmware | bootloader/uefi/main.c:358-398 | the whole trace: refused pairs of a usable map and its key, at most four exits, then entry with the last map, or the last answer being why it stops; no pages allocated or freed; the output buffer is full only after a change of stride or with a crossing segment |
| Handoff.Handoff | bootloader/uefi/main.c:272-398 | the whole trace from the first allocation on, for every outcome: which calls were made, with which sizes, and which answer the loader stopped at; each discarded buffer freed once; every entry handed over lies behind the raw map inside the allocated pages |
| Handoff.ReasonUnique | bootloader/uefi/main.c:272-346 | the trace of a loader that stops without a buffer tells the reason |
| Bits.SetOne | kernel/mm/pmm.c:25-25 | setting a bit changes that bit only |
| Bits.ClearOne | kernel/mm/pmm.c:26-26 | clearing a bit changes that bit only |
| Bits.FullByte | kernel/mm/pmm.c:124-124 | all bits of the byte that the skip tests for are set |
| Bits.BitValues | kernel/mm/pmm.c:25-27 | bit 0 of a bitmap byte is the lowest |
| PmmSpec.NextFitExact | kernel/mm/pmm.c:116-136 | next fit returns the nearest free page in cyclic order, or nothing if there is none |
| PmmSpec.ExhaustedExact | kernel/mm/pmm.c:135-135 | next fit fails exactly when no page is free |
| PmmSpec.RunAccounted | kernel/mm/pmm.c:116-149 | over every disciplined run free and held pages make up a fixed pool, no page is held twice, and refusal means the whole pool is held |
| PmmSpec.UndisciplinedFree | kernel/mm/pmm.c:138-149 | a release keeps the accounting if and only if the page was held |
| PmmSpec.BatchReturns | kernel/mm/pmm.c:200-201 | giving back the first page of a batch leaves a batch |
| PmmSpec.BatchDrops | kernel/mm/pmm.c:138-149 | giving back any page of a batch leaves a batch |
| Pmm.PageAllocator.SkipIsSafe | kernel/mm/pmm.c:123-128 | the byte skip, wrapping at any page count, passes over used pages only |
| Pmm.PageAllocator.AllocPage | kernel/mm/pmm.c:116-136 | from a sound state exactly next fit with 0 for none free; from an unsound one the address behind the last page; never an address below 1 MiB |
| Pmm.PageAllocator.FreePage | kernel/mm/pmm.c:138-149 | each panic under its exact condition, else exactly that page becomes free |
| Pmm.PageAllocator.SelfTest | kernel/mm/pmm.c:169-214 | from any state that pmm_init can leave and whatever memory does: passes exactly if the state is sound, 512 pages are free and each page taken keeps its pattern, and then restores the allocator; otherwise fails or panics, each under its exact condition, and keeps what it took |
| Pmm.PageAllocator.CheckBatch | kernel/mm/pmm.c:184-197 | on distinct addresses the uniqueness check cannot fail, and the checks pass exactly if every address keeps its pattern |
| Pmm.PageAllocator.TakeBatch | kernel/mm/pmm.c:174-180 | takes distinct free pages until the batch is full or none is left; an unsound state puts the address behind the last page in front |
| Pmm.PageAllocator.ReturnBatch | kernel/mm/pmm.c:200-201 | giving a batch back restores the free pages, unless its first address is no page, which panics |
| Pmm.PageAllocator.FreeUsable | kernel/mm/pmm.c:86-97 | frees exactly the usable pages except page 0 and counts them |
| Pmm.PageAllocator.ReserveBitmap | kernel/mm/pmm.c:102-113 | withholds exactly the bitmap's pages and the low 1 MiB |
| Pmm.PageAllocator.Init | kernel/mm/pmm.c:29-114 | from any canonical boot map: each panic under its exact condition, else counters and cursor as specified, the bitmap at the lowest usable address from 1 MiB on that has room for it, and free exactly the usable pages from 1 MiB on outside it |
| Pmm.Extent | kernel/mm/pmm.c:39-51 | end of usable memory and the three byte counts, without overflow |
| Pmm.ClassesAddUp | kernel/mm/pmm.c:42-50 | the three byte counts account for the whole map |
| Pmm.Place | kernel/mm/pmm.c:58-77 | the bitmap goes to the first usable region that holds it above 1 MiB |
| Pmm.PlaceInside | kernel/mm/pmm.c:102-107 | the bitmap's pages are tracked, usable and above 1 MiB |
| Pmm.FirstIsLowest | kernel/mm/pmm.c:58-77 | the place in the first entry with room is the lowest address from 1 MiB on with room |
| PmmExamples.UnsoundBoot | kernel/mm/pmm.c:113-134 | initialization on a boot map and one allocation, which returns a page that is no memory |
| PmmExamples.LowMemoryBoot | kernel/mm/pmm.c:66-72 | a boot map with usable low memory: the bitmap goes to 1 MiB and the first page is the one behind it |
| PmmExamples.SelfTestLeaks | kernel/mm/pmm.c:175-181 | initialization on a boot map with two free pages, the failing self-test, and an allocation that finds none |
| PmmExamples.BitmapHandedOut | kernel/mm/pmm.c:138-149 | initialization, release of the bitmap's page, and the allocations that hand it out |
| Pmm.PageAllocator.Grant | kernel/mm/pmm.c:116-136 | one more distinct page of the pool is held, or the pool is exhausted |
| Pmm.PageAllocator.TakeBack | kernel/mm/pmm.c:138-149 | a held page is free again and the others stay held |
| Ownership.UsablePageIsFree | bootloader/uefi/memory_map.c:211-246 | a page is usable if and only if all its bytes are conventional memory outside the kernel image |
| Ownership.PagesAreOurs | kernel/mm/pmm.c:82-136 | over all runs from a sound state, every page handed out is conventional memory, outside the kernel and the bitmap, above 1 MiB, and held by nobody |
| Ownership.FirstPage | kernel/mm/pmm.c:113-136 | the first page returned after initialization is memory if and only if the state is sound |
| Ownership.Serve | kernel/mm/pmm.c:116-149 | the same for any sequence of requests on the bitmap allocator itself |
| Ownership.Boot | bootloader/uefi/main.c:263-398 | loading, handing over and initializing fit together: the bytes of the file are acceptable, the image is in memory with the file's byte at the entry address, and a started allocator was built from the translation of the last map |
| Reloc.AddSignedOk | bootloader/uefi/reloc.c:28-38 | base plus a signed addend exactly if the sum fits 64 bits, the least addend included |
| Reloc.ScanDynamic | bootloader/uefi/reloc.c:53-77 | the loop computes the collected tags without leaving the image |
| RelocTheorems.ScanExact | bootloader/uefi/reloc.c:53-77 | the scan is terminated exactly if an entry is DT_NULL, and keeps for each tag the value of its last occurrence before the first of these, or the default |
| Reloc.ApplyEntry | bootloader/uefi/reloc.c:91-105 | writes the entry's word exactly if the entry may be applied, and changes nothing otherwise |
| Reloc.ApplyTable | bootloader/uefi/reloc.c:88-106 | applies the entries as the image then reads, even if they overwrite the table |
| Reloc.SypasReloc | bootloader/uefi/reloc.c:40-107 | for any bytes, success and resulting image as specified, every access inside the image |
| Patches.PatchAllValue | bootloader/uefi/reloc.c:90-105 | the last of a series of writes that hits a byte determines it |
| Patches.PatchAllAgrees | bootloader/uefi/reloc.c:90-105 | images that differ only where the series writes end up equal |
| RelocTheorems.RelocatedIsFold | bootloader/uefi/reloc.c:88-106 | if no target hits the tables, relocation is the fold of the writes the table lists beforehand |
| RelocTheorems.RelocationSucceeds | bootloader/uefi/reloc.c:94-104 | it succeeds exactly if every entry may be applied |
| RelocTheorems.RelocationEffect | bootloader/uefi/reloc.c:88-106 | target bytes are those of the last entry that hits them, and all others are unchanged |
| RelocTheorems.RelocatedWord | bootloader/uefi/reloc.c:102-105 | an entry that no later one touches leaves base + addend (R_X86_64_RELATIVE, psABI section 4.4.1) |
| RelocTheorems.TablesKept | bootloader/uefi/reloc.c:88-106 | dynamic table and relocation table survive, even a relocation that fails half-way |
| RelocTheorems.Rebase | bootloader/uefi/reloc.c:40-107 | relocating again at another base equals relocating the original there; at the same base it changes nothing |
| RelocBytes.RelocatedBytes | bootloader/uefi/reloc.c:88-106 | on bytes, for a table that no entry aims at: success exactly if every entry has type 8, aims inside the image and has a 64-bit sum; then the words of the entries, and all other bytes as before |
| RelocBytes.NothingApplied | bootloader/uefi/reloc.c:79-85 | without a table nothing is changed, and half a table, a table outside the image or entries of another size are refused |
| RelocBytes.Unterminated | bootloader/uefi/reloc.c:53-80 | an image without a tag 0 is refused as it is |
| RelocBytes.NotInside | bootloader/uefi/reloc.c:43-51 | a dynamic table outside the image, or an image that reaches the end of the address space, is refused as it is |
| RelocBytes.SignedWraps | bootloader/uefi/reloc.c:28-38 | an addend is the two's complement reading of its 64 bits |
| FatNames.Name83 | tools/mkfat.py:47-55 | a packed name has eleven ASCII bytes |
| FatNames.ShownName | tests/media/validate_media.py:86-89 | what the validator reads from a packed name |
| FatNames.NameRoundTrip | tools/mkfat.py:47-55 | packing and unpacking give the name back if and only if it is canonical |
| FatTree.InsertLookup | tools/mkfat.py:100-107 | inserting replaces what is at and below the path and nothing else, and does nothing below a file |
| FatTree.TreeHolds | tools/mkfat.py:98-107 | for consistent destinations the tree holds exactly the listed files |
| FatTree.TreeFrom | tools/mkfat.py:98-107 | for any list, every file of the tree is in the list |
| FatTree.TreeDistinct | tools/mkfat.py:105-107 | names differ within every directory |
| FatOrder.TreeOrdered | tools/mkfat.py:98-107 | in the tree of a consistent list every directory lists its names in the order in which they first occur in the list |
| FatTree.PartsOfJoin | tools/mkfat.py:102-102 | splitting a path's text gives the path back |
| FatTree.JoinInjective | tests/media/validate_media.py:157-157 | different paths have different texts |
| FatTree.SlashedParts | tools/mkfat.py:102-102 | a path is its names, each behind code 47, and splitting that text gives them back |
| FatLayout.AssignedLaidOut | tools/mkfat.py:117-129 | assignment gives every node its clusters, consecutively in preorder |
| FatLayout.AssignedSame | tools/mkfat.py:117-129 | assignment changes nothing but clusters |
| FatTheorems.RangesApart | tools/mkfat.py:109-131 | the cluster ranges of all nodes lie in the forest's range and do not overlap |
| FatWriter.SizeFat | tools/mkfat.py:83-95 | at most two rounds; the FAT covers every cluster; an accepted size gives a consistent geometry |
| FatWriter.Assign | tools/mkfat.py:117-129 | the recursion with its counter computes the assignment |
| FatWriter.ChainAll | tools/mkfat.py:138-149 | links every node's clusters and no other entry |
| FatWriter.LinksFit | tools/mkfat.py:167-167 | every FAT entry fits its 16 bits |
| FatWriter.FillFat | tools/mkfat.py:134-149 | the complete table |
| FatWriter.WriteSlice | tools/mkfat.py:170-197 | a slice assignment inside the image, which keeps its length |
| FatWriter.RenderAll | tools/mkfat.py:175-197 | writes exactly the clusters of a forest, if all names below fit 8.3 |
| FatWriter.MakeTree | tools/mkfat.py:99-107 | builds the tree, or finds a destination without a name |
| FatWriter.Assemble | tools/mkfat.py:151-199 | every byte of the image as laid out, or a name that does not fit, or a full root directory |
| FatWriter.Build | tools/mkfat.py:80-202 | accepts exactly under the stated condition, each refusal under its own, and the image is the volume of the tree |
| FatBytes.BuiltBytes | tools/mkfat.py:80-202 | every byte of a built image by literal offsets and numbers: parameter block, reserved sectors, both FATs, entries with attributes 0x20 and 0x10, time stamps, clusters and sizes, contents, and zeros elsewhere; and along the path of every file the entries lead to its contents |
| FatBytes.NamePacked | tools/mkfat.py:47-55 | the packed name is the upper-case name in 8 and 3 bytes, divided at its last dot and filled up with blanks |
| FatBytes.Attributes | tools/mkfat.py:43-44 | no entry is read-only, hidden, a system file or a volume label; files are archive entries and directories directories |
| FatTheorems.VolumeUnique | tools/mkfat.py:151-199 | the image is determined by geometry, tree and time stamp, and its two FATs are equal |
| FatReader.FollowExact | tests/media/validate_media.py:126-143 | for any bytes, a chain is accepted exactly if it ends, and its clusters are returned in order |
| FatReader.ChainDistinct | tests/media/validate_media.py:132-135 | a chain that ends visits no cluster twice, so the visited set rejects only endless ones |
| FatReader.ReadChain | tests/media/validate_media.py:126-143 | the loop computes the chain's bytes or the defect |
| FatReader.Walker.ReadEntries | tests/media/validate_media.py:147-165 | the walk fills the dictionary as specified or reports the defect |
| FatReader.Fat16Files | tests/media/validate_media.py:92-168 | the validator as a function of the image |
| FatReading.OpenPlainly | tests/media/validate_media.py:92-119 | which boot sectors are refused, for which demand they fail first, and where the regions begin |
| FatReading.ChainPlainly | tests/media/validate_media.py:121-143 | a chain goes by the 16-bit words of the FAT up to a word from 0xFFF8 on |
| FatReading.SlotPlainly | tests/media/validate_media.py:149-164 | free and long-name entries and dot names are passed over; names, attribute bit 4, cluster and size of all other entries |
| FatReading.SpellsOnce | tests/media/validate_media.py:86-89 | the bytes of an entry spell one name |
| FatRoundTrip.RunIsChain | tools/mkfat.py:138-144 | the links of a node form a chain through its clusters that ends |
| FatRoundTrip.ReadRun | tests/media/validate_media.py:126-143 | a stored node is read back whole |
| FatRoundTrip.ReadEntry | tests/media/validate_media.py:149-164 | any written entry is skipped for the names . and .. and otherwise read with the name as shown |
| FatRoundTrip.EntryExact | tests/media/validate_media.py:149-164 | an entry does not end its directory and is read as its node if and only if its name is visible |
| FatRoundTrip.SkipDots | tests/media/validate_media.py:155-156 | the entries for the directory itself and its parent are skipped |
| FatRoundTrip.ReadForest | tests/media/validate_media.py:147-165 | reading a stored directory is walking its nodes, whatever their names |
| FatRoundTrip.WalkCollects | tests/media/validate_media.py:147-165 | with visible names the walk collects exactly the files below |
| FatTheorems.Opened | tests/media/validate_media.py:94-119 | the validator finds the regions where the builder put them |
| FatTheorems.VolumeFiles | tests/media/validate_media.py:167-168 | the validator's result on a built volume is the walk of its tree |
| FatTheorems.TreeRoundTrip | tools/mkfat.py:80-202 | reading a built image yields exactly the files of the tree, for any list of destinations with showable names |
| FatTheorems.RoundTrip | tools/mkfat.py:80-202 | for consistent destinations with visible names the validator returns exactly the list that was built |
| FatExact.WalkOrigin | tests/media/validate_media.py:147-165 | every path in the dictionary is the showing of a file that the walk gets to |
| FatExact.NoneShorter | tests/media/validate_media.py:157-164 | if showing shortens or drops paths and yet every path is the showing of one, then none is shortened or dropped |
| FatExact.FitExact | tools/mkfat.py:47-54 | for consistent destinations the builder's test of the tree's names is a test of the names in the list |
| FatExact.ReturnedConsistent | tools/mkfat.py:98-107 | a list that comes back whole has no destination below another and none twice with different contents |
| FatExact.RoundTripExact | tools/mkfat.py:80-202 | for any list that the builder accepts, the validator returns exactly the list if and only if it is consistent, names are visible, depth is in bounds and paths are written with single slashes |
| FatExamples.DotLost | tests/media/validate_media.py:155-156 | a built volume whose file . is lost |
| FatExamples.RestLost | tests/media/validate_media.py:150-151 | a built volume with a NUL name, from which no file comes back |
| Raster.AtInjective | kernel/graphics/fbcon.c:48-48 | with a pitch no shorter than the line, no two pixels share a word |
| Raster.BlitPx | kernel/graphics/fbcon.c:45-52 | copying a bitmap row by row changes exactly the pixels of its rectangle |
| Raster.MovedPx | kernel/graphics/fbcon.c:77-82 | moving scanlines shows the pixels from below and leaves the rest |
| TextGrid.PrintStep | kernel/graphics/fbcon.c:125-136 | one more character, with wrap and scroll, shows the tail of the longer text |
| TextGrid.PrintingShowsTail | kernel/graphics/fbcon.c:115-137 | on a cleared screen printing always leaves the last lines of the text |
| TextGrid.WindowStep | kernel/graphics/fbcon.c:115-137 | one character on the grid, scrolling included, is one character on endless paper seen through a window |
| TextGrid.ScreenIsWindow | kernel/graphics/fbcon.c:109-137 | any run of characters, control characters and colours shows the last lines of what it writes on endless paper |
| TextGrid.LinesShown | kernel/graphics/fbcon.c:115-137 | printing lines shorter than the screen, each ended by a newline, leaves the last of them above an empty line |
| TextGrid.ControlCodes | kernel/graphics/fbcon.c:120-131 | code 13 goes back to the start of the line, 10 to the start of the next, and other codes below 32 do nothing |
| TextGrid.Overwritten | kernel/graphics/fbcon.c:123-124 | what is printed behind a carriage return replaces the start of the line and nothing behind it |
| Fbcon.SwizzleTwice | kernel/graphics/fbcon.c:36-43 | swapping red and blue twice gives the colour back without its unused byte |
| Fbcon.BlitCell | kernel/graphics/fbcon.c:54-72 | drawing into one cell shows there and disturbs no other cell |
| Fbcon.ScrollShows | kernel/graphics/fbcon.c:74-84 | copy and fill show the scrolled grid |
| Fbcon.ClearShows | kernel/graphics/fbcon.c:104-104 | filling the screen shows a cleared grid |
| Fbcon.FillRect | kernel/graphics/fbcon.c:45-52 | fills exactly the rectangle, inside the buffer |
| Fbcon.DrawGlyph | kernel/graphics/fbcon.c:54-72 | draws the doubled glyph at its cell |
| Fbcon.MoveUp | kernel/graphics/fbcon.c:78-82 | the overlapping ascending copy reads every pixel before it is overwritten |
| Fbcon.Scroll | kernel/graphics/fbcon.c:74-84 | the pixels after a scroll |
| Fbcon.Console.Init | kernel/graphics/fbcon.c:86-107 | accepts exactly the usable framebuffers, clears the screen and homes the cursor, else changes nothing |
| Fbcon.Console.SetColors | kernel/graphics/fbcon.c:109-113 | changes the colours of what comes next only |
| Fbcon.Console.PutChar | kernel/graphics/fbcon.c:115-137 | the text changes by one character and every cell's pixels keep showing the text |
| Fbcon.Console.Play | kernel/graphics/fbcon.c:109-137 | the same for any run of characters and colour changes |
| ScreenPixels.ConsoleShows | kernel/graphics/fbcon.c:33-72 | pixel by pixel: cells of 16 by 16 pixels 8 from the edges, a bit of the font for two by two pixels with the lowest leftmost, foreground where set, in the byte order of the format |
| ScreenPixels.NativeStores | kernel/graphics/fbcon.c:33-43 | format 2 keeps red in the lowest byte and blue in the third, the other format the colour as it is |

## Left out

- MemoryMap.TranslateMemoryMap: the endless loop is a status `Diverges` of the model; a null
  diagnostic pointer is not modelled, and the four pointer tests are one parameter.
- MemoryMap.SortDescriptors: moves whole descriptors; that the byte copies move a stride of bytes is
  the `extension` field, not memory.
- Handoff.Handoff: the file reader, the framebuffer and ACPI queries, the watchdog, pool memory and
  the contents of the boot-information page other than the map; printing and stalling are one event.
- Handoff.LeaveFirmware: what the firmware writes after the last successful call is not modelled, and
  a firmware that overruns the buffer it was given is excluded.
- Loader.ExecutePlan: AllocatePages is a parameter that grants or refuses each segment.
- Ownership.Boot: the page requests of the segments are that parameter and not events of the trace.
- Pmm.PageAllocator.Init: the bitmap is an array of its own, so that it lies in the memory it
  describes shows only in its reserved pages; RAM behind it is one byte.
- Pmm.PageAllocator.SelfTest: cycle counts are left out. The written pattern is any function of the
  address, what an address reads back is a parameter, and a write does not show at other addresses.
- Reloc.SypasReloc: the image is an array indexed from its base; code that runs while its own image
  is being rewritten is not modelled.
- FatTree.InsertLookup: nodes are values, not objects that are updated through references; names
  outside ASCII are refused, although Python may fold a few of them into ASCII.
- FatWriter.Build: reading the source files, the command line, the output file and the summary line;
  the time stamp is a parameter.
- FatReader.Fat16Files: Python's recursion limit is the parameter that bounds directory nesting; the
  ISO9660 and El Torito checks in the same file are not modelled.
- Fbcon.Console.Init: that scanlines are as long as the width and the buffer as large as the height
  says is required of the caller; the source trusts the firmware for it.
- Fbcon.Console.PutChar: pixels outside the cells, which keep whatever colour they had.
- Serial port, timer, interrupt and descriptor tables, CPUID, panic output, kprintf and assembly
  stubs: their meaning lies in devices that are not shown.
- `tools/mkiso.py`, the build scripts and the status-string functions: thin, or easy members only.
