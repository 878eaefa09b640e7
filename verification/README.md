# Boot path and kernel tree verification

This project models the code that runs between the UEFI firmware and the kernel: the boot loader's paging handoff, its
kernel layout arithmetic and number formatters, and the algorithmic parts of the vendored gnu-efi library. From the kernel it
models the AVL tree behind its virtual memory regions. It proves what these promise for every input. Everything is plain
Dafny 4.11; `dafny verify dfyconfig.toml` checks the whole project.

Code that changes things in place is a method or a class here, proved against a function on values; the lemmas then say
what that function means. Memory is an array of words or bytes, machine words are integers below 2^64 with wrap-around
written out, and a table, descriptor slot or device-path node is a range of that memory.

- **Paging handoff** (`Machine`, `Arithmetic`, `PageTables`, `Paging`, `Runs`, `Budget`, `PageStack`, `Bytes`, `MapSlots`,
  `MemoryMap`, `MapSplit`, `Handoff`, `HandoffTheorems`). The 4-level tables (Intel SDM Vol. 3A, section 4.5) are a tree in physical memory that
  represents a finite map. `mapPages` refines the update of that map, over any run, with the pages taken counted exactly;
  the budget the loader's comment asks for is proved sufficient; the whole handoff translates every requested page to its
  own frame exactly when no pages of different shifts meet and no frames of one shift alias. In the firmware's own terms, every
  page of the memory map, the loader's page and the framebuffer's whole pages can be written at the addresses meant, and every
  other address faults. The memory map is bytes: what the final split stores where is
  stated to the byte, and the descriptor set aside for paging is exactly the tables, unless it is in slot 1.
- **CRC** (`Crc`, `CrcDetection`, `CrcHeader`). The table-driven loop is the bitwise reflected CRC-32, no burst of up to
  32 bits goes unnoticed, and a message followed by its own CRC leaves one constant.
- **Wildcards** (`Glob`). `MetaMatch` is exact against a declarative meaning for every text and every pattern, including
  patterns that make it read past their end.
- **Device paths** (`DevicePaths`, `DevicePathOps`, `DevicePathAppend`, `DevicePathUnpack`). Byte-level operations against
  lists of nodes and instances.
- **Printing** (`Characters`, `Format`, `PrintTargets`, `Printer`, `Numerals`, `BootNumerals`). Format strings are taken apart
  as documented, each letter prints its argument, and they are read past their end exactly when a directive is open there. The 200-slot buffer with either
  output function refines plain appending; numerals are read back as what was written.
- **Protocols** (`Protocols`, `ProtocolInstall`, `ProtocolReinstall`). Multi-interface install and reinstall are
  transactions that fail only when the firmware must or does refuse a call, with the exact limits of the forward-order undo.
- **Relocation** (`Relocate`). The loops of the x86-64 and AArch64 self-relocators, down to the bytes of the table, and when they agree.
- **Kernel layout** (`KernelLayout`). Sizes, page rounding and placement of the per-CPU areas, with the exact condition
  under which the layout fits its allocation.

- **AVL tree** (`AvlTrees`, `AvlBalance`, `AvlMemory`, `AvlOrder`, `AvlTree`). The nonrecursive tree with parent pointers that
  share a word with the balance factors. Insertion and removal change the in-order sequence by exactly the node, keep every
  pointer, balance factor and height bound, and write to no other node; searching, inserting and iterating are exact for
  every comparison, the kernel's overlapping regions included. A tree in memory is a mathematical tree in the hole of a
  context, and every pointer operation is a step on the two.

## Where code and documentation part

The model follows the code. Each of these has a lemma with the exact condition.

- The `AppendDevicePath` comment promises the second path behind every instance of the first; the end marker of the second
  path ends the result after the first instance, and the allocation is too small when the first path has several instances
  and the second is longer (`PromiseKeptIff`, `WrittenFitsIff`).
- The slot macro does not parenthesise its index, so `i - 1` and `indexInMap+1` in `finalizeMemoryMap` name bytes far from
  the slots meant (`SlotBeforeIff`, `SlotBehindIff`). Slots behind the chosen one are filled from bytes near and in front of
  slot 0 (`ShiftedIn`, `OtherSlot`), the remainder lands in or behind slot 1 (`RemainderWritten`), over the paging
  descriptor itself if that is in slot 1 (`PagingSlotIff`, `PagesInSlotOne`). The map becomes the split only for contents
  that hide all this (`BecomesSplitIff`); of any map and the same map with another attribute in the chosen slot, at least
  one does not (`NoMapIsSafe`).
- `finalizeMemoryMap` adds 1, not one entry size, to the used size (`SplitSeenIff`); the two `bl_rip` fields hold the next
  free page and a negated count (`RipTablesStartIff`, `RipTablesSizeIff`); the region search starts from slot 0 whatever its
  type (`BiggestUsableIff`); a zone at physical address 0 is never cleared (`RootClearedIff`); the last part of a page of
  the framebuffer is not mapped (`FramebufferCoveredIff`).
- `loadKernel` rounds pages by the low bits of a size that is already in pages (`PagesCoverIff`, `LayoutFitsIff`).
- The formatter prints unsigned 64-bit numbers from 2^63 on as negative ones (`UnsignedIff`), and in formats for strings takes
  what follows an attribute letter as part of its directive (`AttributeLetters`).
- The `-` flag of the formatter does not justify to the left within a width, only within a field width
  (`LeftJustifiedIff`).
- `LibReinstallProtocolInterfaces` hands the firmware the address of the handle variable; its undo loses interfaces when a
  protocol occurs twice (`ActsAsMeantIff`, `RestoresIff`, `RestoresIffDistinct`).
- The binary formatter of the boot loader prints zeros from 2^63 on (`FormatbIff`), and the decimal one guards slots for
  the digits but not for the sign and the terminator (`FormatdOverrunsIff`).
- The kernel compares its memory regions as if their page counts were byte counts, so that regions with common pages are
  accepted into one tree (`OverlapUnseenIff`).
- `log2ui` counts one bit too many for a logarithm, so that the buddy allocator takes every block for one of the next level
  and computes an address behind its region for each (`GetLevelIs`, `AddressOutside`).
- `UnpackDevicePath` leaves a zero length field for nodes of more than 0xfffc bytes (`UnpackedReadable`).

## Model

| member | source | states |
|---|---|---|
| `Paging.MapPageRefines` | projects/bootloader/source/exitloader.c:466-501 | on any well-formed table tree, with more pages on the stack than tables missing (never more than three), one mapPages call leaves tables that represent the old map with just that page remapped, takes exactly the missing tables' pages and meets no NULL; with fewer pages allocatePage returns NULL |
| `Paging.MapPageTranslates` | projects/bootloader/source/exitloader.c:466-501 | with four pages left, the 4-level walk gives the new frame for every address of the mapped page and its old result for every other address; the page can be written, and what does not translate faults |
| `Paging.DescendToTree` | projects/bootloader/source/exitloader.c:485-496 | after each round of the loop the tables are again a tree: distinct frames inside the zone, the root never a target, every page handed out reachable, the leaves unchanged |
| `Paging.DescendToExhausts` | projects/bootloader/source/exitloader.c:485-496 | with too few pages some round meets the NULL of allocatePage |
| `Paging.EmptyTree` | projects/bootloader/source/exitloader.c:184 | in a zone above address 0 the freshly cleared PML4 is the tree of the empty map, whatever memory held before |
| `Paging.RootClearedIff` | projects/bootloader/source/exitloader.c:368-376 | for any number of pages, the new PML4 translates nothing whatever memory held before exactly when the free pages do not start at address 0; there it keeps what memory held |
| `Paging.AllocateZeroed` | projects/bootloader/source/exitloader.c:350-376 | next free page plus pages left never changes, and the last page is never handed out |
| `PageTables.LinkWalk` | projects/bootloader/source/exitloader.c:488-495 | linking a cleared frame that no table uses into a non-present entry adds one node to the walk and changes nothing else |
| `PageTables.LeafWalk` | projects/bootloader/source/exitloader.c:499 | writing a leaf entry changes the walk at that page and nowhere else |
| `PageTables.EveryPageUsed` | projects/bootloader/source/exitloader.c:350-376 | every page handed out holds a table that the walk reaches |
| `PageTables.Entry` | projects/bootloader/source/exitloader.c:494 | an entry yields back the 40-bit frame that was put in; it is present and writable, and all its other bits are clear |
| `PageTables.WalkReads` | projects/bootloader/source/exitloader.c:479-499 | the walk is what a processor does with the four words at 8 times each 9-bit index in the tables that they point to |
| `PageTables.PlainWritable` | projects/bootloader/source/exitloader.c:491-499 | in every tree that the loader builds, an address either meets a word that is not present, or four words with just bits 0 and 1 and a frame, of which the last names the frame |
| `Paging.LinkTree` | projects/bootloader/source/exitloader.c:488-495 | a linked table keeps the tree a tree, and all its present words plain |
| `Paging.LeafTree` | projects/bootloader/source/exitloader.c:499 | so does a leaf |
| `PageStacks.PageStack.AllocatePage` | projects/bootloader/source/exitloader.c:350-365 | hands out consecutive pages, keeps the last one and returns NULL instead |
| `PageStacks.PageStack.AllocatePageAndZero` | projects/bootloader/source/exitloader.c:368-376 | in place: the state function above, with exactly the new page cleared unless it is at address 0 |
| `PageStacks.MapPages` | projects/bootloader/source/exitloader.c:466-501 | in place: shifts, masks, loop and stores leave memory and page stack as the state function says |
| `PageStacks.EnterTable` | projects/bootloader/source/exitloader.c:485-496 | one round of that loop |
| `PageStacks.IndicesOfPage` | projects/bootloader/source/exitloader.c:479-482 | the four indices cut out by shifting and masking are the base-512 digits of bits 12..47 |
| `Runs.MapAllRefines` | projects/bootloader/source/exitloader.c:379-447 | any run of mapPages refines the run of map updates, takes exactly one page per 9-, 18- or 27-bit prefix not seen before, and meets NULL if and only if the stack has not one page more than that |
| `Runs.LastWriterWins` | projects/bootloader/source/exitloader.c:499 | the last request for a page decides its frame |
| `Runs.OverwriteUntouched` | projects/bootloader/source/exitloader.c:499 | a page that no request names keeps its translation |
| `Runs.HonouredIffNoConflict` | projects/bootloader/source/exitloader.c:379-447 | every request of a run is honoured in the end exactly when no two requests give one page different frames |
| `Budget.LevelOfRange` | projects/bootloader/source/exitloader.c:400-407 | n contiguous pages touch at most floor((n + s - 2) / s) + 1 tables of a depth whose entries span s pages, across any wrap-around |
| `Budget.RangeNeed` | projects/bootloader/source/exitloader.c:400-407 | a contiguous range adds at most the sum of these bounds to any map |
| `Budget.BudgetSuffices` | projects/bootloader/source/exitloader.c:125-129 | the sum over all ranges bounds the tables any list of ranges needs |
| `MemoryMaps.MemoryMap.FixVirtualAddresses` | projects/bootloader/source/exitloader.c:255-275 | the bytes afterwards: every used slot's virtual address stored anew, nothing else changed |
| `MapSlots.RebasedSlots` | projects/bootloader/source/exitloader.c:255-275 | these bytes hold the rebased descriptors: runtime services at themselves, everything else moved by the offset |
| `MemoryMaps.MemoryMap.FindBiggestUsableMemoryRegion` | projects/bootloader/source/exitloader.c:278-307 | the region found is at least as large as every usable one, with ties and slot 0 resolved as the loop does |
| `MemoryMaps.BiggestUnique` | projects/bootloader/source/exitloader.c:278-307 | that description has one answer |
| `MemoryMaps.BiggestUsableIff` | projects/bootloader/source/exitloader.c:284-300 | the region is conventional or boot-services memory exactly when slot 0 is, or some such region is larger than slot 0 |
| `MemoryMaps.MemoryMap.ShiftRight` | projects/bootloader/source/exitloader.c:324-329 | the loop with the macro as it expands: each slot from the last down receives the bytes at its index minus the entry size |
| `MemoryMaps.MemoryMap.FinalizeMemoryMap` | projects/bootloader/source/exitloader.c:310-347 | the memory map's bytes after the loop and the stores through both descriptor pointers, in order; the two bookkeeping fields as written |
| `MapSlots.SplitConserves` | projects/bootloader/source/exitloader.c:120-123 | the split that is meant: two adjacent, disjoint parts that together are the old region; total pages and all other descriptors kept |
| `MapSlots.SlotBeforeIff` | projects/bootloader/source/exitloader.c:12-13 | with the argument `i - 1` the macro names the slot in front exactly for one-byte entries, and a place in front of the map exactly for an index below the entry size |
| `MapSlots.SlotBehindIff` | projects/bootloader/source/exitloader.c:12-13 | with the argument `k+1` it names the slot behind exactly for slot 0 or one-byte entries |
| `MapSplit.ShiftedIn` | projects/bootloader/source/exitloader.c:324-329 | byte by byte, every slot behind the chosen one receives the original bytes at its index minus the entry size |
| `MapSplit.PagingSlotIff` | projects/bootloader/source/exitloader.c:332-334 | for every content of the map, the chosen slot becomes the paging descriptor exactly when it is not slot 1 |
| `MapSplit.PagesInSlotOne` | projects/bootloader/source/exitloader.c:332-341 | in slot 1 its page count is made of the top byte of the remainder's virtual address and the low bytes of the remainder's page count |
| `MapSplit.RemainderWritten` | projects/bootloader/source/exitloader.c:337-341 | at the place where it is written, always, the remainder's type, range, virtual address and page count are those meant |
| `MapSplit.OtherSlot` | projects/bootloader/source/exitloader.c:324-341 | every later slot ends as the descriptor that the bytes at its index minus the entry size happened to spell |
| `MapSplit.BecomesSplitIff` | projects/bootloader/source/exitloader.c:310-347 | the map becomes the split exactly for contents in which no slot is harmed, slot by slot in terms of the bytes before the call |
| `MapSplit.StandsIff` | projects/bootloader/source/exitloader.c:337-341 | a slot in front is not harmed exactly when the remainder's bytes that fall into its fields stand there already |
| `MapSplit.NoMapIsSafe` | projects/bootloader/source/exitloader.c:310-347 | for every layout, firmware map and chosen slot, the map or the same map with any other attribute in that slot does not become the split |
| `MemoryMaps.SplitSeenIff` | projects/bootloader/source/exitloader.c:343 | a reader that divides the used size by the entry size sees the new descriptor exactly when entries are one byte |
| `Handoff.MapMemoryMapToVirtualMemory` | projects/bootloader/source/exitloader.c:379-411 | the nested loops are the run of requests for every page of every descriptor, from its physical address to its virtual one, with wrap-around |
| `Handoff.MapFramebufferToVirtualMemory` | projects/bootloader/source/exitloader.c:414-447 | the loop is the run of the framebuffer's whole pages |
| `Handoff.MapAddressSpace` | projects/bootloader/source/exitloader.c:187-203 | memory map, loader page on a copied stack, and framebuffer are one run; what the two bl_rip fields receive |
| `Handoff.RipTablesSizeIff` | projects/bootloader/source/exitloader.c:194 | the 16-bit size field is the negated number of tables, right only when there are none |
| `Handoff.EnablePaging` | projects/bootloader/source/exitloader.c:172-232 | the whole sequence in place: final memory, the final bytes of the memory map, its address moved by the offset and its used size plus one, and every field of the result, both bl_rip table fields included, as functions of what the firmware handed over |
| `HandoffTheorems.BuildTablesRefines` | projects/bootloader/source/exitloader.c:179-203 | from memory with any content and a region above address 0, allocation fails exactly when the region has no more pages than tables needed; otherwise the tables represent all requests folded in order and exactly that many pages are gone |
| `HandoffTheorems.BudgetPreventsExhaustion` | projects/bootloader/source/exitloader.c:125-129 | the check that the comment asks for: a region above one plus the budget never runs out |
| `HandoffTheorems.ConflictIffShiftsMeet` | projects/bootloader/source/exitloader.c:255-275 | for any ranges, requests disagree about a page exactly when pages of ranges with different shifts meet or two frames of one shift agree in their low 36 bits |
| `HandoffTheorems.ShiftedPage` | projects/bootloader/source/exitloader.c:396-407 | any page of any range has its frame plus the range's shift as page number |
| `HandoffTheorems.HandoffHonours` | projects/bootloader/source/exitloader.c:172-203 | for any ranges, every page translates to its own frame exactly when no two requests disagree about a page, nothing unrequested translates, and whatever translates can be written |
| `HandoffTheorems.BelowNoAlias` | projects/bootloader/source/exitloader.c:172-203 | memory below 2^48 has no frames that alias |
| `HandoffTheorems.HandoffTranslates` | projects/bootloader/source/exitloader.c:172-203 | every page k of every range translates to its own frame exactly when ranges of different shifts stay apart and no frames of one shift alias, nothing unrequested translates, and whatever translates can be written |
| `HandoffTheorems.HandoffShifts` | projects/bootloader/source/exitloader.c:172-203 | all memory but the runtime services' and the framebuffer are moved by the offset, the loader's own page is not |
| `HandoffTheorems.ShiftOf` | projects/bootloader/source/exitloader.c:255-275 | the shift of a moved range for every offset, aligned or not: the offset's page number, one more if the byte offsets carry |
| `HandoffTheorems.PagingDescriptorExact` | projects/bootloader/source/exitloader.c:310-347 | unless it is in slot 1, the paging descriptor, of the paging type, covers exactly the page tables: as many pages, every table inside it, every page of it a table; the remainder, conventional memory, begins right behind them, wherever it is written |
| `HandoffTheorems.Pml4SizeIs` | projects/bootloader/source/exitloader.c:228-233 | the page count that pml4size is taken from is the number of tables, unless the zone is in slot 1; what it is there |
| `HandoffTheorems.RipTablesStartIff` | projects/bootloader/source/exitloader.c:193 | bl_rip_pagetable_buf is the first page taken for the loader's tables exactly when none was taken |
| `HandoffTheorems.FramebufferCoveredIff` | projects/bootloader/source/exitloader.c:428-430 | the mapped pages cover the framebuffer exactly when it is empty or starts and ends on page boundaries |
| `HandoffTheorems.HandoffFromFirmwareMap` | projects/bootloader/source/exitloader.c:101-232 | the three results together, from conditions the loader can check on the firmware's map before paging |
| `HandoffTheorems.HandoffMapsFirmware` | projects/bootloader/source/exitloader.c:101-232 | in the firmware's own fields: page k of every descriptor, at its physical address for runtime services and moved by the offset otherwise, the loader's page, and whole page k of the framebuffer can all be written, in the frame meant, exactly when no page is asked for with two frames; every other address faults, disputes or not |
| `HandoffTheorems.AskedIff` | projects/bootloader/source/exitloader.c:379-447 | the requests made are exactly these pages, none left out and none besides |
| `Crc.TableEntry` | dependencies/gnu-efi/lib/crc.c:22-66 | all 256 constants are eight reflected steps with polynomial 0xEDB88320 |
| `Crc.RoundIsBits8` | dependencies/gnu-efi/lib/crc.c:211-213 | a loop round is eight bit steps, and the 64-bit accumulator stays below 2^32 |
| `Crc.ByteIsBits8` | dependencies/gnu-efi/lib/crc.c:211-213 | feeding the bits of a byte one by one is adding the byte and stepping eight times |
| `Crc.CalculateCrc` | dependencies/gnu-efi/lib/crc.c:201-218 | for byte strings of any length the loop computes the bit-at-a-time CRC |
| `CrcDetection.FeedLinear` | dependencies/gnu-efi/lib/crc.c:211-213 | two runs of the register differ by the run of their difference |
| `CrcDetection.CancelledIsShort` | dependencies/gnu-efi/lib/crc.c:211-213 | a difference that j further bits can cancel fits into j bits |
| `CrcDetection.BurstChangesRegister` | dependencies/gnu-efi/lib/crc.c:201-218 | messages of one length that differ only inside 32 bits leave different registers, from any start |
| `CrcDetection.BurstChangesCrc` | dependencies/gnu-efi/lib/crc.c:201-218 | and so have different CRCs |
| `CrcDetection.ByteBurstIsBurst` | dependencies/gnu-efi/lib/crc.c:201-218 | byte strings that differ only within four consecutive bytes, in particular in one byte, are such messages |
| `CrcDetection.EmptyCrc` | dependencies/gnu-efi/lib/crc.c:201-218 | the empty message has CRC zero |
| `CrcDetection.LeadingZeroChangesCrc` | dependencies/gnu-efi/lib/crc.c:201-218 | a zero byte in front changes the CRC of every message |
| `CrcHeader.Residue` | dependencies/gnu-efi/lib/crc.c:201-218 | every message followed by its own CRC, low byte first, leaves 0xDEBB20E3 in the register |
| `CrcHeader.TableHeader.SetCrcAltSize` | dependencies/gnu-efi/lib/crc.c:93-116 | the header becomes its seal: field cleared, CRC of the first bytes stored |
| `CrcHeader.TableHeader.CheckCrcAltSize` | dependencies/gnu-efi/lib/crc.c:146-198 | the answer, with the header unchanged |
| `CrcHeader.SealPasses` | dependencies/gnu-efi/lib/crc.c:93-198 | a sealed header passes, for every size within bounds |
| `CrcHeader.PassesIffSealed` | dependencies/gnu-efi/lib/crc.c:146-198 | a header passes exactly when its size is not zero and within the maximum and sealing would not change it |
| `CrcHeader.DamageIsDetected` | dependencies/gnu-efi/lib/crc.c:146-198 | no header still passes after damage to four consecutive checked bytes outside the CRC field, or to that field |
| `Glob.MetaMatch` | dependencies/gnu-efi/lib/str.c:325-409 | the endless loop with its recursive call ends, with the outcome of the recursive form |
| `Glob.MatchSet` | dependencies/gnu-efi/lib/str.c:367-394 | the two inner loops: the scan's verdict and where the pattern goes on |
| `Glob.ScanFrom` | dependencies/gnu-efi/lib/str.c:367-388 | the scan of a set hits exactly the characters that its literals and ranges admit |
| `Glob.EvalMeaning` | dependencies/gnu-efi/lib/str.c:325-409 | for every text and pattern: closed patterns match exactly the texts that can be cut into pieces for their tokens; unclosed ones never match, and run past the pattern exactly on the texts described |
| `Glob.OverrunIff` | dependencies/gnu-efi/lib/str.c:367-396 | some text makes the matcher read past the pattern exactly when a set is never closed, is not just a dash, and every set before it admits something |
| `DevicePaths.DevicePathInstance` | dependencies/gnu-efi/lib/dpath.c:48-106 | start, size and next position of the instance at any node, with the cut-off after 513 nodes |
| `DevicePaths.FirstInstance` | dependencies/gnu-efi/lib/dpath.c:66-98 | the instances of a path are its first run up to an end node and the instances behind it |
| `DevicePaths.PathUnique` | dependencies/gnu-efi/inc/efidevp.h:60-68 | the bytes of a buffer determine the path it holds |
| `DevicePaths.EndBytes` | dependencies/gnu-efi/inc/efidevp.h:45-54 | the four bytes of an end node in any path |
| `DevicePaths.NodeBytes` | dependencies/gnu-efi/inc/efidevp.h:36-62 | the header of any node gives its length, low byte first |
| `DevicePathOps.DevicePathSize` | dependencies/gnu-efi/lib/dpath.c:286-307 | the size is that of the encoded path, end node included |
| `DevicePathOps.DuplicateDevicePath` | dependencies/gnu-efi/lib/dpath.c:309-334 | a fresh buffer with exactly the bytes of the path |
| `DevicePathOps.DevicePathInstanceCount` | dependencies/gnu-efi/lib/dpath.c:108-121 | counts what repeated DevicePathInstance yields |
| `DevicePathOps.CountIsInstances` | dependencies/gnu-efi/lib/dpath.c:108-121 | with at most 513 nodes an instance, that is the number of instances |
| `DevicePathOps.AppendDevicePathInstance` | dependencies/gnu-efi/lib/dpath.c:397-433 | fills its allocation exactly with the first path, its end turned into an instance end, and the second; a missing first path gives a copy of the second |
| `DevicePathOps.WithInstanceInstances` | dependencies/gnu-efi/lib/dpath.c:397-433 | the result is well formed and its instances are those of both paths in order |
| `DevicePathOps.CountAdditive` | dependencies/gnu-efi/lib/dpath.c:397-433 | so the instance counts add up |
| `DevicePathAppend.AppendDevicePath` | dependencies/gnu-efi/lib/dpath.c:124-194 | copies when a path is missing; otherwise leaves the allocation exactly when the first path has several instances and the second is longer, and else writes the bytes described |
| `DevicePathAppend.WrittenFitsIff` | dependencies/gnu-efi/lib/dpath.c:158-191 | bytes written fit bytes allocated exactly for one instance or a second path no longer than the first |
| `DevicePathAppend.AppendedHolds` | dependencies/gnu-efi/lib/dpath.c:166-190 | a reader of the result always finds the first instance and then all of the second path, which ends there |
| `DevicePathAppend.PromisedWellFormed` | dependencies/gnu-efi/lib/dpath.c:129-132 | the path that the description promises exists |
| `DevicePathAppend.PromisedInstances` | dependencies/gnu-efi/lib/dpath.c:129-132 | for each instance of the first path one that goes on with the second path's first instance, then the second path's others, for every second path |
| `DevicePathAppend.PromiseKeptIff` | dependencies/gnu-efi/lib/dpath.c:124-194 | the result holds the promised path exactly when the first path has one instance |
| `DevicePathUnpack.PaddedSize` | dependencies/gnu-efi/lib/dpath.c:343-360 | aligning the running total counts exactly the bytes of the second pass, a multiple of four |
| `DevicePathUnpack.UnpackDevicePath` | dependencies/gnu-efi/lib/dpath.c:336-394 | the allocation is filled exactly with the padded nodes |
| `DevicePathUnpack.PaddedAligned` | dependencies/gnu-efi/lib/dpath.c:376-386 | every padded node starts on an aligned offset |
| `DevicePathUnpack.PaddedKeeps` | dependencies/gnu-efi/lib/dpath.c:376-386 | type with the unpacked bit set, subtype and payload are kept, the length grows by less than four to a multiple of four, and the padding is zero |
| `DevicePathUnpack.UnpackedReadable` | dependencies/gnu-efi/lib/dpath.c:336-394 | if all lengths are at most 0xfffc the result holds the padded path; otherwise it holds no path at all |
| `PrintTargets.PrintTarget.SPrint` | dependencies/gnu-efi/lib/print.c:313-352 | appends, cut off at the limit, terminates unless the limit is zero, and touches nothing behind |
| `PrintTargets.PrintTarget.PoolPrint` | dependencies/gnu-efi/lib/print.c:355-397 | appends everything inside the grown buffer; asks the pool for room exactly when the text and its terminator do not fit, and loses what was there only when that is refused |
| `Printers.PrintState.Flush` | dependencies/gnu-efi/lib/print.c:903-915 | the terminator stays in the 200 slots, and the target has received every character put so far |
| `Printers.PrintState.PutChar` | dependencies/gnu-efi/lib/print.c:935-954 | the text grows by the character, a line feed with its carriage return, wherever the buffer is flushed |
| `Printers.LineEnds` | dependencies/gnu-efi/lib/print.c:941-944 | every line feed printed has a carriage return right in front, and without those the text is the one given |
| `Printers.PrintState.OutputToPool` | dependencies/gnu-efi/lib/print.c:903-915 | a refused request loses what was printed up to it, and nothing else does |
| `Printers.PrintState.PutItem` | dependencies/gnu-efi/lib/print.c:972-1029 | the text grows by the padded field |
| `Printers.PrintState.Print` | dependencies/gnu-efi/lib/print.c:1080-1313 | for any format and the arguments it asks for, the target is given the expanded text of its characters and items, whose length is returned; reading stops at the terminator; what the items are, letter by letter, is stated in the rows of `Formats` |
| `Formats.DocumentedForm` | dependencies/gnu-efi/lib/print.c:1041-1066 | a directive of the documented form, stars included, in front of anything makes one item with exactly that width, field width, padding, side, commas and argument size |
| `Formats.PlainText` | dependencies/gnu-efi/lib/print.c:1095-1110 | characters in front of the first percent sign print themselves |
| `Formats.TextLetters` | dependencies/gnu-efi/lib/print.c:1117-1297 | a plain directive ending in s or a prints the argument's text, or "(null)" for a null pointer; a percent sign prints itself, an unknown letter a question mark, and the converted arguments their texts; each takes exactly its argument, in front of any rest |
| `Formats.CharLetter` | dependencies/gnu-efi/lib/print.c:1180-1184 | c prints the low 16 bits of its argument as a character |
| `Formats.HexLetters` | dependencies/gnu-efi/lib/print.c:1190-1203 | x and X print a numeral without leading zeros that reads back as the argument, of 64 bits with the long flag and of 32 without; X in eight or sixteen places filled with zeros |
| `Formats.CapitalHexField` | dependencies/gnu-efi/lib/print.c:1190-1203 | these places hold exactly eight or sixteen characters, which read as the argument |
| `Formats.DecimalLetters` | dependencies/gnu-efi/lib/print.c:1211-1227 | u and d print a numeral that, but for commas, reads back as the argument, signed where the source prints it signed |
| `Formats.FieldLayout` | dependencies/gnu-efi/lib/print.c:1006-1028 | which character of a field comes from the text, the padding to the width and the blanks to the field width, for every item |
| `Formats.OverrunIff` | dependencies/gnu-efi/lib/print.c:1095-1115 | for any format and the arguments it asks for, it is read past its terminator exactly when the characters leave a directive open |
| `Formats.AttributeLetters` | dependencies/gnu-efi/lib/print.c:1260-1300 | for any rest of a format, an attribute letter in a string's format ends no directive and prints nothing: the rest is read as the same directive |
| `Formats.UnsignedIff` | dependencies/gnu-efi/lib/print.c:1211-1218 | the unsigned conversion prints the number exactly below 2^63 or without the long flag; otherwise a minus sign and the complement |
| `Formats.ParsedValid` | dependencies/gnu-efi/lib/print.c:1117-1297 | no item holds a terminator or a null padding character |
| `Printers.ReadWidth` | dependencies/gnu-efi/lib/print.c:1150-1165 | the digit loop stops behind the number and yields it modulo 2^64 |
| `Printers.Convert` | dependencies/gnu-efi/lib/print.c:1189-1227 | the numeric items, made in the scratch buffer |
| `Printers.UnicodeVSPrint` | dependencies/gnu-efi/lib/print.c:423-463 | with a limit of at least one, the string is the first characters of the expanded text up to the limit, terminated; it needs no more room than that, unlimited sizes included |
| `Printers.VPoolPrint` | dependencies/gnu-efi/lib/print.c:503-532 | the pool string is the whole expanded text unless a request to the pool was refused; then it is the part behind the refusal, or null |
| `Printers.CatPrint` | dependencies/gnu-efi/lib/print.c:566-600 | the target ends up with the end of its old text and the expanded text, and with all of it unless a request to the pool is refused |
| `Printers.FieldWidth` | dependencies/gnu-efi/lib/print.c:985-1004 | a field is as wide as its widest demand and shows all of the text unless the field is narrower |
| `Printers.LeftJustifiedIff` | dependencies/gnu-efi/lib/print.c:1006-1028 | with the dash flag the text starts the field exactly when the width adds no padding or the text is the pad character throughout |
| `ProtocolInstall.LibInstallProtocolInterfaces` | dependencies/gnu-efi/lib/hand.c:437-519 | all interfaces or none, for any list failing anywhere; it succeeds exactly when the firmware refuses no call, the handle is null or known and no protocol is there already; on failure the database and the handle variable are as before; the calls made, in order and at the raised task priority, which is restored on every path |
| `ProtocolInstall.UndoInstall` | dependencies/gnu-efi/lib/hand.c:496-510 | removing in the order of installing restores the database, a handle made by the call included |
| `ProtocolReinstall.LibReinstallProtocolInterfaces` | dependencies/gnu-efi/lib/hand.c:561-641 | it succeeds exactly when the firmware refuses no call and every exchange in turn finds its old interface; the database after success and after the undo, and all calls made, for the handle number that is really passed; an unknown one fails and changes nothing; the task priority is restored |
| `ProtocolReinstall.ActsAsMeantIff` | dependencies/gnu-efi/lib/hand.c:600-607 | passing the address does to the database what passing the handle would do exactly when both are the same number or the list changes the interfaces of neither |
| `ProtocolReinstall.DistinctRestores` | dependencies/gnu-efi/lib/hand.c:615-633 | with distinct protocols the undo in list order restores every interface |
| `ProtocolReinstall.FailureRestores` | dependencies/gnu-efi/lib/hand.c:561-641 | so a failed call with distinct protocols leaves the database as it was |
| `ProtocolReinstall.ReverseRestores` | dependencies/gnu-efi/lib/hand.c:615-633 | undoing in the opposite order would restore it for every list |
| `ProtocolReinstall.RestoresIff` | dependencies/gnu-efi/lib/hand.c:615-633 | for every list, the undo restores every interface exactly when walking the arguments leads from each protocol's last new interface back to its first old one |
| `ProtocolReinstall.RestoresIffDistinct` | dependencies/gnu-efi/lib/hand.c:615-633 | when no interface is used twice, the undo restores exactly the lists of distinct protocols |
| `ProtocolReinstall.RepeatedProtocolIsLost` | dependencies/gnu-efi/lib/hand.c:615-633 | a list of two entries that the undo does not restore |
| `Relocate.Scan` | dependencies/gnu-efi/gnuefi/reloc_x86_64.c:52-71 | the last entry of each tag in front of the null entry decides |
| `Relocate.LastWithIs` | dependencies/gnu-efi/gnuefi/reloc_x86_64.c:52-71 | what the last entry of a tag is, and when there is none |
| `Relocate.Relocate` | dependencies/gnu-efi/gnuefi/reloc_x86_64.c:43-98 | status on every path, and memory after the loop as the entries of the original table applied in order; in the other form the AArch64 loop; what that is byte by byte is stated in the next rows |
| `Relocate.NamedWordRelocated` | dependencies/gnu-efi/gnuefi/reloc_x86_64.c:52-96 | from the bytes of the file: if the entry at the table's start plus k entry sizes has 8 in the low half of its second word, the word at load base plus its first word, modulo 2^64, gains the load base, when no other such entry names a word that overlaps it; in the AArch64 form, with type 1027, it becomes the third word plus the load base |
| `Relocate.OtherBytesStay` | dependencies/gnu-efi/gnuefi/reloc_x86_64.c:79-96 | bytes outside all words named like that stay as they are |
| `Relocate.NoTable` | dependencies/gnu-efi/gnuefi/reloc_x86_64.c:73-77 | without a table or entry size nothing changes; with only one of them the call fails |
| `Bytes.LoadBytes` | dependencies/gnu-efi/gnuefi/reloc_x86_64.c:86-88 | a 64-bit word in memory, byte by byte |
| `Relocate.CountIs` | dependencies/gnu-efi/gnuefi/reloc_aarch64.c:78-95 | which entries the loop reaches when it counts the size down |
| `Relocate.RelocatedOnce` | dependencies/gnu-efi/gnuefi/reloc_x86_64.c:79-96 | with targets that do not overlap, each gains the load base exactly once |
| `Relocate.UntouchedStays` | dependencies/gnu-efi/gnuefi/reloc_x86_64.c:79-96 | a byte in no target keeps its value |
| `Relocate.FormsAgreeIff` | dependencies/gnu-efi/gnuefi/reloc_aarch64.c:84-88 | for targets that are the same or do not overlap, adding in place and storing base plus addend give the same memory exactly when every target held its last addend less the load bases of its earlier entries |
| `Relocate.VariantsAgreeIff` | dependencies/gnu-efi/gnuefi/reloc_aarch64.c:78-95 | the x86-64 loop and the AArch64 loop on the same table with their own type numbers, targets again the same or without overlap, leave the same memory exactly then |
| `Relocate.HoldsAddendOnce` | dependencies/gnu-efi/gnuefi/reloc_aarch64.c:84-88 | where every target is named once, that is holding the addend |
| `Relocate.RelocatedWord` | dependencies/gnu-efi/gnuefi/reloc_x86_64.c:79-96 | any word that no target overlaps in part gains the load base once for every entry naming it in the one form, and becomes the last such entry's addend plus the load base in the other |
| `Relocate.AddendUnused` | dependencies/gnu-efi/gnuefi/reloc_x86_64.c:48-50 | the x86-64 loop, which reads entries without addends, does not depend on them |
| `KernelLayout.TotalSize` | projects/bootloader/source/loadkernel.c:173-190 | total size modulo 2^64 and page count |
| `KernelLayout.PagesCoverIff` | projects/bootloader/source/loadkernel.c:189-190 | the allocation covers the size exactly when the page count is no multiple of 4096 or the size is one of whole pages; it is never off by more than a page; when it is the right number |
| `KernelLayout.ProgramConfig.Configure` | projects/bootloader/source/loadkernel.c:209-272 | every field; the end of the last loadable segment in the table; without wrap-around stacks, TSS array, GDT and header follow each other behind it |
| `KernelLayout.AreasOfCores` | projects/bootloader/source/loadkernel.c:27-29 | each core's stack of 64 KiB and TSS of 108 bytes, and five plus one descriptors of eight bytes for each core, lie in their areas without overlap; the areas end exactly where the next begin, and 160 bytes of header follow |
| `KernelLayout.EndIsLoadAndGaps` | projects/bootloader/source/loadkernel.c:175-181 | the end offset is the sum of the segments plus the gaps between them |
| `KernelLayout.AscendingEnds` | projects/bootloader/source/loadkernel.c:261 | with segments in ascending order no segment reaches past the end offset |
| `KernelLayout.LayoutFitsIff` | projects/bootloader/source/loadkernel.c:182-272 | the whole layout lies in the allocation exactly when the gaps fit what the rounding leaves over |
| `KernelLayout.CoveredLayoutFits` | projects/bootloader/source/loadkernel.c:182-272 | an allocation that covers the size holds the layout when the end offset is within the segments' sum |
| `KernelLayout.FindSection` | projects/bootloader/source/loadkernel.c:75-90 | the last named section of the name wins |
| `KernelLayout.FindSymbol` | projects/bootloader/source/loadkernel.c:150-164 | the first named symbol of the name wins; zero without one |
| `Numerals.ValueToHex` | dependencies/gnu-efi/lib/print.c:1318-1346 | the buffer holds the numeral, with capital letters, terminated |
| `Numerals.ValueToString` | dependencies/gnu-efi/lib/print.c:1349-1392 | the same with sign and commas, for every signed 64-bit number |
| `Numerals.GroupedToAll` | dependencies/gnu-efi/lib/print.c:1380-1389 | putting commas by counting down from the left groups by three from the right |
| `Numerals.Xtoi` | dependencies/gnu-efi/lib/str.c:267-296 | skips blanks and reads hexadecimal digits of either case modulo 2^64 |
| `Numerals.Atoi` | dependencies/gnu-efi/lib/str.c:298-323 | the same for decimal digits |
| `Numerals.RoundTrips` | dependencies/gnu-efi/lib/print.c:1318-1392 | xtoi reads back every 64-bit number, Atoi every number below 2^63 printed without commas |
| `Numerals.ReadAmongOthers` | dependencies/gnu-efi/lib/str.c:267-323 | so they do behind any number of blanks and in front of anything that is no digit |
| `Numerals.DigitLetters` | dependencies/gnu-efi/lib/print.c:1315-1316 | the sixteen digits in both cases, and what a reader makes of every character |
| `Numerals.NegativeIsNotRead` | dependencies/gnu-efi/lib/str.c:298-323 | Atoi reads zero from every negative numeral |
| `Numerals.CommasGroup` | dependencies/gnu-efi/lib/print.c:1378-1389 | for every signed 64-bit number, without its commas the text is the plain one; behind the sign, counted from the right, exactly every fourth character is a comma |
| `BootNumerals.Formatd` | projects/bootloader/source/print.c:289-322 | sign, digits that evaluate to the value, terminator, nothing behind; null exactly when the digits exceed the size |
| `BootNumerals.FormatdOverrunsIff` | projects/bootloader/source/print.c:310-319 | the text runs past a size exactly for values from 10^(size - 2) up to 10^size, and past 512 slots never |
| `BootNumerals.Formatl` | projects/bootloader/source/print.c:333-341 | sign and digits of every signed 64-bit number, the least one included; null exactly when the digits exceed the size |
| `BootNumerals.Formatx` | projects/bootloader/source/print.c:351-391 | eight or sixteen hexadecimal digits that evaluate to the value, letters in the case asked for, nothing in front; null, with nothing written, exactly when the digits exceed the size |
| `BootNumerals.Formatp` | projects/bootloader/source/print.c:394-409 | prefix and, if the digits fit what is left of the size, sixteen digits with small letters that evaluate to the address; otherwise nothing behind the prefix changes |
| `BootNumerals.Formatb` | projects/bootloader/source/print.c:416-448 | prefix and a fixed number of binary digits, all inside four slots more than the width |
| `BootNumerals.FormatbIff` | projects/bootloader/source/print.c:432-444 | the binary digits evaluate to the value exactly below 2^63 |
| `AvlTrees.RotatedSame` | projects/kernel/source/mem/virt/avl/avl_tree.c:192-216 | a rotation to either side keeps the in-order sequence and the nodes |
| `AvlTrees.DoubleRotatedSame` | projects/kernel/source/mem/virt/avl/avl_tree.c:242-275 | so does a double rotation |
| `AvlTrees.DoubleIsTwo` | projects/kernel/source/mem/virt/avl/avl_tree.c:269-275 | but for balance factors, a double rotation is the two rotations |
| `AvlBalance.GrownBalanced` | projects/kernel/source/mem/virt/avl/avl_tree.c:336-460 | one round above a subtree that has grown by a level: the parent's subtree is balanced again, and has grown itself, leaning now, exactly when it was even |
| `AvlBalance.FirstGrowth` | projects/kernel/source/mem/virt/avl/avl_tree.c:475-489 | the first round never needs a rotation |
| `AvlBalance.ShrunkBalanced` | projects/kernel/source/mem/virt/avl/avl_tree.c:541-648 | one round above a subtree that has shrunk by a level: balanced again, and of the old height exactly when the round ends the loop |
| `AvlBalance.SuccessorSwapped` | projects/kernel/source/mem/virt/avl/avl_tree.c:650-717 | with the leftmost node of the right subtree in the node's place, the in-order sequence lacks just the node, and one place is a level lower |
| `AvlBalance.HeightBound` | projects/kernel/source/mem/virt/avl/avl_tree.c:161-166 | a balanced tree of height h has at least as many nodes as the Fibonacci-like recurrence says |
| `AvlBalance.BoundIsSharp` | projects/kernel/source/mem/virt/avl/avl_tree.c:161-166 | and one has no more |
| `AvlBalance.HeightIsLogarithmic` | projects/kernel/source/mem/virt/avl/avl_tree.c:161-166 | fewer than 2^k - 1 nodes make less than 2 k levels |
| `AvlMemory.TreeUnique` | projects/kernel/include/mem/virt/avl/avl_tree.h:39-62 | memory determines the tree, packed balance factors included |
| `AvlMemory.CellBits` | projects/kernel/include/mem/virt/avl/avl_tree.h:39-62 | the two lowest bits of the packed word are 0, 1 or 2 for a balance factor of -1, 0 or 1 |
| `AvlMemory.RotatedHolds` | projects/kernel/source/mem/virt/avl/avl_tree.c:219-237 | the pointers that a rotation sets hold the rotated tree, parent pointers and packed balance factors included |
| `AvlMemory.DoubleRotatedHolds` | projects/kernel/source/mem/virt/avl/avl_tree.c:278-310 | the same for the double rotation, with its new balance factors |
| `AvlMemory.TookPlace` | projects/kernel/source/mem/virt/avl/avl_tree.c:698-715 | a detached node that has got the pointers of another stands in its place, however deep the path below |
| `Avl.AvlTree.ReplaceChild` | projects/kernel/source/mem/virt/avl/avl_tree.c:175-189 | the pointer down to a subtree, in its parent or the root, leads to the new child |
| `Avl.AvlTree.Rotate` | projects/kernel/source/mem/virt/avl/avl_tree.c:218-237 | in place, for either side and any subtree of any tree |
| `Avl.AvlTree.DoubleRotate` | projects/kernel/source/mem/virt/avl/avl_tree.c:277-310 | in place |
| `Avl.AvlTree.HandleSubtreeGrowth` | projects/kernel/source/mem/virt/avl/avl_tree.c:335-460 | leaves the repaired subtree in its place, and says whether the loop is done |
| `Avl.AvlTree.RebalanceAfterInsert` | projects/kernel/source/mem/virt/avl/avl_tree.c:463-509 | from a new node in any hole of a balanced tree to a balanced tree with the node in that place |
| `Avl.AvlTree.Insert` | projects/kernel/include/mem/virt/avl/avl_tree.h:248-271 | for any comparison the in-order sequence gains exactly the item, or nothing changes and the node returned compares equal; if the comparison falls along the sequence, the item comes behind what it is greater than and in front of what it is less than |
| `Avl.AvlTree.HandleSubtreeShrink` | projects/kernel/source/mem/virt/avl/avl_tree.c:540-648 | leaves the repaired subtree in its place, and returns the next parent and side, or null when the loop ends |
| `Avl.AvlTree.SwapWithSuccessor` | projects/kernel/source/mem/virt/avl/avl_tree.c:654-718 | the node is gone from a tree that is balanced but for the one place returned |
| `Avl.AvlTree.Remove` | projects/kernel/source/mem/virt/avl/avl_tree.c:735-791 | for any node of any balanced tree, the in-order sequence loses exactly the node, the tree is balanced, all parent pointers and balance factors are right, and no cell outside the tree is written |
| `Avl.AvlTree.Lookup` | projects/kernel/include/mem/virt/avl/avl_tree.h:145-162 | returns a node that compares equal, or null; if the comparison falls along the sequence, null only when no node compares equal |
| `Avl.AvlTree.FirstOrLastInOrder` | projects/kernel/source/mem/virt/avl/avl_tree.c:37-46 | the first or last node of the in-order sequence, or null |
| `Avl.AvlTree.NextOrPrevInOrder` | projects/kernel/source/mem/virt/avl/avl_tree.c:64-80 | the neighbour in the in-order sequence, or null at its end |
| `Avl.AvlTree.ForEachInOrder` | projects/kernel/include/mem/virt/avl/avl_tree.h:328-336 | going from node to node visits the in-order sequence |
| `AvlOrder.SortedFalls` | projects/kernel/include/mem/virt/avl/avl_tree.h:184-198 | in a sorted tree every comparison that is antisymmetric and transitive falls along the sequence, even if comparing equal is not transitive |
| `AvlOrder.InsertKeepsSorted` | projects/kernel/include/mem/virt/avl/avl_tree.h:248-271 | the place found for an item keeps the order |
| `AvlOrder.RemoveKeepsSorted` | projects/kernel/source/mem/virt/avl/avl_tree.c:719-734 | so does removing |
| `AvlOrder.RegionsOrdered` | projects/kernel/include/mem/virt/avl/avl_wrap.h:38-51 | the kernel's comparison of regions is such a comparison, wrapping sums included |
| `AvlOrder.RegionsStaySorted` | projects/kernel/include/mem/virt/avl/avl_wrap.h:38-63 | so regions stay sorted behind every insertion |
| `AvlOrder.CompareEqualIff` | projects/kernel/include/mem/virt/avl/avl_wrap.h:38-51 | which regions compare equal: without wrapping, those whose intervals from address to sum meet |
| `AvlOrder.AddressesFall` | projects/kernel/include/mem/virt/avl/avl_wrap.h:26-35 | among sorted regions whose sums do not wrap, looking up an address finds the region that starts there |
| `AvlOrder.WrappedOutOfOrder` | projects/kernel/include/mem/virt/avl/avl_wrap.h:47-48 | with a sum that wraps, a region can come before one with a lower address |
| `AvlOrder.OverlapUnseenIff` | projects/kernel/include/mem/virt/avl/avl_wrap.h:11-51 | regions with common pages compare as different exactly when one starts behind the other's sum and in front of its last page's end |
| `BuddyLevels.LevelRange` | projects/kernel/source/mem/phys/buddy.c:11-13 | the blocks of level l are those numbered from 2^l - 1 up to twice that |
| `BuddyLevels.GetLevelIs` | projects/kernel/source/mem/phys/buddy.c:30 | the level computed for a block is always its level plus one |
| `BuddyLevels.AddressOutside` | projects/kernel/source/mem/phys/buddy.c:63-68 | every block lies inside the region, and every address computed for a block lies behind it |
| `BuddyLevels.StartLevel` | projects/kernel/source/mem/phys/buddy.c:257-260 | a request for 2^k pages is looked for among blocks of twice as many |

## Left out

- Firmware calls, file reads, console output, ExitBootServices, inline assembly and the CR3 switch: the firmware's answers are parameters, nondeterministic choices or the contracts of `Protocols.BootServices`.
- Failing pool allocations of the device-path operations, which then return NULL.
- The memory map's buffer and the loader's code and stack are kept apart from the words that paging writes: the map lies in bytes of its own, which go on in front of it for at least one entry, since the code reads there.
- MemoryMaps.MemoryMap.FinalizeMemoryMap: entry sizes below the 40 bytes of a descriptor are excluded, as the UEFI specification does; the two lemmas on the slot macro hold for all.
- PageStacks.PageStack.AllocatePage: a page stack of no pages, unaligned or above 2^52 is excluded; the UEFI specification has no such descriptors.
- Printers.PrintState.Print: what `%g`, `%D`, `%f`, `%t` and `%r` print is given with the arguments, converted; arguments of another kind than the format asks for are excluded, and so are formats that end inside a directive (`OverrunIff`).
- Protocols.BootServices.UninstallProtocolInterface: a removal is never refused because a driver uses the interface; during the undo loops nobody has had the chance to open it.
- Protocols.BootServices.ReinstallProtocolInterface: the same holds for exchanges during an undo.
- Relocate.Relocate: tables or targets outside memory, targets inside the table, and a negative entry size are excluded; there the behaviour of the source is undefined.
- KernelLayout.ProgramConfig.Configure: without any loadable segment the source dereferences NULL, so one is required.
- DevicePathAppend.AppendDevicePath: first paths with an instance of more than 513 nodes are excluded; the assertion in `DevicePathInstance` (dependencies/gnu-efi/lib/dpath.c:86-87) rejects them.
- BootNumerals.Formatx: a value of more than 32 bits in the eight-digit form runs in front of the buffer; callers never pass one.
- BootNumerals.Formatb: a value with more digits than the width overwrites the prefix; callers never pass one.
- Loop bodies and pieces that are methods of their own here (`EnterTable`, `CutIndices`, `OutputToPool`, `MatchSet`, `AppendRound`, `UnpackNode`, `PutDigit`, `WriteDigits`) are inline in the source, and its two relocation loops are one method with the form as parameter.
- The remaining per-node device-path texts, `ValidMBR`, GUID tables, applications and font data: no deep property.
- Relocate.FormsAgreeIff: targets that overlap in part are excluded, and so from `VariantsAgreeIff`; relocated words are aligned.
- Avl.AvlTree.Insert: nodes are at addresses that are multiples of four, as the header demands, and no two share memory; a node's three fields are one cell.
- The wrappers of the AVL tree that cast between a region's record and the tree node inside it, its postorder traversal, and the allocator of its nodes.
- The rest of the physical allocators (projects/kernel/source/mem/phys): with levels and addresses as computed (`GetLevelIs`, `AddressOutside`), their lists do not describe blocks of the region.
- The rest of the kernel: interrupts, scheduling, devices, graphics.
