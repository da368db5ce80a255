# ChihuahuaOS: page tables, memory primitives and the kernel loader

A Dafny 4.11 model of the parts of ChihuahuaOS that move bits into place before the kernel runs,
and proofs of what they promise.  `dafny verify dfyconfig.toml` checks everything.

**Page tables** (`PageEntry`, `VirtualAddress`, `PhysicalMemory`, `PageTables`, `PageTree`,
`RecursiveWindow`, `Refinement`, `Footprint`, `Runs`, `Rights`, `CallOutcomes`, `SelfSlots`,
`TopIndexOne`, `EnabledReads`, `AsWrittenLinks`).  `PageTables.PagingController` is the controller
with its in-place stores.  `PageTree` relates the words in memory to an abstract tree of tables
with a finite map from virtual pages to leaf entries; `Refinement` shows that every call follows
the abstract tree, `Footprint` that it touches nothing else, `CallOutcomes` says
exactly when a call succeeds, and `Runs` and `Rights` draw the consequences for whole runs.  The
frame allocator is the sequence of its future answers, so every allocator is covered.

**Memory primitives** (`MemEssentials`).  One flat byte array; a pointer is an index, so regions
overlap in every possible way.

**Loader** (`Firmware`, `ElfFormat`, `ElfLoading`, `KernelLoading`, `FileReading`, `KernelReader`,
`SampleKernel`).  Firmware answers are arbitrary, within section 7.2 of the UEFI Specification 2.10,
and so is the file.  Every outcome is a function of the answers and the bytes read.

**Graphics mode** (`Gop`).

## Where the code and its promise part

The model keeps the code as written beside a marked repair, and says exactly when the code as
written is right.

- The two address macros (lines 34 and 39 of the paging controller) mask with the number 40 and
  shift a byte address.  Repair: address bits 51 to 12 stay in place, in both directions.
  See `PageEntry.AsWrittenRoundTripExactly`.
- New L2 and L1 tables are linked from the root (lines 134 and 181).  Repair: from the table above.
  `PageTables.Links` selects the style; see `AsWrittenLinks.AsWrittenKeepsPromiseExactly` and, with
  paging enabled, `AsWrittenLinks.EnabledFaultsExactly`.
- The canonical-form test ignores bit 47, and the window addresses carry a sign extension that does
  not suit index 1.  Windows are walked by their low 48 bits.  See
  `VirtualAddress.CanonicalTestExactly` and `RecursiveWindow.WindowAddressAsWritten`.
- Slot 1 of every table but the root points at the table.  The stores are kept; statements about
  mapped pages are for pages whose four indices all differ from 1 (`Admissible`).  A page with
  an index 1 below the top one translates to the frame of a table, or to 0, and a request for it,
  forced by default, can overwrite a table link: see `SelfSlots.SelfSlotTranslates`,
  `SelfSlots.SelfSlotRequestHarmlessExactly` and `SelfSlots.SelfSlotCounterexample`.  They include
  top index 1 if the root is self-mapped.  `mapPage` does not do that; if the root's slot 1 is
  cleared, it is an ordinary slot with a tree of its own: see `TopIndexOne.RunFromClearedRoot`.
- `translateVirtToPhys` uses physical addresses as pointers also while paging is enabled.  What it
  then reads, and when unforced calls fault, is the subject of `EnabledReads`.
- New tables are cleared only while paging is disabled.  In the other mode the theorems ask the
  allocator for zeroed frames (`ModeReady`).  See `Refinement.NewTableHangsExactly`.
- `translateVirtToPhys` returns a page and uses 0 for "unmapped", so physical pages are aligned,
  non-zero and below 2^52.
- The backward loop of `memmove` stores before it decrements.  `MemEssentials.Backward` selects the
  order; see `MemEssentials.AsWrittenMemmoveExactly`.
- Links are neither user-accessible nor executable, so no page is.  See
  `Rights.GrantedAgainstRequested`.
- The ELF bounds tests want both the file part and the size in memory to end before the last byte of
  the file, so a kernel whose last segment ends with the file, or has a larger memory size, is
  rejected.  See `ElfLoading.SizesPassExactly`.
- The ELF bounds tests add in 64 bits, so a sum can wrap.  No file is excluded: a load that passes
  the tests and would leave the file or its pages ends in the outcome `WritesAstray`, and a header
  table outside the file in `StrayTable`.  See `ElfLoading.LoadFitsExactly`,
  `ElfLoading.SectionFitsExactly`, `ElfLoading.TableInFileExactly` and
  `KernelLoading.KernelCompletesExactly`.
- A null header table can come with a positive count, and `readKernel` then dereferences it; this
  is the outcome `NullTable`.  See `ElfLoading.NullTableExactly`.
- `readFile` frees its info buffer a second time when the final read fails (line 277) and goes on
  when an allocation was refused; see `FileReading.ReadFile` and `FileReading.DoubleFreeRun`.

## Model

| member | source | states |
|---|---|---|
| PageTables.PagingController.MapPage | static_libs/paginator/src/arch/x86_64/x86_64_paging_controller.cpp:44-228 | The in-place code, with the parent links as written or repaired and in both paging modes, has the effect `MapEffect` on the table words and the allocator; the rows below are about that effect. |
| PageTables.PagingController.TranslateVirtToPhys | static_libs/paginator/src/arch/x86_64/x86_64_paging_controller.cpp:234-263 | The reads through four levels give `Translate`, which `PageTree.TranslateReadsLeaf` shows to be a look-up in the map of pages. |
| Refinement.MapRefines | static_libs/paginator/src/arch/x86_64/x86_64_paging_controller.cpp:44-228 | Simulation: whatever its outcome, a call on memory that represents a tree does what `TreeMap` does to the tree of tables and the map of pages; error code, frames taken and invariant agree. |
| Refinement.MapPageUpdatesTranslation | static_libs/paginator/src/arch/x86_64/x86_64_paging_controller.cpp:44-263 | A successful call, with any physical address, makes every address of the page translate to the page part of that address, which is the address itself for a whole page below 2^52, and leaves every other admissible address as it was, however many tables they share; a failed call changes no translation. |
| Refinement.NewTableHangsExactly | static_libs/paginator/src/arch/x86_64/x86_64_paging_controller.cpp:80-104 | A new table is empty but for its self slot exactly when paging is disabled or the frame came zeroed. |
| Refinement.WindowStoresAllowed | static_libs/paginator/src/arch/x86_64/x86_64_paging_controller.cpp:91-214 | With paging enabled and a writable window, every store through the window is permitted: into existing tables, and into the self slot of a new one. |
| Footprint.MapTouchesOnlyTables | static_libs/paginator/src/arch/x86_64/x86_64_paging_controller.cpp:44-228 | A call changes no word outside the frames of the tables it ends with, and never the root's own slot 1; with `MapRefines` every word of memory is determined. |
| Footprint.ModesAgree | static_libs/paginator/src/arch/x86_64/x86_64_paging_controller.cpp:73-227 | With the root self-mapped and zeroed frames on offer, both arms of every `pagingDisabledNow` test give the same result, the same frames and the same word in every slot of memory. |
| PageTree.TranslateReadsLeaf | static_libs/paginator/src/arch/x86_64/x86_64_paging_controller.cpp:234-263 | In every represented state `translateVirtToPhys` is a look-up in the abstract map of pages. |
| SelfSlots.SelfSlotTranslates | static_libs/paginator/src/arch/x86_64/x86_64_paging_controller.cpp:104-263 | A page with an index 1 is never mapped and translates to the frame of the table named by its other indices, exactly when that table exists; with top index 1 this is for a self-mapped root. |
| SelfSlots.InstallWalks | static_libs/paginator/src/arch/x86_64/x86_64_paging_controller.cpp:73-227 | What `mapPage` does in both paging modes for any page, index 1 or not (top index 1 with a self-mapped root): it grows the tables that the other indices name, and stores the leaf in the table where the walk ends, be it a leaf slot, a link or a self slot. |
| SelfSlots.SelfSlotRequest | static_libs/paginator/src/arch/x86_64/x86_64_paging_controller.cpp:216-227 | After a successful request for a page with an index 1, exactly the addresses below the table it names are rerouted: their walk goes on in the requested frame as if it were a table; all others are unchanged. |
| SelfSlots.SelfSlotRequestHarmlessExactly | static_libs/paginator/src/arch/x86_64/x86_64_paging_controller.cpp:216-227 | Such a request, for a data page that holds zeros, leaves all other translations alone exactly when the store hits a self slot or no page is mapped below the slot it overwrites. |
| SelfSlots.ForcedRequestUnhooks | static_libs/paginator/include/paginator/page_table.h:85-97 | One forced request, and forced is the default, succeeds without taking a frame and makes all pages of another page's L1 table translate to 0. |
| SelfSlots.SelfSlotCounterexample | static_libs/paginator/include/paginator/page_table.h:85-97 | A concrete run of two successful calls after which the first mapping is gone. |
| TopIndexOne.TopOneRequest | static_libs/paginator/src/arch/x86_64/x86_64_paging_controller.cpp:73-227 | With paging disabled and the root's slot 1 not self-mapped, a request with top index 1 does below slot 1 what `TreeMap` does below slot 0 of another root; both trees stay proper and share no frame but the root. |
| TopIndexOne.TopOneSucceedsExactly | static_libs/paginator/src/arch/x86_64/x86_64_paging_controller.cpp:44-228 | Such a request succeeds exactly when the address passes the test, the page is free or the write is forced, and the tables missing below slot 1 are supplied. |
| TopIndexOne.OtherTreeStays | static_libs/paginator/src/arch/x86_64/x86_64_paging_controller.cpp:73-227 | A request with top index 1, whatever its other indices and its outcome, leaves the tree below the other slots, and so all admissible translations, alone. |
| TopIndexOne.OrdinaryRequest | static_libs/paginator/src/arch/x86_64/x86_64_paging_controller.cpp:73-227 | Requests with other top indices leave the tree below slot 1 alone. |
| TopIndexOne.RunFromClearedRoot | static_libs/paginator/src/arch/x86_64/x86_64_paging_controller.cpp:44-263 | After any run of calls with any top index from a cleared root, paging disabled, every address whose inner indices differ from 1 translates to the frame of the last successful request for its page, or to 0. |
| TopIndexOne.TopOneSelfSlot | static_libs/paginator/src/arch/x86_64/x86_64_paging_controller.cpp:104-263 | Below slot 1, too, a page with an inner index 1 translates to the frame of the table named by its other indices, or to 0. |
| EnabledReads.SeenExactly | static_libs/paginator/src/arch/x86_64/x86_64_paging_controller.cpp:234-263 | With its physical pointers translated by the processor, `translateVirtToPhys` gives what the model reads exactly when all tables on the way are mapped to themselves, and faults otherwise, if each of them is mapped to itself or not at all. |
| EnabledReads.RunSeenExactly | static_libs/paginator/src/arch/x86_64/x86_64_paging_controller.cpp:67-263 | If all frames that are or may become tables are mapped to themselves and no request says otherwise, a run with paging enabled, unforced calls included, never faults, ends as in the rest of the model, and keeps that property. |
| EnabledReads.IdentityIsPossible | static_libs/paginator/src/arch/x86_64/x86_64_paging_controller.cpp:67-70 | Three forced calls from a windowed root bring that condition about. |
| EnabledReads.SecondCallFaults | static_libs/paginator/src/arch/x86_64/x86_64_paging_controller.cpp:67-70 | Without it, a second, unforced call to a region that has a table faults: a concrete root and pair of pages. |
| Runs.StartIsPossible | static_libs/paginator/include/paginator/page_table.h:70-81 | Concrete roots and allocators that meet what the statements on runs ask for, one for each mode. |
| Runs.RunFromZeroedRoot | static_libs/paginator/src/arch/x86_64/x86_64_paging_controller.cpp:44-263 | After any run of calls from a zeroed root, with any failures, every admissible address translates to the frame of the last successful request for its page, or to 0. |
| Runs.EveryRunKeepsATree | static_libs/paginator/src/arch/x86_64/x86_64_paging_controller.cpp:73-227 | Every run keeps a proper tree: one parent per table, no frame in two roles, and table frames are exactly the root and the frames taken, none lost. |
| Runs.FramesTaken | static_libs/paginator/src/arch/x86_64/x86_64_paging_controller.cpp:73-199 | After successful calls only, the frames taken number the distinct one-, two- and three-index prefixes of the mapped pages, at most three a page. |
| Runs.AllocFailedExactly | static_libs/paginator/src/arch/x86_64/x86_64_paging_controller.cpp:75-78 | `AllocFailed` is returned exactly when the call gets to the tables and the allocator does not supply one frame for each missing table. |
| CallOutcomes.SucceedsExactly | static_libs/paginator/src/arch/x86_64/x86_64_paging_controller.cpp:44-228 | A call succeeds exactly when the address passes the test, the page is free or the write is forced, and the allocator supplies one frame for each table the page lacks. |
| CallOutcomes.RetrySucceedsExactly | static_libs/paginator/src/arch/x86_64/x86_64_paging_controller.cpp:73-199 | After a failed allocation the state is still a proper one, and the repeated call succeeds exactly when the allocator supplies the tables that are still missing. |
| CallOutcomes.RetryAfterAllocFailure | static_libs/paginator/src/arch/x86_64/x86_64_paging_controller.cpp:73-199 | A failed allocation at any of the three points changes no translation; once the allocator supplies the missing frames the repeated call succeeds and gives every translation of an uninterrupted call. |
| CallOutcomes.EntryExistsExactly | static_libs/paginator/src/arch/x86_64/x86_64_paging_controller.cpp:67-70 | `EntryExists` is returned exactly for a non-forced request for a canonical page that already translates, and then nothing is touched. |
| CallOutcomes.EntryExistsInRuns | static_libs/paginator/src/arch/x86_64/x86_64_paging_controller.cpp:67-70 | The same in every state that a run from a zeroed root reaches, with no further assumption on the tables. |
| CallOutcomes.RejectedExactly | static_libs/paginator/src/arch/x86_64/x86_64_paging_controller.cpp:61-65 | `InvalidVirtAddress` is returned exactly when the upper sixteen bits are neither all zeros nor all ones, and then nothing is touched. |
| CallOutcomes.MappingsAreWriteOnce | static_libs/paginator/src/arch/x86_64/x86_64_paging_controller.cpp:67-70 | In a run without forced writes the leaf entry of a mapped page is never changed or lost, so `translateVirtToPhys` and the hardware walk, rights included, keep their answers. |
| Rights.HardwareSeesLastRequest | static_libs/paginator/src/arch/x86_64/x86_64_paging_controller.cpp:290-317 | After any run from a zeroed root, the four-level hardware walk of every admissible page gives the frame of the last successful request: writable exactly as asked, never user-accessible, never executable, and faulting if the present flag was not asked for. |
| Rights.GrantedAgainstRequested | static_libs/paginator/src/arch/x86_64/x86_64_paging_controller.cpp:86-88 | Combined rights never exceed the request and agree on writing; they equal the request exactly when a present page asks for neither user access nor execution. |
| Rights.TranslateAgainstHardware | static_libs/paginator/src/arch/x86_64/x86_64_paging_controller.cpp:234-263 | On a page that translates, the processor agrees with `translateVirtToPhys` exactly when the present flag was requested. |
| RecursiveWindow.WindowReachesTables | static_libs/paginator/src/arch/x86_64/x86_64_paging_controller.cpp:91-214 | For every memory with a self-mapped root and all indices, a hardware walk of each window page reaches the table the physical-pointer branch takes, exactly when the entries on the way are present, and may write it exactly when they are writable. |
| RecursiveWindow.WindowAddressAsWritten | static_libs/paginator/src/arch/x86_64/x86_64_paging_controller.cpp:14-15 | The address formed selects the right window page, but with the sign extension ORed in it is canonical exactly when its top index has the high bit set, so never for index 1; without it it is canonical. |
| AsWrittenLinks.AsWrittenKeepsPromiseExactly | static_libs/paginator/src/arch/x86_64/x86_64_paging_controller.cpp:134-181 | With the parent links as written and paging disabled, a successful call keeps the promise of `mapPage` exactly when the page's L1 table existed before, that is when neither faulty store runs. |
| AsWrittenLinks.EnabledFaultsExactly | static_libs/paginator/src/arch/x86_64/x86_64_paging_controller.cpp:134-198 | With paging enabled, the as-written code faults on the self slot of a new table, which the window does not show, exactly when the page's L1 table is missing and the allocator has the frames to get there. |
| AsWrittenLinks.PromiseKept | static_libs/paginator/src/arch/x86_64/x86_64_paging_controller.cpp:73-227 | In both modes, and with either style of links, a successful call for a page whose L1 table exists keeps the promise. |
| AsWrittenLinks.AsWrittenSucceedsExactly | static_libs/paginator/src/arch/x86_64/x86_64_paging_controller.cpp:134-227 | As written, with paging disabled, a call reports success exactly when the repaired code does. |
| AsWrittenLinks.AsWrittenTranslatesExactly | static_libs/paginator/src/arch/x86_64/x86_64_paging_controller.cpp:134-263 | After a reported success, in every represented state, the page translates to the requested page exactly when its L1 table was there; otherwise to 0, or, if the walk comes back to the new leaf, to what the data page holds. |
| AsWrittenLinks.FirstMappingDoesNotTranslate | static_libs/paginator/src/arch/x86_64/x86_64_paging_controller.cpp:134-181 | So the first mapping on any zeroed root reports success and translates to 0, unless the first index equals the third and the second the fourth. |
| AsWrittenLinks.AsWrittenLinksCounterexample | static_libs/paginator/src/arch/x86_64/x86_64_paging_controller.cpp:134-136 | A concrete root, allocator and request for which the as-written call reports success and the page does not translate. |
| PageEntry.AddressRoundTrip | static_libs/paginator/src/arch/x86_64/x86_64_paging_controller.cpp:290-317 | With the repaired macros an address comes back from an entry exactly when its twelve low bits are zero and it is below 2^52, for all flags. |
| PageEntry.AddressField | static_libs/paginator/src/arch/x86_64/x86_64_paging_controller.cpp:30-34 | Reading the address of any entry keeps bits 51 to 12 in place and drops all others. |
| PageEntry.EntryBits | static_libs/paginator/src/arch/x86_64/x86_64_paging_controller.cpp:290-317 | The bits of an entry one by one, for the numbers of the generic flags: 1, 8, 2, 0x8000 and the absence of 4 set bits 0, 1, 2, 7 and 63, and no other bit outside the address is set. |
| PageEntry.FlagsRoundTrip | static_libs/paginator/src/arch/x86_64/x86_64_paging_controller.cpp:290-317 | The flag field of an entry is separate from its address, and each hardware flag reports the generic flag it stands for. |
| PhysicalMemory.DescendExactly | static_libs/paginator/src/arch/x86_64/x86_64_paging_controller.h:8-42 | One level of the hardware walk, bit by bit: it faults without bit 0, goes on at bits 51 to 12, and combines bits 1, 2 and 63. |
| PageEntry.AsWrittenRoundTripExactly | static_libs/paginator/src/arch/x86_64/x86_64_paging_controller.cpp:34-39 | With the macros as written an address comes back exactly when it has no bits outside 3 and 5. |
| PageEntry.AsWrittenReadsNoPage | static_libs/paginator/src/arch/x86_64/x86_64_paging_controller.cpp:34-34 | As written, no entry at all reads back as a physical page. |
| PageEntry.AsWrittenCounterexample | static_libs/paginator/src/arch/x86_64/x86_64_paging_controller.cpp:34-39 | A concrete page that reads back as 0. |
| VirtualAddress.AddressOfSplit | static_libs/paginator/src/arch/x86_64/x86_64_paging_controller.cpp:52-55 | Every canonical address is rebuilt from its four indices, up to the offset in the page. |
| VirtualAddress.SplitExactly | static_libs/paginator/src/arch/x86_64/x86_64_paging_controller.cpp:52-55 | The four indices are the groups of nine bits from bit 39, 30, 21 and 12 on. |
| VirtualAddress.SplitOfAddress | static_libs/paginator/src/arch/x86_64/x86_64_paging_controller.cpp:52-55 | Every index tuple names a canonical page that splits back into it. |
| VirtualAddress.CanonicalTestExactly | static_libs/paginator/src/arch/x86_64/x86_64_paging_controller.cpp:61-65 | The test in the source accepts an address exactly when bits 63 to 48 agree; it means canonical exactly when bit 47 agrees with them. |
| VirtualAddress.CanonicalTestCounterexample | static_libs/paginator/src/arch/x86_64/x86_64_paging_controller.cpp:61-65 | An address with bit 47 alone set passes the test and is not canonical. |
| MemEssentials.Memset | static_libs/chihuahua_essentials/src/mem_essentials.cpp:53-109 | For every length, value and alignment each of the n target bytes becomes the value modulo 256 and nothing else changes. |
| MemEssentials.ByteLoopFills | static_libs/chihuahua_essentials/src/mem_essentials.cpp:101-106 | That effect is the one of the simple byte loop that `memset` replaces. |
| MemEssentials.Memcpy | static_libs/chihuahua_essentials/src/mem_essentials.cpp:12-23 | Byte by byte, for every placement of the regions; overlapping bytes are traced to their origin. |
| MemEssentials.CopyIsMoveExactly | static_libs/chihuahua_essentials/src/mem_essentials.cpp:12-23 | A forward copy is a move exactly when the destination is not above the source or the source window has their distance as a period. |
| MemEssentials.OverlapTestExactly | static_libs/chihuahua_essentials/src/mem_essentials.cpp:33-35 | The 64-bit test tells disjoint from overlapping regions exactly when they are at most 2^63 bytes; beyond, it always says disjoint. |
| MemEssentials.Memmove | static_libs/chihuahua_essentials/src/mem_essentials.cpp:25-51 | The four ways through the routine, with the backward loop as written or repaired, have the effect `MoveEffect`. |
| MemEssentials.RepairedMemmoveExactly | static_libs/chihuahua_essentials/src/mem_essentials.cpp:25-51 | With the backward loop repaired the destination gets the old source bytes and nothing else changes, exactly when the size is at most 2^63 or a forward copy would do. |
| MemEssentials.AsWrittenMemmoveExactly | static_libs/chihuahua_essentials/src/mem_essentials.cpp:43-48 | As written the backward loop moves both windows shifted up by one, which is the right move exactly when two particular bytes are equal already. |
| MemEssentials.BackwardCounterexample | static_libs/chihuahua_essentials/src/mem_essentials.cpp:43-48 | A concrete overlapping move with a wrong result. |
| MemEssentials.Memcmp | static_libs/chihuahua_essentials/src/mem_essentials.cpp:5-10 | The loop returns zero exactly for equal windows, and otherwise left byte minus right byte at the first offset where they differ. |
| MemEssentials.ComparisonExactly | static_libs/chihuahua_essentials/src/mem_essentials.cpp:5-10 | Zero exactly for equal windows, otherwise the difference at the first byte that differs. |
| ElfFormat.HeaderLayout | static_libs/elf/include/elf/elf_definitions.h:108-164 | A file header whose fields encode numbers, low byte first, at the offsets of the C structure is read as these numbers. |
| ElfFormat.SegmentLayout | static_libs/elf/include/elf/elf_definitions.h:225-258 | The same for a program header. |
| ElfFormat.SectionLayout | static_libs/elf/include/elf/elf_definitions.h:388-430 | The same for a section header. |
| ElfLoading.HeaderCheckExactly | static_libs/elf/src/elf_loader.cpp:8-24 | The header check accepts exactly the files with the right bytes, and calls a header corrupted exactly for a wrong magic number. |
| ElfLoading.LoadableExactly | static_libs/elf/src/elf_loader.cpp:83-86 | A program header is for loading exactly if its first four bytes encode 1. |
| ElfLoading.SelectedExactly | static_libs/elf/src/elf_loader.cpp:123-127 | A section is selected exactly if its type bytes encode 8, its size bytes are not all zero and bit 1 of its flags is set. |
| ElfLoading.SizesPassExactly | static_libs/elf/src/elf_loader.cpp:98-102 | A segment passes the bounds tests exactly if its offset is inside the file and both sums end inside the file or overflow; so one that ends with the file is rejected. |
| ElfLoading.SectionPassesExactly | static_libs/elf/src/elf_loader.cpp:129-133 | The same for a section and its one sum. |
| ElfLoading.PagesOfNegative | bootloader/src/loader/kernel_reader.cpp:81-85 | The page count of a negative size is rounded towards zero and taken modulo 2^64. |
| ElfLoading.ElfLoader.GetProgramHeaders | static_libs/elf/src/elf_loader.cpp:26-50 | Hands out `ProgTable`: the count is set before the size test, and the sum wraps at 64 bits; `TableInFileExactly` and `NullTableExactly` say when the result is a table. |
| ElfLoading.ElfLoader.GetSectionHeaders | static_libs/elf/src/elf_loader.cpp:52-76 | Hands out `SectionTable`, the same for the section headers. |
| ElfLoading.TableExceedsExactly | static_libs/elf/src/elf_loader.cpp:42-47 | The size test rejects a table exactly if it ends with the file or behind it, or overflows 64 bits by at least the size of the file. |
| ElfLoading.TableInFileExactly | static_libs/elf/src/elf_loader.cpp:42-75 | The pointer and count handed out for a header table of any file header lie in the file exactly when the end of the table did not wrap; for both tables. |
| ElfLoading.NullTableExactly | static_libs/elf/src/elf_loader.cpp:42-75 | For any file header, a null table with a positive count is handed out exactly when the checks pass, the count is positive, and the size test fails or the pointer itself wraps to null; for both tables. |
| ElfLoading.TableCounterexamples | static_libs/elf/src/elf_loader.cpp:42-49 | A concrete table that is handed out before the file, and a concrete null table with its count. |
| ElfLoading.ElfLoader.LoadExecutableProgram | static_libs/elf/src/elf_loader.cpp:78-116 | For every segment: the error is `SegmentError`, tests and allocation in the order of the source; on success fresh pages begin with the segment's file bytes, then zeros up to its memory size, and no other memory changes; on every error no memory changes, and a rejected segment keeps its pages. |
| ElfLoading.LoadFitsExactly | static_libs/elf/src/elf_loader.cpp:98-114 | For any parsed segment that passes the bounds tests, all reads stay in the file and all writes in the allocated pages exactly when no sum wraps and the file size fits the pages. |
| ElfLoading.WrappedSegmentCounterexample | static_libs/elf/src/elf_loader.cpp:98-102 | A concrete segment that passes the tests by wrapping. |
| ElfLoading.ElfLoader.LoadNoBitsSection | static_libs/elf/src/elf_loader.cpp:118-147 | For every section: the error is `SectionError`, with the test before the allocation; on success fresh pages begin with zeros for the section's size and no other memory changes; on every error no memory changes. |
| ElfLoading.SectionFitsExactly | static_libs/elf/src/elf_loader.cpp:129-145 | For any parsed section that passes the bounds test, the pages cover it exactly when its end did not wrap. |
| ElfLoading.WrappedSectionCounterexample | static_libs/elf/src/elf_loader.cpp:129-133 | A concrete section that passes the test by wrapping and gets no pages. |
| ElfLoading.PagesCover | bootloader/src/loader/kernel_reader.cpp:74-82 | Up to 256 MiB the cast to int is harmless and the rounded-up pages cover the size with less than a page to spare. |
| KernelLoading.LoadSegments | bootloader/src/loader/kernel_reader.cpp:74-102 | The first loop, for every table in the file: outcome and allocations are those of `RunSegments`; unless a load goes astray, only pages allocated by the loop are written; when it completes, every image placed stays intact, and the images are those of the loadable segments in order. |
| KernelLoading.SegmentsCompleteExactly | bootloader/src/loader/kernel_reader.cpp:74-102 | It completes exactly when every segment to load is in order and every allocation is granted. |
| KernelLoading.SegmentsStrayExactly | static_libs/elf/src/elf_loader.cpp:78-116 | It goes astray exactly when all loads before some header complete and that header is granted pages and passes the tests without being in order. |
| KernelLoading.LoadSections | bootloader/src/loader/kernel_reader.cpp:107-135 | The second loop: outcome and allocations are those of `RunSections`; unless a load goes astray, only pages allocated by the loop are written; the images of the first stay intact beside those of the selected sections. |
| KernelLoading.SectionsCompleteExactly | bootloader/src/loader/kernel_reader.cpp:107-135 | It completes exactly when every selected section passes without wrapping and every allocation is granted. |
| KernelLoading.SectionsStrayExactly | static_libs/elf/src/elf_loader.cpp:118-147 | The same for the second loop. |
| KernelLoading.LoadKernel | bootloader/src/loader/kernel_reader.cpp:64-139 | For every file and firmware the outcome of both loops is that of `RunBoth`; for every outcome but `WritesAstray` only pages allocated since the start are written and the file is as it was; if the loops complete, all images and the file hold at once, each in its own live pages. |
| KernelLoading.KernelCompletesExactly | bootloader/src/loader/kernel_reader.cpp:64-139 | Both loops complete exactly when both tables are usable, every segment and section to load is in order, and every allocation is granted. |
| KernelLoading.OnlyTheFileIsRead | bootloader/src/loader/kernel_reader.cpp:64-139 | Nothing outside the file matters: two memories with the same file in the same place give the same outcome, allocations and headers. |
| KernelLoading.EverythingLoaded | bootloader/src/loader/kernel_reader.cpp:71-135 | What that means byte by byte, in one memory: every loadable segment has its file bytes then zeros, every selected section zeros. |
| KernelLoading.ImagesApart | bootloader/src/loader/kernel_reader.cpp:75-92 | No two images share a byte and none touches the pages of the file. |
| FileReading.QueryInfo | bootloader/src/loader/kernel_reader.cpp:175-226 | The retry loop ends with the exit that the firmware's answers determine, after at most five queries, for 256 bytes first and then each time for the size the firmware asked for; while no allocation is refused there is exactly one pool buffer, of the size reported. |
| FileReading.QueryExactly | bootloader/src/loader/kernel_reader.cpp:190-226 | The loop in closed form: after fewer than five answers that the buffer is too small, the next answer decides, success or not; after five the loop gives up; an allocation counts as refused exactly if one of those made on the way was. |
| FileReading.SizeRejectedExactly | bootloader/src/loader/kernel_reader.cpp:228-235 | A file size is rejected exactly if it is 0 or above 256 MiB. |
| FileReading.NeededExactly | bootloader/src/loader/kernel_reader.cpp:237-238 | The pages asked for cover the file with less than 4096 bytes to spare. |
| FileReading.ErrorForExactly | bootloader/src/loader/kernel_reader.cpp:265-275 | A corrupted volume and missing media have their own error codes, every other status the unknown one. |
| FileReading.ReadFile | bootloader/src/loader/kernel_reader.cpp:175-279 | The exit is a function of the firmware's answers; only the pages allocated for the file are written; no pool buffer leaks on any exit; the pool discipline holds exactly when those answers refuse no pool allocation on the way and the final read, if it is reached, succeeds; bytes returned are the file's, at most 256 MiB, in fresh pages that cover them. |
| FileReading.DoubleFreeRun | bootloader/src/loader/kernel_reader.cpp:244-278 | A concrete firmware with which the info buffer is freed twice. |
| KernelReader.ReadKernel | bootloader/src/loader/kernel_reader.cpp:59-139 | Reading and loading together, for every file and firmware: the outcome is determined by the answers and the bytes read; for every outcome but `WritesAstray` only pages allocated on the way are written; when both loops complete, segments, sections and file contents are in place in one memory. |
| SampleKernel.SampleRun | bootloader/src/loader/kernel_reader.cpp:59-139 | A concrete kernel file and firmware with which the file is read, both loops complete and the segment is in place. |
| Gop.SetAppropriateFramebuffer | bootloader/src/gop.cpp:6-69 | The mode set is the best candidate, the current mode on ties and otherwise the lowest index; the framebuffer record describes it; failure only if setting it fails. |
| Gop.BestIsUnique | bootloader/src/gop.cpp:49-53 | There is only one such choice. |
| Gop.DeviationIsDistance | bootloader/src/gop.cpp:39-47 | For resolutions up to 2^30 the 32-bit arithmetic computes the absolute difference of the sums of width and height. |
| Gop.DeviationIsBlindToShape | bootloader/src/gop.cpp:44-47 | The deviation is zero exactly when width plus height is as preferred, whatever the shape. |

## Left out

- `unmapPage`, `invalidatePage`, `activateRootPageTable`: bodies still to be written, or one inline instruction.
- The index test at line 57 of the paging controller: an index of nine bits cannot exceed its mask, so it never fires.
- The root page table is reached by the caller's own pointer in both modes; whether that pointer is mapped is not modelled.
- A root whose slot 1 holds neither 0, nor a link back, nor a link that `mapPage` stored: pages with top index 1 are then outside the statements about pages with an index 1.
- Huge pages: the flag is carried into the leaf entry, but the hardware walk always has four levels.
- The clearing of a frame is modelled on words and not tied to the bytes of `MemEssentials.Memset`; words that were never stored read as zero.
- TLB contents, other CPUs and the page-table wrapper class.
- Strings, console output, opening the volume and the file, the memory map, `panic`, and the record that `readKernel` returns, which is always the invalid one.
- FileReading.ReadFile: after a refused page allocation the source reads to an address it never got; the model stops there with the exit `NoPages`.  The test of the page count against `SIZE_MAX` cannot fire and is omitted.
- FileReading.Pool: handles of freed pool buffers are never issued again, and the uninitialised pointer of the first allocation is no live buffer.
- SelfSlots.SelfSlotRequestHarmlessExactly: for data pages that hold zeros; for other contents `SelfSlots.SelfSlotRequest` says where the walk goes on.
- Refinement.MapPageUpdatesTranslation: for pages without an index 1; requests for the others are the subject of `SelfSlots` and `TopIndexOne`.
- AsWrittenLinks.AsWrittenKeepsPromiseExactly: if the first index equals the third and the second the fourth, the walk can come back to the new leaf, and then the physical page must not be a table frame; what happens after a fault with paging enabled is not modelled.
- KernelLoading.LoadKernel: the loops stop at the outcomes `NullTable`, `StrayTable` and `WritesAstray`; what the source does to memory beyond that point is not modelled.
- KernelReader.ReadKernel: a file shorter than its own header is the separate outcome `ShortFile`; the source parses whatever follows in the page.
- Alignment of page allocations is not recorded, as no statement needs it.
- The overflow of `bufferSize + 4095` in the allocation callback is undefined in C and wraps here; it only concerns segments that fail the bounds tests afterwards.
- Gop.DeviationIsDistance: at a sum of exactly 2^31 the C arithmetic is undefined; the model wraps, which gives the same magnitude.
