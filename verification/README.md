# Navy: memory, tables and tasks

Navy is a small x86_64 kernel with its own heap, frame allocator, page tables, ELF loader,
hash map, scheduler and message passing, booted by a loader whose installer writes it to a disk.
This project models these parts in Dafny and proves what they promise.  `dafny verify dfyconfig.toml`
checks all of it.

The files follow the program:

- **The heap** (`liballoc.c`). `HeapLayout` describes a heap as a value: blocks of pages (majors),
  each with an address-ordered list of cells (minors). `HeapSpec` says what malloc, free and a
  shrinking realloc do to such a value, and `HeapRuns` what malloc does past the 32 bits of its headers
  and what every sequence of calls keeps. `HeapLinks`
  and `HeapImage` tie the value to linked headers in memory, and `Liballoc.Allocator` is the code,
  working on those headers field by field. Its `Valid()` says that the headers represent the value,
  so each method's contract is an equation between values. `malloc` starts at the best bet, restarts
  at the root, falls from one case into the next and grows the list as in the source.
- **Frames, page tables and programs** (`pmm.c`, `vmm.c`, `vmm.h`, `elf.c`). Physical memory is one byte
  array and tables are frames of it. `Pmm.Allocator` is the bitmap allocator, `PageTables` the meaning
  of a tree of tables as a partial map from virtual pages to entries, `Paging` the same tables as the processor
  reads them (section 4.5 of the Intel SDM, volume 3A), `Vmm.Manager` the code that walks,
  grows and writes the tables, `VmRuns` what holds over whole runs of address-space operations, and
  `Elf` the loader on top of both.
- **The hash map** (`map.c`). `HashMap.Map` keeps the memory of the nodes as one map for each
  field, so that relinking a node is an update of one of them; ghost fields list the chains.
- **The installer** (`limine-install.c`). `BlockCache.Cache` is the one-block write-back cache,
  `MbrInstall` the installation on a disk with a master boot record, `Crc32` the table-driven CRC.
- **Tasks and messages** (`sched.c`, `syscall.c`, `vec.c`, `vec.h`). `SchedSpec` is the transition
  system, `SchedRuns` what holds in every run of it, `Sched.Scheduler` the code, proved to take exactly those
  steps, and `Vec.Vector` the growable vector that the mailboxes are.

Where a call can stop the kernel at a failed assertion or never return, its result says so:
`Done`, `Halted` or `Hung`.

## What the proofs bring to light

- `allocate_new_page` and the headers compute in 32 bits, and behind a new major `malloc` falls through to CASE 2, which
  does not look at the space. The pointer returned has the requested bytes behind it if and only if request, alignment and
  headers are below 4 GiB (`HeapRuns.PointerHasRoomIff`), and the heap is in order afterwards if and only if they are a
  page below that or nothing was granted (`HeapRuns.MallocSoundIff`); up to there every run is safe, and no further
  (`HeapRuns.EveryRunIsSafe`). In an empty heap such a `malloc` can ask for pages twice and leave the root empty
  (`HeapRuns.FourGigabytes`).
- A `realloc` of a live pointer copies to NULL if and only if the request grows a nonempty one, the system has
  nothing to give and no listed block has room (`Liballoc.Allocator.Realloc`); one `malloc` leads to such a heap
  (`Liballoc.CopyToNullReached`).
- `pmm_free` does not look whether the pages are in use. The counter of usable pages is right afterwards if and only
  if none of them was free (`Pmm.FreeCountsIff`).
- `pmm_find_pages` uses the size of the bitmap in bytes as its bound on pages, and calls itself again
  without having changed anything. It returns if and only if it starts at page 0 or there is a run behind
  the last allocation (`Pmm.SearchEndsIff`); `Pmm.RetryMissesLowRun` is a bitmap with 15 free pages
  on which it never returns, and `Pmm.HangsAfterFree` gets there from `pmm_init` by one allocation and its free.
- `pmm_init` counts the whole pages of the bitmap off although they were never counted in. `pmm_alloc` stops the kernel if and
  only if exactly so many pages are free, rather than when none is (`Pmm.Allocator.Alloc`).
- `load_elf_module` copies a segment to the start of its page. A program sees byte k of it at `p_vaddr` + k, whatever the file
  holds, if and only if the address is page-aligned (`Elf.SeenAt`, `Elf.PromiseKeptIff`).
- `vmm_unmap` stops the kernel if and only if some page of the range has no table (`Vmm.Manager.UnmapRange`).
- The sizes of the two halves of stage 2 are 16-bit fields. The boot sector is told where all of stage 2 is
  if and only if the first half is below 64 KiB (`MbrInstall.BootSectorLoadsStage2`); the writes take bytes from
  behind the boot image if and only if stage 2 is neither empty nor at least a sector (`MbrInstall.FirstHalfFits`).
- The exit code of a process is cut down to an `int` (`SchedSpec.AsInt`).
- `yield_task` searches for ever if and only if no process is running, and a send to a process that is gone stops the kernel
  (`SchedSpec.StepFailsIff`).

## Model

| member | source | states |
|---|---|---|
| HeapLayout.SkipIsSound | sources/libs/liballoc/liballoc.c:318-331 | A block with less free space in total than a request needs has no gap for it, so CASE 1 never skips a usable block. |
| HeapLayout.FreeIsSumOfGaps | sources/libs/liballoc/liballoc.c:318 | Size minus usage of a block is the sum of its front, middle and tail gaps. |
| HeapLayout.AllCellsApart | sources/libs/liballoc/liballoc.c:366-523 | Two allocations, headers included, overlap nowhere, in one block or in two. |
| HeapLayout.PayloadInsideCell | sources/libs/liballoc/liballoc.c:27-39 | The pointer handed out is 16-aligned, and the requested bytes behind it and the stored offset before it lie inside the cell, behind its header. |
| HeapSpec.FreshBlockFitsIff | sources/libs/liballoc/liballoc.c:182-221 | The recorded size of a new major covers the request it was obtained for if and only if the sum stays a page below the 32-bit range. |
| HeapSpec.FreshPagesHoldIff | sources/libs/liballoc/liballoc.c:182-221 | Its pages hold the request if and only if the sum stays below 2^32. |
| HeapSpec.FewestPages | sources/libs/liballoc/liballoc.c:182-206 | Up to there they are the fewest pages that do, though never less than 16. |
| HeapSpec.SearchComplete | sources/libs/liballoc/liballoc.c:316-553 | malloc asks the system for pages only when no gap of any listed major holds the request, and fails only if the system then gives none. |
| HeapSpec.OversizedNeverFits | sources/libs/liballoc/liballoc.c:318-331 | CASE 1 passes over every listed major for a request past that bound. |
| HeapRuns.TakenAtOnceIff | sources/libs/liballoc/liballoc.c:318-331 | A new major is not passed over for a request past that bound if and only if the sum stays below 2^32: its recorded size is 0 then, and the free total wraps around. |
| HeapRuns.PointerHasRoomIff | sources/libs/liballoc/liballoc.c:353-391 | The pointer malloc returns has the requested bytes behind it, on pages of one major, if and only if request, alignment and headers are below 2^32. |
| HeapRuns.MallocSoundIff | sources/libs/liballoc/liballoc.c:234-567 | After malloc blocks are apart, cells ordered and inside their block, no block empty and the totals right, if and only if the request fits or nothing was granted. |
| HeapRuns.OldCellsStay | sources/libs/liballoc/liballoc.c:234-567 | Whatever the request, every allocation is still there, unchanged. |
| HeapRuns.StartsAtBet | sources/libs/liballoc/liballoc.c:299-331 | If the best bet has more bytes free in total than the request takes with its header, the pointer is to the first gap of the first block from it on that holds the request, or else of the first from the root; without such a best bet, of the first from the root. The pointer is the 16-aligned one behind the header and the offset. |
| HeapRuns.ListGrows | sources/libs/liballoc/liballoc.c:208-221 | malloc keeps the order of the majors, appends what it obtains, and obtains one for a request that fits only if none of them has room. |
| HeapRuns.FourGigabytes | sources/libs/liballoc/liballoc.c:253-391 | malloc(2^32) in an empty heap asks for pages twice, leaves the root empty and returns a pointer to 32 bytes. |
| HeapSpec.MallocCells | sources/libs/liballoc/liballoc.c:366-523 | After malloc the heap holds the new cell and every old one unchanged, apart from the new one. |
| HeapSpec.FreeWF | sources/libs/liballoc/liballoc.c:634-677 | free keeps the layout and leaves no empty block. |
| HeapSpec.FreeCells | sources/libs/liballoc/liballoc.c:636-666 | After free exactly the other cells are left, each as it was. |
| HeapRuns.ListShrinks | sources/libs/liballoc/liballoc.c:653-666 | Of the list of majors free takes away only one that it emptied. |
| HeapSpec.ShrinkCells | sources/libs/liballoc/liballoc.c:768-774 | A realloc to no more than before changes the recorded request of the one cell and no other cell. |
| HeapSpec.FreeSums | sources/libs/liballoc/liballoc.c:636-663 | The sums of cell sizes and of block sizes fall by exactly what the counters are lowered by. |
| HeapSpec.InsertSums | sources/libs/liballoc/liballoc.c:378-380 | A new cell raises the usage of its block by its size and header, and the payload total by its size. |
| HeapSpec.UsableBytesApart | sources/libs/liballoc/liballoc.c:27-39 | A requested byte belongs to no other live allocation and to no header. |
| HeapRuns.EveryRunIsSafe | sources/libs/liballoc/liballoc.c:234-785 | In every run of malloc, free and shrinking realloc from the empty heap, up to the first granted request past the bound, the layout is well formed and counted and live allocations never share a byte with each other or with a header; with that request it is no longer so. |
| HeapLinks.LinkCellCorrect | sources/libs/liballoc/liballoc.c:366-523 | The pointer writes of each case leave all headers linked in address order, with live magic and right block, the new one among them. |
| HeapLinks.UnlinkCellCorrect | sources/libs/liballoc/liballoc.c:641-647 | Unlinking a minor leaves every other header linked in address order, with live magic and right block, and this one dead. |
| HeapImage.PlaceRepresents | sources/libs/liballoc/liballoc.c:366-523 | Linking a new minor, counting it and storing its offset takes a memory that represents a heap to one that represents the heap with the cell. |
| HeapImage.GrowRepresents | sources/libs/liballoc/liballoc.c:214-221 | Appending a major keeps the doubly linked list from the root and the allocated total. |
| HeapImage.DropRepresents | sources/libs/liballoc/liballoc.c:653-666 | Dropping an emptied major repairs root, best bet, neighbours and total. |
| HeapImage.UnalignUndoesAlign | sources/libs/liballoc/liballoc.c:41-49 | UNALIGN recovers the start of the payload from every pointer that malloc handed out and that is still live. |
| Liballoc.Allocator.Malloc | sources/libs/liballoc/liballoc.c:234-567 | Terminates. The search begins at the best bet if that has more than enough free bytes, goes on behind it and then from the root, and the request goes to the first block with room, aligned; the new best bet is the old one or one with more free bytes, and no block that was looked at had more. No byte but the stored offset changes, and links and counters are in order if and only if the request fits or nothing was granted. |
| Liballoc.Allocator.MallocFitting | sources/libs/liballoc/liballoc.c:316-553 | The search with all its cases, for a request that fits. |
| Liballoc.Allocator.NoteBest | sources/libs/liballoc/liballoc.c:321-326 | A visited major becomes the best bet if and only if it has strictly more free bytes than the best one known. |
| Liballoc.Allocator.MallocOversized | sources/libs/liballoc/liballoc.c:253-391 | The search for one that does not, with exactly the headers, totals and bytes it leaves behind. |
| Liballoc.Allocator.AllocateNewPage | sources/libs/liballoc/liballoc.c:182-232 | A fresh major with 32-bit sizes, or NULL and one warning. |
| Liballoc.Allocator.Free | sources/libs/liballoc/liballoc.c:569-685 | A live pointer's cell is removed and an emptied major returned; an emptied best bet is forgotten, and otherwise the major of the cell becomes the best bet if it has more free bytes now. NULL and pointers without live magic change only the warning or error counters. |
| Liballoc.Allocator.ReconsiderBest | sources/libs/liballoc/liballoc.c:669-676 | After a free the best bet is the major of the freed cell if there was one and that has, as int, strictly more free bytes, and otherwise what it was. |
| Liballoc.Allocator.Memcpy | sources/libs/liballoc/liballoc.c:120-143 | Word by word and then byte by byte, the bytes are copied and no other changes. |
| Liballoc.Allocator.Realloc | sources/libs/liballoc/liballoc.c:701-785 | Each outcome: free, malloc, error, shrink in place, move that keeps the old bytes and every other allocation, or the copy to NULL after a failed malloc, with the exact condition for it. |
| Liballoc.CopyToNullReached | sources/libs/liballoc/liballoc.c:768-784 | After one malloc of 100 bytes a realloc to 70000 copies to NULL when the system has no memory left. |
| Liballoc.Allocator.Use | sources/libs/liballoc/liballoc.c:27-39 | A client that writes a byte it asked for changes nothing else, and no header. |
| Pmm.SearchEndsIff | sources/arch/x86_64/pmm.c:83-123 | The search with its retry returns if and only if it starts at page 0 or finds a run at or above last_page. |
| Pmm.RetryMissesLowRun | sources/arch/x86_64/pmm.c:113-121 | A bitmap with 15 free pages on which the retry never ends. |
| Pmm.HangsAfterFree | sources/arch/x86_64/pmm.c:113-192 | From pmm_init over 16 pages one allocation and its free lead there. |
| Pmm.NothingFromZero | sources/arch/x86_64/pmm.c:113-119 | From page 0 an empty range is returned only if there is no run anywhere in the scanned window. |
| Pmm.Allocator.Scan | sources/arch/x86_64/pmm.c:87-102 | The loop finds the lowest run of free pages at or above last_page within the window. |
| Pmm.Allocator.FindPages | sources/arch/x86_64/pmm.c:83-123 | That run, rounded up to pages, exactly its bits set, last_page at its end; otherwise nothing changes. |
| Pmm.Allocator.Alloc | sources/arch/x86_64/pmm.c:125-133 | It halts if and only if as many pages are free as the counter is short by, and hangs if and only if no run is found from a last_page other than 0; live ranges stay disjoint, free and live pages make up the usable ones, and the counter keeps its distance to the number of clear bits. |
| Pmm.Allocator.Free | sources/arch/x86_64/pmm.c:135-140 | Freeing any range of the bitmap clears exactly its bits and counts its pages once more; for a live one it keeps all of that. |
| Pmm.FreeCountsIff | sources/arch/x86_64/pmm.c:38-45 | The counter is right after a free if and only if none of the pages was free before. |
| Pmm.LiveAfterAlloc | sources/arch/x86_64/pmm.c:125-133 | A range taken from the clear pages is disjoint from all live ones. |
| Pmm.LiveAfterFree | sources/arch/x86_64/pmm.c:135-140 | The pages of a live range are none of the clear ones, and giving it back keeps the partition. |
| Pmm.Init | sources/arch/x86_64/pmm.c:147-192 | Over disjoint aligned usable entries that the bitmap covers, the clear bits are exactly the usable pages that the bitmap does not touch; the kernel halts if and only if no entry has room. |
| Pmm.EntryIsNew | third-party/stivale/STIVALE2.md:659-663 | With usable entries apart, no page is freed twice at boot. |
| Pmm.UsableIs | sources/arch/x86_64/pmm.c:173-184 | A page is usable if and only if it lies in a free entry. |
| Pmm.BitmapTakes | sources/arch/x86_64/pmm.c:158-170 | Putting the bitmap at the start of its entry costs exactly the pages that its bytes touch. |
| Pmm.BitmapCovers | sources/arch/x86_64/pmm.c:151-153 | The bitmap has a bit for every page below the end of the last entry, but for fewer than eight. |
| Memory.LoadStored | sources/arch/x86_64/vmm.h:35-61 | A stored 64-bit entry is read back, and entries elsewhere are unchanged. |
| PageTables.AddressIndexIsPageIndex | sources/arch/x86_64/vmm.h:28-33 | The index macros on an address pick the indices of its 36-bit page number. |
| PageTables.IndicesDetermine | sources/arch/x86_64/vmm.h:28-33 | The four indices determine the page, so no two pages share a last-level entry. |
| PageTables.MadeEntry | sources/arch/x86_64/vmm.h:63-78 | A made entry has bits 0 and 1 set, bit 2 if and only if it is for user code, bits 3 to 11 clear, and the frame of the address above. |
| PageTables.PathsMeet | sources/arch/x86_64/vmm.c:90-102 | Walks that meet in a table came through the same indices, and below the shared slots from the same root. |
| PageTables.HungInWalk | sources/arch/x86_64/vmm.c:66-73 | Hanging in a cleared table changes the meaning of no page in any space. |
| PageTables.LeafWalk | sources/arch/x86_64/vmm.c:101 | Writing a last-level entry changes the meaning of one page, in the spaces that share its slot, and nothing else. |
| PageTables.PrivateSlots | sources/arch/x86_64/vmm.c:225-228 | Below the shared slots two spaces have no table in common. |
| PageTables.RemappedStep | sources/arch/x86_64/vmm.c:110-116 | The flat view of n pages and of one more is the flat view of n + 1. |
| PageTables.CopiedCreates | sources/arch/x86_64/vmm.c:215-233 | A new root with the copied slots sees what the kernel sees there and nothing below, and the other spaces what they saw. |
| PageTables.ZeroedDestroys | sources/arch/x86_64/vmm.c:235-239 | Clearing a root changes no other space. |
| Paging.ProcessorSees | sources/arch/x86_64/vmm.h:28-61 | The walk of the processor through the bytes of the tables, nine bits of the address for each and rights taken from all four entries, finds what the model says; so every entry on the way down lets user code through. |
| Paging.MappedIsSeen | sources/arch/x86_64/vmm.c:104-121 | A mapped range is seen by the processor, byte for byte, writable, and by user code if and only if it was mapped so. |
| Paging.UnmappedIsFault | sources/arch/x86_64/vmm.c:203-213 | Every access to an unmapped range faults. |
| Vmm.Manager.GetPmlAlloc | sources/arch/x86_64/vmm.c:55-74 | The table behind an entry, hung in on a live page if it was absent, no translation changed. |
| Vmm.Manager.MapPage | sources/arch/x86_64/vmm.c:90-102 | The page has an entry for the frame with bits 0 and 1 set, bit 2 if and only if it is for user code and bits 3 to 11 clear; every other page of every space means what it meant, and the tables hung in have open entries above them. |
| Vmm.Manager.MapRange | sources/arch/x86_64/vmm.c:104-121 | The processor sees the bytes of the physical range in the virtual one, writable, and user code if and only if is_user is set; for every other address of every space an access ends as before, although tables are allocated on the way. |
| Vmm.Manager.UnmapRange | sources/arch/x86_64/vmm.c:203-213 | Every access to the range faults and every other ends as before; it halts if and only if some page has no table. |
| Vmm.Manager.SpaceCreate | sources/arch/x86_64/vmm.c:215-233 | A fresh root on a live page; through it the processor sees what the kernel's space shows from slot 255 on and nothing below, and in other spaces what it saw. |
| Vmm.Manager.SpaceDestroy | sources/arch/x86_64/vmm.c:235-239 | The root is cleared and freed; every other space is unaffected. |
| Vmm.Manager.ReachedIsUsed | sources/arch/x86_64/vmm.c:66-72 | Every table that a walk passes through is on a page marked used. |
| VmRuns.Isolation | sources/arch/x86_64/vmm.c:215-239 | Over every run of create, map, unmap and destroy, with stores to data in between, the pages of a space below slot 255 keep their meaning unless it is itself mapped or unmapped. |
| VmRuns.SharedForever | sources/arch/x86_64/vmm.c:225-228 | A slot taken over from the kernel translates identically in both for as long as the space lives. |
| VmRuns.CreatedShares | sources/arch/x86_64/vmm.c:215-233 | So a new space and the kernel see the same pages in the kernel's slots ever after. |
| VmRuns.ReachedOnce | sources/arch/x86_64/vmm.c:66-72 | A table is reached through one entry only, but for root slots that were copied. |
| Elf.LoadElfModule | sources/kernel/elf.c:35-63 | After loading, every byte of every segment is seen by the processor in the new space, by user code and writable: file bytes and then zeros, for all segments at once if their pages are disjoint; the other spaces keep their meaning below the shared slots and off the pages of all segments. |
| Elf.OthersUnaffected | sources/kernel/elf.c:45-59 | If no segment reaches a shared slot, loading changes no page of any other space. |
| Elf.LoadSegment | sources/kernel/elf.c:47-56 | Frames, mapping, copy and zero fill of one segment, with data frames apart from table frames. |
| Elf.AlignedLoaded | sources/kernel/elf.c:53-55 | With a page-aligned address, p_vaddr + k translates to file byte k or to zero. |
| Elf.SeenAt | sources/kernel/elf.c:53-55 | With any address, the program sees at p_vaddr + k the byte of the segment that is as much further on as the address is into its page. |
| Elf.PromiseKeptIff | sources/kernel/elf.c:53-55 | So it sees byte k there, whatever the file holds, if and only if the address is aligned, or nothing of the file or of the segment is seen. |
| Elf.HeaderLayout | sources/libs/navy/elf.h:74-84 | Of a program header stored field by field as the gABI lays it out, the loader takes type, offset, address and both sizes each from its own place. |
| Elf.FileHeaderLayout | sources/libs/navy/elf.h:56-72 | So it does with place, size and number of the program headers. |
| Elf.ProgramLoaded | sources/kernel/elf.c:42-59 | Of an image that holds a file header and a list of program headers, every byte of every segment of type 1 is loaded where its header says. |
| Elf.LoadProgram | sources/kernel/elf.c:35-63 | Loading such an image leaves a space in which user code reads and writes those bytes. |
| HashMap.MapHash | sources/libs/navy/map.c:21-27 | The loop computes the hash, with sign-extended characters and 32-bit wrap-around. |
| HashMap.HashOfOneMore | sources/libs/navy/map.c:21-27 | The hash of no characters is 5381; each further one multiplies by 33 and is added without carry, in 32 bits. |
| HashMap.SignedChar | sources/libs/navy/map.c:24 | A character from 128 on is added as a negative number. |
| HashMap.MaskIsRemainder | sources/libs/navy/map.c:44-48 | Masking with one less than a power of two takes the remainder, for every number and every power. |
| HashMap.InHashBucket | sources/libs/navy/map.c:44-55 | A key's node is in the chain of bucket hash mod nbuckets and in no other. |
| HashMap.FiledAdd | sources/libs/navy/map.c:51-55 | Adding a node with a new key keeps one node for each key, in its bucket. |
| HashMap.FiledRemove | sources/libs/navy/map.c:159-168 | So does taking one out. |
| HashMap.ThreadStep | sources/libs/navy/map.c:67-72 | Moving a node to the common list loses no node and breaks no bucket still to come. |
| HashMap.Map.GetRef | sources/libs/navy/map.c:95-108 | The pointer to the pointer to the node of the key, or none if and only if the key is absent. |
| HashMap.Map.Get | sources/libs/navy/map.c:127-130 | The dictionary's value, or none. |
| HashMap.Map.Thread | sources/libs/navy/map.c:62-73 | All nodes of the map on one list, none twice. |
| HashMap.Map.Refile | sources/libs/navy/map.c:80-89 | All listed nodes back in the buckets of their hashes. |
| HashMap.Map.Resize | sources/libs/navy/map.c:58-92 | The dictionary and every node survive the rehash, with the new table and, when there is no memory, with the old one. |
| HashMap.Map.Set | sources/libs/navy/map.c:133-156 | Insertion or replacement in the dictionary; a failure changes nothing, and it fails exactly without a node or without room. |
| HashMap.Map.Remove | sources/libs/navy/map.c:159-168 | The key is removed and its node freed. |
| HashMap.EachKeyOnce | sources/libs/navy/map.c:171-193 | The keys in the order of iteration are the keys of the map, each once. |
| HashMap.Map.Next | sources/libs/navy/map.c:179-193 | The k-th call yields the k-th of these keys, and NULL after the last. |
| Crc32.TableRight | third-party/limine/limine-install.c:57-101 | Each of the 256 entries is eight steps of the reflected division of its index. |
| Crc32.IterateDistributes | third-party/limine/limine-install.c:103-113 | Steps that distribute over addition do so any number of times; the reduction is linear. |
| Crc32.StepXor | third-party/limine/limine-install.c:103-113 | One reduction step of a sum is the sum of the steps. |
| Crc32.FeedByte | third-party/limine/limine-install.c:108 | The eight bits of a byte may be added to the register at once. |
| Crc32.RoundDividesByte | third-party/limine/limine-install.c:108 | One lookup divides in the eight bits of one byte. |
| Crc32.Compute | third-party/limine/limine-install.c:103-113 | The loop computes the CRC as bit-at-a-time division defines it, for every byte string. |
| Crc32.CheckValue | third-party/limine/limine-install.c:103-113 | The CRC of the nine digits from 1 to 9 is 0xcbf43926, as for every CRC-32 of this kind. |
| Crc32.CrcOfMessageWithCrc | third-party/limine/limine-install.c:103-113 | A message followed by its stored CRC always has one and the same CRC. |
| BlockCache.Cache.FlushCache | third-party/limine/limine-install.c:159-180 | Afterwards the disk holds the logical contents, which stay the same. |
| BlockCache.Cache.CacheBlock | third-party/limine/limine-install.c:182-209 | Changing the cached block changes nothing logically; it fails if and only if the block is not whole on the device. |
| BlockCache.Cache.DeviceRead | third-party/limine/limine-install.c:211-231 | Exactly the logical bytes, across any block boundaries. |
| BlockCache.Cache.DeviceWrite | third-party/limine/limine-install.c:233-254 | Exactly the target bytes change logically; a failed write has reached the disk up to some point. |
| BlockCache.OverwriteInBlock | third-party/limine/limine-install.c:248-249 | A write into the cached block is a write into what it is laid over. |
| BlockCache.SameBlock | third-party/limine/limine-install.c:213-228 | Bytes up to the end of a block lie in the same block, so each turn of the loops stays inside one. |
| MbrInstall.FirstHalfFits | third-party/limine/limine-install.c:450-455 | The first half lies inside stage 2 if and only if stage 2 is empty or at least a sector. |
| MbrInstall.SizesCover | third-party/limine/limine-install.c:450-455 | The two 16-bit sizes cover stage 2 if and only if the first half is below 64 KiB. |
| MbrInstall.WritesInstall | third-party/limine/limine-install.c:584-611 | The overlapping writes leave each byte of the disk as the installation intends. |
| MbrInstall.BootSectorLoadsStage2 | third-party/limine/limine-install.c:598-602 | A boot sector that follows its fields loads all of stage 2 if and only if the halves fit their fields. |
| MbrInstall.CheckMbr | third-party/limine/limine-install.c:338-448 | The read-only checks decide whether the disk looks like one with a master boot record, and change nothing. |
| MbrInstall.LooksLikeMbrIs | third-party/limine/limine-install.c:338-448 | The checks byte by byte: timestamp, disk number, signature, the four active flags and the three file systems. |
| MbrInstall.HasGptIs | third-party/limine/limine-install.c:303-323 | The probe looks for "EFI PART" at 512 and at 4096. |
| MbrInstall.InstalledIs | third-party/limine/limine-install.c:584-611 | The disk afterwards, part by part: code from the image, timestamp and partition table from the disk, the four location fields, stage 2, and the rest as it was. |
| MbrInstall.Install | third-party/limine/limine-install.c:300-619 | A successful installation leaves exactly that disk; it succeeds if and only if the device is large enough, has no GUID partition table and passes the checks, and the image holds all that is written of it. |
| Vec.Vector.Expand | sources/libs/navy/vec.c:25-38 | Doubling keeps the contents and makes room for one more. |
| Vec.Vector.Push | sources/libs/navy/vec.h:38-40 | One more element at the end, or nothing when there is no memory. |
| Vec.Vector.Pop | sources/libs/navy/vec.h:48 | The last element, and the others in their order. |
| SchedSpec.SearchIs | sources/kernel/sched.c:62 | The search ends if and only if some process is running, at the first one in cyclic order. |
| SchedSpec.StepWellFormed | sources/kernel/sched.c:42-92 | Every step keeps pids equal to indices, last_pid equal to the table length and messages in the mailbox of their receiver. |
| SchedSpec.StepFailsIff | sources/kernel/syscall.c:58-59 | A step hangs only in a switch with nobody running and halts only in a send to a process that is not running. |
| SchedRuns.AlwaysWellFormed | sources/kernel/sched.c:167-179 | In every state of every run process i has pid i and last_pid is the length of the table. |
| SchedRuns.RegistersKept | sources/arch/x86_64/arch.c:124-140 | The registers kept for a process are those of its last preemption, or its initial ones. |
| SchedRuns.OneRunsBetweenSwitches | sources/kernel/sched.c:52-71 | Between two switches one process runs, and no registers that are kept change. |
| SchedRuns.ResumedAsInterrupted | sources/kernel/sched.c:56-68 | A switch resumes a running process with exactly those registers. |
| SchedRuns.NeverRunsAgain | sources/kernel/syscall.c:31-38 | A process that has exited stays so, with its return value. |
| SchedRuns.ExitIsFinal | sources/kernel/syscall.c:31-38 | In every state after a call of exit the process waits for its death, with a return value in the range of an int that differs from the code by a multiple of 2^32. |
| SchedRuns.ExitedIsGone | sources/kernel/syscall.c:36-62 | No later switch dispatches it, and no later send to it succeeds. |
| SchedRuns.TickGoesOn | sources/kernel/sched.c:52-56 | A tick that is no switch lets the process go on with exactly the registers it was interrupted with, and adds one to the count. |
| SchedRuns.SwitchGoesOn | sources/kernel/sched.c:56-68 | A switch sets the count back to 0 and goes to the next running process around the table. |
| SchedRuns.ForcedThenSwitch | sources/kernel/sched.c:73-76 | The first tick after a forced yield, or after a receive that has to wait, is a switch. |
| SchedRuns.TenTicksApart | sources/kernel/sched.c:52-71 | Two consecutive switches without either between them are exactly ten ticks apart. |
| SchedRuns.PushedProcess | sources/kernel/sched.c:167-179 | A new process is numbered behind the others and starts with its four arguments in rdi, rsi, rdx and rcx; the others are as they were. |
| SchedRuns.BoundedWaiting | sources/kernel/sched.c:52-76 | A process that stays running is dispatched within SWITCH_TICK + 1 ticks for each process of the table. |
| SchedRuns.DispatchedWithinOneRound | sources/kernel/sched.c:62 | And within as many switches as there are processes. |
| SchedRuns.MailboxHoldsPending | sources/kernel/syscall.c:53-63 | A mailbox holds exactly the messages sent to its owner and not received, each with its true sender, in sending order. |
| SchedRuns.ReceivesLatest | sources/kernel/syscall.c:65-91 | A receive returns the pending message that was sent last, or nothing if none is pending. |
| SchedRuns.ReceiveWaits | sources/kernel/syscall.c:65-78 | The waiting loop ends if and only if a message is pending, and otherwise changes no process and makes the next tick a switch. |
| SchedRuns.MessagesConserved | sources/kernel/syscall.c:53-91 | The messages sent are, as a multiset, those received and those still in mailboxes. |
| Sched.Scheduler.NextPid | sources/kernel/sched.c:42-50 | The next index around the table, through the wrap of the unsigned pid. |
| Sched.Scheduler.YieldTask | sources/kernel/sched.c:52-71 | Takes exactly the timer step of the transition system, and hangs exactly when that does; with fewer than nine ticks counted it goes on with the interrupted registers. |
| Sched.Scheduler.PushProcess | sources/kernel/sched.c:167-179 | Takes exactly the step that adds a process. |
| Sched.Scheduler.GetByPid | sources/kernel/sched.c:186-196 | The process of a pid if it is running, or NULL. |
| SchedSpec.AsInt | sources/kernel/syscall.c:35 | The return value is the one number in the range of an int that differs from the code by a multiple of 2^32. |
| Sched.Scheduler.Exit | sources/kernel/syscall.c:31-38 | Takes exactly the exit step, which keeps the code as an int and leaves the process waiting for its death. |
| Sched.Scheduler.IpcSend | sources/kernel/syscall.c:53-63 | Takes exactly the send step on a mailbox that grows by doubling, or halts. |
| Sched.Scheduler.IpcReceiveSync | sources/kernel/syscall.c:65-78 | One turn of the waiting loop: a message, or a forced yield. |
| Sched.Scheduler.IpcReceiveOnce | sources/kernel/syscall.c:80-91 | A message if there is one. |

## Left out

- Locks: every operation under a spinlock, and every system call, is one atomic step.
- The page hooks of `sources/libs/liballoc/compat.c`: the heap assumes what `liballoc.h` promises of them, page-aligned memory that overlaps no listed major, also when a malloc asks twice.
- Liballoc.Allocator.Malloc: the last 72 request sizes below 2^64, for which the sums in 64 bits wrap around as well.
- Liballoc.Allocator.MallocFitting: its requests are bounded by `Fits`; the others are those of `Liballoc.Allocator.MallocOversized`.
- HeapSpec.MallocCells: the same bound. What remains of it for a larger request is `HeapRuns.OldCellsStay` and `HeapRuns.PointerHasRoomIff`.
- Liballoc.Allocator.Realloc: requests are bounded by `Fits`, since past it the inner malloc leaves a heap in disorder; and a pointer that malloc handed out, whether still live or not.
- Liballoc.Allocator.Free: a pointer that malloc handed out, whether still live or not; in front of any other the source reads whatever bytes are there.
- Header fields live in maps of majors and minors by address, apart from the map of payload bytes; a header that is overwritten by a new header or returned with its block is dropped from those maps. Bytes never written read as 0.
- `liballoc_calloc`, the debug output, and the alignment of minors in memory: no property of the heap depends on them.
- Pointers to tables are physical addresses: the window through which the kernel sees physical memory is a fixed offset away.
- Pmm.Init: the bitmap is an array of its own rather than bytes of the memory it describes; that its pages are not handed out is proved.
- Pmm.Allocator.Free: a range that the bitmap covers, since the source does not look and would write behind it.
- Vmm.Manager.MapRange: a range that ends inside the 48 bits that the tables translate, and frames below 2^64.
- TLB flushing and `vmm_init`: translations are those of the tables, from a kernel space with an empty root on a live page.
- Vmm.Manager.SpaceDestroy: like the source it frees the root only; the frames of the tables below stay live.
- Elf.LoadElfModule: the image lies outside the physical memory that is loaded into, and its headers and segments lie inside the image, which the source does not look at; the creation of the process behind it is not modelled.
- HashMap.Map.Set: keys are strings without terminator, values are of one type, and the table is limited to 2^30 buckets, behind which the count turns negative as an int and no memory of that size can be had. `map_deinit_` is not modelled.
- HashMap.Map: the bucket table is a sequence and nodes are addresses into one map for each field, so a pointer to a value that `map_get_` hands out is not modelled.
- Errors of the device other than reading past its end, and the probing for its block size: the cache starts as `device_init` leaves it.
- The installation on a disk with a GUID partition table, `--force-mbr`, and the messages to the user.
- MbrInstall.Install: of the disk nothing is said once a write takes bytes from behind the boot image (`PastImage`).
- Sched.Scheduler: the process table is a sequence; that a vector behaves as one is proved for `Vec.Vector`, which the mailboxes are. The kernel halts when a vector cannot grow. Address spaces and stacks of tasks, `task_slayer` and the preemption of a system call are not modelled.
- Sched.Scheduler.IpcReceiveSync: one turn of its loop, since what ends the loop is done by other processes; what a run makes of the turns is `SchedRuns.ReceiveWaits`.
