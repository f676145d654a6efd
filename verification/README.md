# AIkOS memory and files, modelled and proved

A Dafny model of the memory-and-files stack of the AIkOS kernel: the bitmap page allocator, the buddy
heap threaded through the pages it pulls, the AIkFS image builder and driver, the descriptor table that
owns heap buffers, the ELF64 loader, the process page tables, the input ring and the number printers.
`dafny verify dfyconfig.toml` checks everything.

## How the model is laid out

- `Bits`, `Bytes`, `Machine`, `Wrappers`: bit operators on naturals (`^`, `&`, `|`, masks), little-endian words, word
  sizes and fixed addresses, `Option`.
- `PmmSpec`, `Pmm`: the page bitmap. `Pmm.PageAllocator` holds packed bytes and changes them in place;
  `PmmSpec` says what its calls mean on the sequence of bits.
- `Tiling`, `BuddySpec`, `BuddyState`, `BuddyTheorems`, `HeapRuns`: the buddy heap on values. A state is
  the page bits, eleven free lists, the live blocks, every page ever pulled, and the pool extents.
  `BuddyState.Inv` is the invariant; `HeapRuns` closes it under every sequence of calls.
- `BootRuns`, `Loading`: runs from the page map boot leaves, and the ELF loader and the heap in one memory.
- `Chains`, `Heap`: the heap in memory. `Heap.BuddyHeap` keeps list heads and the 16-byte headers at page
  starts, and each method's new state equals the value-level step. Memory contents are arbitrary except for
  the headers of listed and live blocks.
- `HeapMemory`, `HeapClients`: the same memory byte by byte. The first 16 bytes of every page are the header
  words the allocator reads and writes; clients store any bytes in their payloads, page starts included.
  `HeapClients.Serve` runs any mix of allocator calls and stores.
- `FsImage`, `FsBuilder`, `FsDriver`, `FsRoundTrip`: the partition format, the host-side builder, the
  kernel driver (its buffers are blocks of `HeapMemory.Memory`), and the proof that they undo each other.
- `FdTable`, `Elf`, `PageTables`, `InputRing`, `Numbers`: one module per remaining component; `FdClients` runs
  descriptor calls between the calls and stores of another heap client.

Conventions. Block pointers, list links and pool extents are page numbers with 0 as the null pointer, since
every block address is page aligned (`Bits.XorScale` relates the exclusive or on byte addresses to the one
on page numbers, `HeapMemory.BytesOfHeader` a header to its 16 bytes); `kmalloc` and `kfree` take and return
byte addresses. Sums that can wrap are written with their modulus. A file read by the driver lives in heap
memory, at the block `kmalloc` returned, and `FdTable` reads it from there. `Aligned(x, k)` is divisibility by 2^k
(`Bits.AlignedIsMod`). Six members are not functions of the source but run its functions one after the other:
`HeapClients.Serve`, `FdTable.Serve`, `FdClients.Serve`, `FsRoundTrip.MountAndRead`, `FsRoundTrip.BuildAndRead`
and `FsRoundTrip.OpenAndServe`.

## What the proofs found

- `kmalloc` cuts the page count to 32 bits, so a request of 2^44 bytes gets one page
  (`BuddyTheorems.HugeRequestCut`). `BuddyTheorems.RoomExact` gives the exact condition under which every size
  is refused or given room.
- The pool extents leave out the slack around each pulled block. A slack block that is split is not merged
  back, although the comment at src/kernel/buddy.c:92-95 is about avoiding just that:
  `BootRuns.SlackStaysSplit` is a run from a page map boot can leave. `BuddyTheorems.FreeUndoesMalloc` says exactly when a
  free undoes an allocation.
- `fs_read` compares only 16 bytes, so a longer path finds the first file named by its first 16 bytes
  (`FsRoundTrip.LongQueryFound`); `FsRoundTrip.NamesExact` covers all queries.
- More than 16 files make the bin directory outgrow its block and the partition longer than it should be. The
  first 16 stay readable and no later file is ever found (`FsBuilder.Builder.BuildPartition`,
  `FsRoundTrip.OverfullNames`, `FsRoundTrip.PlacedIsReadable`).
- The ELF program-header check sums in 64 bits and is passed by a 64-byte image whose table lies outside it
  (`Elf.TableCheckWraps`; `Elf.TableCheckExact` is the exact condition).
- `pmm_init` rounds an E820 entry in wrapping arithmetic; `PmmSpec.RoundingExactIff` says for which entries
  the pages freed are the pages contained, and `PmmSpec.RoundingFails` gives an entry for each way it fails.
- The process page tables are built without checking for a failed page allocation: the map is right exactly
  with two or more free pages, and memory in use is left alone with three. With one page the tables share
  page 0 and user code reaches nothing; with none, every translation faults
  (`PageTables.Process.BuildAddressSpace`).
- A second producer on the input ring loses an accepted character exactly when it interrupts a put and the
  ring is not full (`InputRing.SecondProducerExact`): the interrupted put's, unless that put had already read
  the head for its slot, and then the interrupting one's.
- Only the first 64 pages of the user region are reserved. A load is safe for the heap exactly when the heap
  owns no page of the rest (`Loading.LoadSparesHeapExactly`), and one request after boot makes it own some
  (`BootRuns.HeapInUserRegion`, `Loading.LoadWipesBlock`).
- Only the first 512 blocks of the ramdisk are reserved; the heap never owns those
  (`BootRuns.ReservedNeverOwned`) and can own the page behind them (`BootRuns.HeapBehindRamdisk`).
- With more than 4096 sectors a partition of few files is built and written, and the self-check then fails
  (`FsBuilder.CountDataBlocks`).

## Model

| member | source | states |
|---|---|---|
| HeapRuns.RunsKeepTiling | src/kernel/buddy.c:74-227 | after any run of kmalloc, kfree of live pointers and page-allocator calls by other code, the pages ever pulled are tiled exactly by free and live blocks, stay taken in the bitmap, and add up; with nothing live all are free |
| HeapRuns.RunsKeepLive | src/kernel/buddy.c:142-227 | a block stays live, with its order, over every run that does not free it |
| HeapRuns.StepInv | src/kernel/mm.c:85-129 | each single call keeps the two-layer invariant and gives up no pulled page |
| HeapRuns.TakeBelowInv | src/kernel/mm.c:107-129 | pages handed to other code are never pages the heap holds |
| BuddyState.Partition | src/kernel/buddy.c:74-227 | free and live blocks together tile the pulled pages, share no block, and no page heads two lists or one list twice |
| BuddyState.KmallocInv | src/kernel/buddy.c:142-176 | kmalloc keeps the invariant |
| BuddyState.ObtainInv | src/kernel/buddy.c:165-175 | the block handed out is new, its pages overlap no live block, the pointer is its page plus the 16-byte header; failure changes nothing |
| BuddyState.KfreeInv | src/kernel/buddy.c:178-227 | kfree keeps the invariant and takes exactly the block's pages out of the live ones |
| BuddyState.GetBlockCarves | src/kernel/buddy.c:74-140 | the block obtained is aligned, owned, and neither free nor live; the lists tile all other free pages |
| BuddyState.PullTiles | src/kernel/buddy.c:96-128 | for every order and run start, head pieces, aligned block and tail pieces tile the pulled run |
| BuddyState.PullGeometry | src/kernel/buddy.c:103-105 | the aligned block and its slack fit in 2^(order+1)-1 pages |
| BuddyState.PullExtents | src/kernel/buddy.c:131-136 | the pool extents are the hull of the aligned blocks pulled: each is taken in, nothing falls out, and the ends are block ends |
| BuddyState.BitLengthLeast | src/kernel/buddy.c:153-161 | the bit-length loop's result is the least power of two above its argument |
| BuddySpec.PlaceDownTiles | src/kernel/buddy.c:109-118 | the downward loop covers exactly the head slack with aligned pieces |
| BuddySpec.PlaceUpTiles | src/kernel/buddy.c:119-128 | the upward loop covers exactly the tail slack with aligned pieces |
| BuddySpec.PlaceSkips | src/kernel/buddy.c:113-128 | bits 0 to 9 suffice: higher bits of the slack are never set |
| BuddySpec.SplitTiles | src/kernel/buddy.c:80-86 | splitting lists exactly the part of the block above the piece returned |
| BuddySpec.CoalesceTiles | src/kernel/buddy.c:201-221 | merging neither loses nor gains pages, yields an aligned block, and stops only when no further merge is possible |
| BuddyTheorems.KfreeRefines | src/kernel/buddy.c:201-226 | kfree's effect on the set of free blocks is the abstract free, which looks only at that set and the extents |
| BuddyTheorems.CoalesceRefines | src/kernel/buddy.c:201-221 | list order and header words do not affect which blocks merge |
| Tiling.BuddyIsSibling | src/kernel/buddy.c:202-203 | the exclusive or yields the other half of the one enclosing aligned block |
| Tiling.Halves | src/kernel/buddy.c:82-86 | the halves of an aligned block are aligned, disjoint, and each other's buddies |
| BuddyTheorems.FreeUndoesMalloc | src/kernel/buddy.c:77-88 | freeing a block just served from the lists restores the whole state, list order included, exactly when the split halves lie inside the extents and the original block has no free sibling there; otherwise not even the set of free blocks is restored |
| BuddyTheorems.FreeAbsorbsPieces | src/kernel/buddy.c:201-226 | with the halves inside the extents, one free block of at least the original order covers the original block |
| BootRuns.SlackStaysSplit | src/kernel/buddy.c:129-136 | a run from a page map boot can leave to a state where kmalloc and kfree of one byte leave two free sibling pages unmerged |
| HeapRuns.NeverOwned | src/kernel/mm.c:107-129 | a page taken by others and not given back is never the heap's, over any run |
| BootRuns.ReservedNeverOwned | src/kernel/mm.c:66-77 | what boot reserves the heap never owns |
| BootRuns.HeapInUserRegion | src/kernel/mm.c:74-75 | one request after boot is served from the unreserved part of the user region |
| BootRuns.HeapBehindRamdisk | src/kernel/mm.c:76-77 | one request after boot takes the page behind the ramdisk's reserved blocks |
| BuddyTheorems.OrderExact | src/kernel/buddy.c:147-163 | the order chosen is the least whose block holds size plus header |
| BuddyTheorems.RoomExact | src/kernel/buddy.c:147-151 | every size is refused or given room, exactly unless the 32-bit page count was cut off and is small |
| BuddyTheorems.HugeRequestCut | src/kernel/buddy.c:147-151 | a request of 2^44 bytes is served like one of a single byte |
| BuddyTheorems.KmallocFailsExactly | src/kernel/buddy.c:142-176 | null exactly for size 0, more than 1024 pages, or no fitting free block and no free run; then nothing changes |
| BuddyTheorems.Conservation | src/kernel/buddy.c:229-254 | counted free pages plus pages of live blocks equal the pages pulled |
| BuddyTheorems.FreeCountExact | src/kernel/buddy.c:234-246 | the sum over the lists is the number of pages the lists tile |
| Bits.XorScale | src/kernel/buddy.c:203 | exclusive or on byte addresses is the one on page numbers, scaled |
| Bits.RoundUpMeaning | src/kernel/buddy.c:103 | add-then-mask rounds up to the next multiple |
| Bits.AndBit | src/kernel/buddy.c:114 | masking with one bit tests that bit |
| Heap.BuddyHeap.constructor | src/kernel/buddy.c:65-72 | empty lists over arbitrary memory satisfy the invariant |
| Heap.BuddyHeap.ListPush | src/kernel/buddy.c:27-34 | the block heads its list; only its own header is written |
| Heap.BuddyHeap.ListPop | src/kernel/buddy.c:36-45 | the head leaves the list; only its own link is written |
| Heap.BuddyHeap.ListUnlink | src/kernel/buddy.c:47-63 | the block leaves the list exactly when it is on it; only headers of that list are written |
| Heap.BuddyHeap.SplitDown | src/kernel/buddy.c:81-86 | the loop lists each upper half and writes only inside the block |
| Heap.BuddyHeap.LayDown | src/kernel/buddy.c:111-118 | the head loop in place equals its specification and writes only in the head slack |
| Heap.BuddyHeap.LayUp | src/kernel/buddy.c:121-128 | the tail loop in place equals its specification and writes only in the tail slack |
| Heap.BuddyHeap.AdoptRun | src/kernel/buddy.c:103-139 | a pulled run is laid out, the extents widened, and the final push and pop return the aligned block |
| Heap.BuddyHeap.PullBlock | src/kernel/buddy.c:96-139 | a pull takes the first free run, or fails with nothing changed |
| Heap.BuddyHeap.GetBlock | src/kernel/buddy.c:74-140 | the new state is the specified one; no header of a live block or of foreign memory is written |
| Heap.BuddyHeap.Kmalloc | src/kernel/buddy.c:142-176 | result and new state are the specified ones for every 64-bit size; no word of another live block is written |
| Heap.BuddyHeap.FindOrder | src/kernel/buddy.c:154-161 | the shift loop computes the bit length |
| Heap.BuddyHeap.Merge | src/kernel/buddy.c:201-221 | whatever header words memory holds, the loop merges exactly with listed in-extent siblings |
| Heap.BuddyHeap.Kfree | src/kernel/buddy.c:178-227 | null and failing headers change nothing; a live block is freed as specified; no word of a block still live is written |
| Heap.HintMatches | src/kernel/buddy.c:209-215 | a listed sibling always carries the mark the header test looks for |
| Heap.BuddyHeap.HeapStats | src/kernel/buddy.c:229-254 | free pages, live blocks and the largest non-empty order are reported exactly |
| Heap.BuddyHeap.ForeignWrite | src/kernel/buddy.c:209-212 | any write inside a live payload or outside the heap keeps the heap valid and its state unchanged |
| HeapMemory.Memory.Store | src/kernel/buddy.c:209-212 | a store of any byte outside free pages and live headers changes that byte only, and not the heap's state |
| HeapMemory.Memory.Kmalloc | src/kernel/buddy.c:142-176 | kmalloc writes no byte of a live block |
| HeapMemory.Memory.Kfree | src/kernel/buddy.c:178-227 | any pointer whose bytes fail a check changes nothing; a live one is freed as specified; no byte of a block still live is written |
| HeapMemory.HeaderOfBytes | src/kernel/buddy.c:16-20 | any 16 bytes a client leaves at a page start are the bytes of the header words they read as |
| HeapMemory.BytesOfHeader | src/kernel/buddy.c:16-20 | a header the allocator writes is read back from its bytes |
| HeapMemory.Memory.FreeHeader | src/kernel/buddy.c:27-34 | in memory, block i of a free list starts with the address of block i + 1 (0 at the end), the mark of a free block and the order |
| HeapMemory.Memory.LiveHeader | src/kernel/buddy.c:168-172 | in memory, a live block starts with no link, the mark of a block in use and its order |
| HeapMemory.PayloadWritable | src/kernel/buddy.c:175 | the owner of a block may write its whole payload, page starts included |
| HeapMemory.WritableExactly | src/kernel/buddy.c:175 | what other code may write is exactly the pages the heap does not own and the payloads of live blocks |
| HeapMemory.NewPayload | src/kernel/buddy.c:169-175 | a block handed out has room for the whole request, apart from everything live before |
| HeapClients.Serve | src/kernel/buddy.c:74-227 | any run of allocator calls mixed with client stores ends in the state its calls lead to, and every byte of a block not freed is what was last written there |
| Chains.CutLinked | src/kernel/buddy.c:52-57 | unlinking from the middle keeps every list threaded |
| Chains.PushLinked | src/kernel/buddy.c:27-34 | pushing an unlisted block keeps every list threaded |
| Pmm.WithBitMeaning | src/kernel/mm.c:34-39 | setting or clearing one bit of a bitmap byte changes that bit alone |
| Pmm.PageAllocator.Mark | src/kernel/mm.c:30-40 | exactly the named page's bit changes; pages past the bitmap are ignored |
| Pmm.PageAllocator.Test | src/kernel/mm.c:42-45 | the page's bit |
| Pmm.PageAllocator.Init | src/kernel/mm.c:47-83 | a page is free exactly when one of the first 64 table entries is usable and its computed range holds the page, and nothing reserves it; the count is exact |
| PmmSpec.RoundingExactIff | src/kernel/mm.c:60-61 | for which entries the computed pages are exactly the pages wholly contained |
| PmmSpec.RoundingFails | src/kernel/mm.c:60-61 | an entry that contains a page and frees nothing, one that frees page 0 without containing it, and an empty one that frees every page |
| PmmSpec.BootMapExact | src/kernel/mm.c:52-77 | after boot a page is free exactly when wholly inside a usable entry among the first 64 and no byte of it is in a reserved range, kernel image included |
| PmmSpec.ReservedMeets | src/kernel/mm.c:66-77 | the reserved pages are those with a byte in low memory, the kernel image up to its end address, the page tables, the user blobs or the first 256 KiB of the ramdisk |
| Pmm.PageAllocator.AllocPage | src/kernel/mm.c:85-96 | the lowest free page is taken, or 0 with nothing changed; the count follows |
| Pmm.PageAllocator.FreePage | src/kernel/mm.c:98-105 | the page is free afterwards and the count is exact; page 0 stays reserved unless freed by an address inside it |
| Pmm.PageAllocator.AllocContiguous | src/kernel/mm.c:107-129 | despite the skip, the least free run is taken and exactly it; 0 only when there is none |
| PmmSpec.FirstRunMeaning | src/kernel/mm.c:107-129 | the naive search finds the least start and fails only when no run exists |
| PmmSpec.CountFill | src/kernel/mm.c:122-124 | taking a run lowers the free count by its length |
| FsBuilder.Builder.constructor | tools/buildfs.py:25-44 | only the four metadata blocks are used |
| FsBuilder.Builder.AddFile | tools/buildfs.py:46-60 | a file is packed right after the previous one, or refused with nothing changed |
| FsBuilder.Builder.BuildBitmap | tools/buildfs.py:62-69 | bit i is set exactly for used blocks; a used block past 4096 is an error |
| FsBuilder.Builder.BuildSuperblock | tools/buildfs.py:71-79 | the superblock bytes, or an error for a count that does not fit |
| FsBuilder.Builder.BuildDirEntry | tools/buildfs.py:81-93 | the 32 entry bytes, or an error exactly for a long or non-ASCII name or a field that does not fit |
| FsBuilder.Builder.BuildRootDir | tools/buildfs.py:95-100 | the root directory block, whose fields `FsRoundTrip.MetadataReads` reads back |
| FsBuilder.Builder.BuildBinDir | tools/buildfs.py:102-109 | one entry per file in order, padded to a block, longer with more than 16 files |
| FsBuilder.Builder.BuildPartition | tools/buildfs.py:111-131 | fails exactly when a name or number does not fit; metadata and every file's bytes are in place; up to 16 files give the image, more give a partition of the wrong length |
| FsRoundTrip.MetadataReads | tools/buildfs.py:71-100 | on every built partition the superblock words lead to the bitmap block and the root block; the only entry there is a directory named bin, whose first block and count lead to the bin directory |
| FsRoundTrip.ImageReads | tools/buildfs.py:71-131 | on the image of up to 16 files that walk ends at the bits that mark exactly the used blocks and at the directory of the files |
| FsBuilder.CountDataBlocks | tools/buildfs.py:192-199 | counts the marked blocks from 4 up, or fails exactly past 4096 sectors |
| FsBuilder.SelfCheckExact | tools/buildfs.py:192-199 | the self-check count is the sum of the files' block counts |
| FsBuilder.OrBitMeaning | tools/buildfs.py:68 | or-ing one bit into a byte sets that bit alone |
| FsImage.ExtentsDisjoint | tools/buildfs.py:46-58 | no block belongs to two files |
| FsImage.TotalIsPacked | tools/buildfs.py:49-58 | the next free block is 4 plus the sum of the block counts |
| FsImage.BitmapExact | tools/buildfs.py:62-69 | a bit is set exactly for metadata blocks and blocks of exactly one file |
| FsImage.DataAt | tools/buildfs.py:126-129 | each file's bytes are at its first block |
| FsDriver.Driver.Init | src/kernel/fs.c:117-148 | initialised exactly on right magic and version, with the superblock's fields |
| FsDriver.NameMatches | src/kernel/fs.c:70-82 | the byte loop matches exactly when the field's name is the query's first 16 bytes |
| FsDriver.FindDirEntry | src/kernel/fs.c:60-93 | the first matching entry before the first empty slot, or none |
| FsDriver.FieldMatchesExactly | src/kernel/fs.c:68-84 | a name field matches exactly when it agrees with the query for 16 bytes, or up to a common end |
| FsDriver.NamesExactly | src/kernel/fs.c:193-214 | a path names a file exactly when it starts with bin/ and an entry of block 3, none before it empty or of that name, has the rest as its name and kind 1 |
| FsDriver.Driver.Lookup | src/kernel/fs.c:193-214 | a file entry is found exactly when the path names one |
| FsDriver.Driver.CopyBlocks | src/kernel/fs.c:222-235 | heap memory at the buffer receives the file's blocks, cut at its size, and no other byte changes |
| FsDriver.Driver.Read | src/kernel/fs.c:187-240 | a heap block holding the file's bytes, or -1 with the heap unchanged, exactly when nothing is named or memory runs out; no byte of a live block is written |
| FsDriver.NamesOnce | src/kernel/fs.c:60-93 | a path names at most one entry |
| Bytes.ReadU32Of | src/kernel/fs.c:43-49 | reading a word undoes writing it |
| FsRoundTrip.NamesExact | src/kernel/fs.c:193-214 | on a built image, a path names exactly the first file whose name is the query's first 16 bytes |
| FsRoundTrip.DataInImage | tools/buildfs.py:126-129 | the bytes at a file's entry are the file's bytes |
| FsRoundTrip.InitSees | src/kernel/fs.c:119-143 | fs_init accepts a built image and reads back the block count and root block |
| FsRoundTrip.ShortQueriesExact | src/kernel/fs.c:70-82 | over distinct names, queries up to 16 bytes find only the exact name |
| FsRoundTrip.LongQueryFound | src/kernel/fs.c:72-82 | a longer query, though no file has that name, finds the first file named by its first 16 bytes exactly when there is one |
| FsRoundTrip.NamesInDir | src/kernel/fs.c:60-93 | against a built directory, whatever surrounds it, a path names exactly the first file whose name is the query's first 16 bytes |
| FsRoundTrip.OnlyUnderBin | src/kernel/fs.c:193-214 | no path outside bin/ names anything; a descriptor's path names something only spelled bin/x or /bin/x |
| FsRoundTrip.OverfullNames | tools/buildfs.py:102-131 | with more than 16 files exactly the first 16 can be found |
| FsRoundTrip.PlacedIsReadable | tools/buildfs.py:126-129 | what a builder's partition holds where an entry points is the file, also with more than 16 files |
| FsRoundTrip.MountAndRead | src/kernel/fs.c:117-240 | mounting a built image and reading a path gives exactly that file's bytes, or fails only for lack of a file or memory |
| FsRoundTrip.BuildAndRead | tools/buildfs.py:111-131 | the same from the builder's state |
| FsRoundTrip.OpenedOnImage | src/kernel/fd.c:18-47 | a descriptor opened on a built partition holds the named file's bytes |
| FsRoundTrip.OpenAndServe | src/kernel/fd.c:18-89 | mounting a built partition, opening a path with or without the leading slash and running any calls delivers a prefix of the named file, or the open fails only for lack of a file or memory |
| FsRoundTrip.Spellings | src/kernel/fd.c:23-26 | bin/x and /bin/x are the same path once the leading slash is dropped, for every x |
| FsRoundTrip.OpenThenRead | src/kernel/fd.c:68-89 | over any run what it delivers is a prefix of the stored file, all of it at the end |
| FdTable.ReadsConcatenate | src/kernel/fd.c:68-89 | over every interleaving, what a descriptor delivers is the next stretch of its file |
| FdTable.StepLocal | src/kernel/fd.c:34-42 | other slots are untouched and an open never takes a slot in use |
| FdTable.ReadsEndAtEnd | src/kernel/fd.c:78-82 | a read is short only at the end of the file |
| FdTable.Descriptors.Open | src/kernel/fd.c:18-47 | the first free slot gets the file and one new heap block, or nothing has changed, also on a full table; what heap memory holds for the other slots stays |
| FdTable.Descriptors.Close | src/kernel/fd.c:49-66 | the slot is blanked and exactly its block is freed, or it is an error; what heap memory holds for the other slots stays |
| FdTable.Descriptors.Read | src/kernel/fd.c:68-89 | the caller gets the next min(len, remaining) bytes out of heap memory and the position moves by as many |
| FdTable.Serve | src/kernel/fd.c:18-89 | over every run of calls that leaves a slot open, heap memory keeps its file's bytes and its reads deliver the next stretch of them, and what is live outside the table stays, block for block |
| FdClients.Serve | src/kernel/fd.c:18-89 | the same with another heap client taking, writing and freeing blocks and pages taken below in between; nothing is leaked and nothing of others is freed |
| FdTable.SameView | src/kernel/fd.c:18-89 | if the memory of live blocks is unchanged, so is every open file |
| Elf.Load | src/kernel/elf.c:50-155 | succeeds exactly when the header words and every PT_LOAD header pass the tests, stated over the image's bytes; then each byte is what the last header claiming it gives, or what it was; nothing outside the user region changes |
| Elf.GivenAsLaidOut | src/kernel/elf.c:117-150 | a PT_LOAD header written out field by field gives the image bytes from its file offset for its file size, then zeros, for arbitrary words |
| Elf.PhdrLaidOut | src/kernel/elf.c:111-121 | which words of a program header the loader takes its fields from |
| Elf.EhdrLaidOut | src/kernel/elf.c:76-102 | which words of the ELF header it takes its fields from, and where program header i starts |
| Elf.AcceptsExactly | src/kernel/elf.c:56-105 | the checks before the first segment pass exactly on these bytes and words of the image |
| Elf.LoadMeans | src/kernel/elf.c:107-152 | the walk over the headers, read off the bytes: when it succeeds, and what every byte of memory then is |
| Elf.LoadSegments | src/kernel/elf.c:107-152 | the walk applies segments until the first bad one |
| Elf.PlaceSegment | src/kernel/elf.c:141-151 | file bytes, then zeros, and nothing else |
| Elf.LastWriterWins | src/kernel/elf.c:107-152 | each byte comes from the last segment covering it |
| Elf.NoWriter | src/kernel/elf.c:107-152 | a byte no segment covers keeps its value |
| Elf.OutsideUntouched | src/kernel/elf.c:123-134 | success or failure, no byte outside the user region changes |
| Elf.SucceedsExactly | src/kernel/elf.c:123-139 | the load succeeds exactly when every PT_LOAD passes the tests |
| Elf.TableCheckExact | src/kernel/elf.c:97-99 | an accepted table lies inside the image exactly when the sum does not wrap |
| Loading.LoadSparesHeapExactly | src/kernel/elf.c:107-152 | after any run from boot, every load spares every byte of the heap's pages exactly when the heap owns no unreserved page of the user region |
| Loading.SparesExactly | src/kernel/elf.c:123-151 | the same for any set of pages apart from the reserved ones |
| Loading.LoadWipesBlock | src/kernel/elf.c:141-151 | after one request from boot, a load zeroes a live block, header and payload |
| Elf.TableCheckWraps | src/kernel/elf.c:97-99 | a table the check accepts and the image does not contain |
| PageTables.WalkExact | src/kernel/proc.c:58-65 | the four-level walk over such tables, reserved bits checked, accessed and dirty flags set or not: writable identity below 1 GiB, nothing above, user access on the user region only |
| PageTables.FillKernelTables | src/kernel/entry.asm:41-60 | the kernel's three tables |
| PageTables.CollapsedWalk | src/kernel/proc.c:58-65 | a directory that is also its own pointer table maps the first GiB for the kernel, nothing else, and nothing for user code |
| PageTables.NothingMapped | src/kernel/proc.c:58-65 | one page for all three tables maps nothing |
| PageTables.CopyDirectory | src/kernel/proc.c:60-65 | each entry of the kernel's directory is copied, processor flags included, with user access added to entry 1 only |
| PageTables.Process.BuildAddressSpace | src/kernel/proc.c:45-68 | with two or more free pages the process's walk is exact and all of it writable, with one user code reaches nothing, with none nothing is mapped; the kernel's directory and, with three, all memory in use are untouched |
| InputRing.RingSafe | src/kernel/repl.c:24-40 | over every interleaving, consumed is a prefix of accepted, at most 127 wait, and no waiting slot is overwritten |
| InputRing.InvStep | src/kernel/repl.c:24-40 | every single read or write keeps the ring invariant |
| InputRing.SecondProducerExact | src/kernel/repl.c:17-31 | in every reachable state, a put by an interrupt keeps the ring in order exactly when no put was under way or the ring is full; otherwise the ring is what it would be with only one of the two accepted characters, and which one depends on the point of interruption |
| InputRing.PreemptLoses | src/kernel/repl.c:24-31 | two interleaved puts leave the ring as if only the survivor had been put |
| InputRing.SecondProducerLosesOne | src/kernel/repl.c:17-19 | it happens at the first put, both ways |
| InputRing.Ring.Putc | src/kernel/repl.c:24-31 | queued, or dropped when 127 wait |
| InputRing.Ring.Getc | src/kernel/repl.c:33-40 | the oldest character, or nothing |
| Numbers.WriteHex | src/kernel/serial.c:52-59 | exactly the low hexadecimal digits |
| Numbers.ParseHex | src/kernel/repl.c:56-78 | the base-16 number of one or more digits after an optional prefix, modulo 2^64, and nothing else |
| Numbers.ParsedExactly | src/kernel/repl.c:61-74 | accepted are exactly the non-empty runs of digits, alone or behind 0x or 0X |
| Numbers.HexTable | src/kernel/repl.c:42-54 | the n-th characters of the lower-case and of the upper-case row, and no other, are digits of value n; the lower one is printed |
| Numbers.HexValueMeaning | src/kernel/repl.c:67-71 | dropping the overflow digit by digit leaves the number modulo 2^64 |
| Numbers.HexRoundTripParsed | src/kernel/repl.c:56-78 | parsing printed digits with any of their letters in capitals, with or without 0x or 0X, gives the value back modulo 16^d |
| Numbers.WriteDec | src/kernel/serial.c:61-75 | decimal notation through the 21-byte buffer |
| Numbers.DecimalMeaning | src/kernel/serial.c:61-75 | decimal notation denotes the number |
| Numbers.CountDigits | src/kernel/printf.c:14-22 | the number of decimal digits |
| Numbers.DigitCountExact | src/kernel/printf.c:14-22 | that many digits are enough for the number, and one fewer is not |
| Numbers.PrintUnsigned | src/kernel/printf.c:66-72 | padded to exactly the width or the digit count, whichever is larger, with the same value |
| Numbers.PrintSigned | src/kernel/printf.c:52-65 | sign, then the same for the magnitude |

## Left out

- Heap.BuddyHeap.Kfree: a pointer lies 16 bytes into a page, and one whose header passes both checks belongs to a live block; `HeapMemory.Memory.Kfree` takes any pointer into memory.
- HeapMemory.Memory.Kfree: a pointer whose header passes both checks must belong to a live block; repeated or wild frees with such a header are the caller's error, which the source does not always detect.
- Pmm.PageAllocator.FreePage: an address past the 128 MiB the bitmap covers is excluded; the source reads past the bitmap.
- Elf.Load: the program-header table sum is assumed not to wrap 64 bits (`Elf.TableCheckExact` says what happens otherwise), and the image buffer not to overlap the user region.
- FsDriver.Driver.Read: directory extents are assumed to lie on the ramdisk, as they do on every built image; the source reads whatever memory follows otherwise. The ramdisk is a constant: for partitions of more than 512 blocks, part of it lies in pages the heap may own.
- FsDriver.Driver.CopyBlocks: the same assumption on the extent it copies.
- FsRoundTrip.MountAndRead: the same constant ramdisk; so also `FsRoundTrip.BuildAndRead` and `FsRoundTrip.OpenAndServe`.
- Numbers.PrintSigned: the most negative 64-bit number is excluded, its negation being undefined in C.
- Numbers.WriteHex: more than 16 digits are excluded, the shift being undefined in C.
- Console messages of the heap and file system, `fs_ls` and `fs_info`: display only.
- Reading the staging directory and writing the disk image: the builder starts from names and byte strings, and the ramdisk copy is the identity.
- Boot sector, interrupt and device drivers, system call dispatch, the command handlers and line editor, ring-3 entry and resume: hardware behaviour and dispatch with little logic.
- The format grammar of `kprintf`: only the number printers are modelled.
