# A verified model of the relocatable chunk allocator

The library keeps the data of one client in up to 2047 chunks of memory and lets the client hold
handles (chunk number, offset, size) instead of addresses, so that chunks can be moved, shrunk,
enlarged, compressed and brought back under the client's feet. This project models that library and
proves what its handles, counters and block ownership promise over every run.

## How it is put together

* `ChkBase` - units, handles, headers and the manager as they are packed into the bit fields declared
  in chk/chk_base.h and chk/chk_mem_mgr.h.
* `ChkHeap`, `ChkAlloc` - chunks, the three size-class free lists threaded through free memory, the
  steps of allocation and release, and the invariant: blocks lie in their chunks, do not overlap, the
  lists in memory are exactly the free blocks, and the counters add up. A `Book` keeps what the
  program does not: which blocks are live or free, and how many words are lost to fragments.
* `ChkCarving` - greedy carving in closed form, when its loop ends, presets, what freed memory holds.
* `ChkImage` - bit fields never overflow; relocation; the flat image and its header walk.
* `ChkIndexSpec` - one function per operation of the index, over a ledger of system blocks.
* `ChkOwnership` - which chunk owns which block, through every change of layout, and `destruct`.
* `ChkExact` - what single operations do exactly: which block and which cells, return codes, slots.
* `ChkRestore`, `ChkClasses`, `ChkBlank` - what decompression gives back cell for cell, the size classes over
  runs, and that memory in no live block stays blank.
* `ChkOperations`, `ChkCapacity`, `ChkRuns` - the invariant of an open or compressed index, what each
  operation keeps of it, and what holds over whole runs.
* `ChkSource` - the reader through which compression sees the chunks.
* `ChkMemory`, `ChkMemMgr`, `ChkIndex` - the classes of the program: chunks as views of memory blocks,
  several of which can share one; the manager; the index. Every operation of class `ChkIndex` leaves
  the state that `ChkRuns.Step` gives, so the theorems about runs are theorems about the objects.
* `ChkMemalign` - the chunk pool and the counting allocator.
* `ChkAddress` - from addresses back to handles.
* `ChkFailures` - runs from the empty index after which `shrink` or an address lookup goes wrong.
* `ChkLookup` - runs after which no address lookup goes wrong.
* `ChkRings` - the circular lists where they lie: threaded by handles through live blocks, over runs.
* `ChkPooled` - an index served by the chunk pool.
* `ChkList`, `ChkSlist` - the intrusive lists on node objects, with the in-place ordered merge.

Inputs from outside are arguments: whether the system grants a block (`grant`, `unpack`), what gained
memory holds (`tail`), where a region lies (`base`). The compression library is a pair of functions of
which only `unpack(pack(x)) == Some(x)` is assumed, as a hypothesis (`ChkIndexSpec.Lawful`) and not as
an axiom; `ChkIndexSpec.PlainIsLawful` and `ChkOperations.EnvExists` show that it can be met. A new index
(chk/chk_base.h:169-173) meets the invariant of runs (`ChkRuns.EmptyInv`).

## Findings

Where a promise fails, the model keeps the code as it is and says exactly when it holds:

* `alloc` rounds a byte count up to words and `free` rounds it down (chk/chk_base.cpp:360 and 440-441),
  so a handle and the byte count it was allocated with name the block again if and only if the count is
  a multiple of 8 (`HandleRoundTrip`). Otherwise `free` keeps the invariant and releases all but the last
  word, which stays live with no handle to it (`FreeAsAsked`, `RunKeepsBlock`); a count below 8 runs into
  the assertion of chk/chk_base.cpp:194. chk/chk_testor.h:130 and 176 do this with the 12 bytes of
  a `StrNode`. Runs contain such releases.
* `shrink` releases an address in the middle of a block if and only if the last chunk owns no block and
  has a kilobyte to spare (chk/chk_base.cpp:144-157; `ShrinkFaultsIff`). Without a pool an index of
  several chunks gets there when `compress` stores it, `uncompress` brings it back and a live block at the
  top of the last chunk is released, if and only if fewer kilobytes would do without that block
  (`ShrinkFaultsAfter`); `ShrinkCanFault` is such a run from the empty index.
* `destruct` gives all blocks back if and only if the index is not compressed (chk/chk_base.cpp:493;
  `DestructIff`).
* The order of `destruct` (chk/chk_base.cpp:508-512) matters: from the first chunk up it would read a
  released header unless every chunk owns its block (`ForwardIff`).
* A preset of 0, which is the default without `preset_free_sizes`, and presets above 120, 248 and 1016
  bytes, which wrap, leave a class of size 0 (chk/chk_mem_mgr.cpp:13; `PresetsFit`). Class 0 of that size
  fails the assertion of chk/chk_mem_mgr.cpp:65; with any other, or without assertions, the loop of
  chk/chk_mem_mgr.cpp:67-88 may never end (`CarvingEndsIff`).
* `Available` of the compression source (chk/chk_base.cpp:588-591) does not go down while chunks lie in
  several blocks (`ReadsImage`).
* The address lookup never finds a chunk from its own base (chk/chk_base.cpp:786; `BaseNotFound`), and
  data that looks like a header leads it astray (chk/chk_base.cpp:793-796): it gives the right handle for
  an address in a chunk if and only if no kilobyte boundary in between passes the test
  (`AddressRoundTrip`), and a run from the empty index leads to a live block whose own address fails
  (`DecoyReached`). A client that stores no CHK_PADDING in a cell numbered 3 modulo 256 of a chunk, and
  gains no memory with one there, can rely on every lookup (`LookupAfterRun`).
* The counting allocator counts a failed plain `realloc` as done (chk/chk_memalign.cpp:208-211;
  `Reallocate`).

The design note docs/chunk_offset_mem_struct.docx speaks of capacities of 4096 shifted by `_capacity`,
of addresses aligned to 4096 and of sizes up to 4096; the code counts capacities in kilobytes, aligns to
1024 and stops at 4088 bytes (chk/chk_base.h:27-31, chk/chk_base.cpp:20). The model follows the code.

## Model

| member | source | states |
|---|---|---|
| ChkBase.PtrRoundTrip | chk/chk_base.cpp:180-183 | packing a handle into its 11, 12 and 9 bits and back is the identity, both ways |
| ChkBase.HeaderRoundTrip | chk/chk_base.cpp:107-119 | a header that fits its bit fields survives being written to memory |
| ChkBase.MgrRoundTrip | chk/chk_mem_mgr.h:18-27 | so does the manager |
| ChkBase.PtrBits | chk/chk_base.cpp:180-183 | chunk number, offset and size lie in the low 11, the next 12 and the high 9 bits of a handle (the struct at lines 37-44 of chk/chk_base.h) |
| ChkBase.HeaderBits | chk/chk_base.cpp:107-119 | magic, capacity, used words, bump pointer, chunk number, block size and padding lie in their bits of the four header cells (the struct at lines 93-107 of chk/chk_base.h) |
| ChkBase.MgrBits | chk/chk_mem_mgr.h:18-27 | so do the counters, size classes and list heads of the manager |
| ChkHeap.PushKeeps | chk/chk_list.h:25-28 | pushing a vacant range on a list keeps disjointness, placement and all three lists as threaded through memory |
| ChkHeap.PopKeeps | chk/chk_list.h:31-49 | popping takes the first block off its list and off the book, leaves it vacant and keeps the rest |
| ChkHeap.CarveStruct | chk/chk_mem_mgr.cpp:59-89 | carving a vacant range keeps the structural invariant |
| ChkHeap.CarveWrites | chk/chk_mem_mgr.cpp:59-89 | carving writes nowhere outside the range |
| ChkHeap.CarveCounts | chk/chk_mem_mgr.cpp:59-89 | every carved word is on a list or lost, and fewer words are lost than the smallest class has |
| ChkHeap.BookCarveAdds | chk/chk_mem_mgr.cpp:59-89 | carving adds free blocks inside the range and no others, and drops none |
| ChkHeap.FirstFit | chk/chk_mem_mgr.cpp:30-32 | the class served from is the lowest one that is large enough and not empty |
| ChkHeap.HeadOfList | chk/chk_list.h:39-44 | the list in memory is empty exactly when the book's is, and its head names a whole free block |
| ChkHeap.CarryOverKeeps | chk/chk_base.cpp:127-163 | whatever leaves contents below the bump pointers alone keeps every block, list and handle |
| ChkAlloc.PoolTakeKeeps | chk/chk_mem_mgr.cpp:30-50 | serving from a list hands out the front of a free block and recycles the rest, overlapping nothing |
| ChkAlloc.AllocKeeps | chk/chk_base.cpp:386-433 | allocation delivers a fresh block of the size asked for, disjoint from all others, keeping the invariant and all contents, or changes nothing; the latter exactly when no list, no room and no new chunk can serve |
| ChkAlloc.DonateKeeps | chk/chk_base.cpp:405-421 | giving the tail of a full chunk to the lists keeps the invariant and every live block |
| ChkAlloc.FreeKeeps | chk/chk_base.cpp:436-461 | release removes exactly the block, keeps the invariant and every other live block's contents, and loses fewer words than the smallest class has |
| ChkCarving.PresetsFit | chk/chk_mem_mgr.cpp:11-22 | a preset is stored as a non-zero class if and only if it is at least 1 and at most 120, 248 or 1016 bytes, and then rounded up to words |
| ChkCarving.CarvingEndsIff | chk/chk_mem_mgr.cpp:67-88 | the carving loop ends exactly when it never reaches a remainder for which it picks a class of size 0 |
| ChkCarving.CarvingClosedForm | chk/chk_mem_mgr.cpp:67-88 | the blocks carved are n/f2, (n mod f2)/f1 and ((n mod f2) mod f1)/f0 of the three classes and tile the front of the range |
| ChkCarving.CarvedBook | chk/chk_mem_mgr.cpp:67-88 | exactly these blocks join the lists, the last one foremost, and exactly the uncovered words are lost |
| ChkCarving.CarvingLoses | chk/chk_mem_mgr.cpp:67-88 | carving n words loses ((n mod f2) mod f1) mod f0 |
| ChkCarving.FreedIsZero | chk/chk_base.cpp:443-451 | a released block is zero, but for one link per free block made of it |
| ChkCarving.CarveClears | chk/chk_list.h:25-28 | a block that goes to a list is zero behind its link, whatever memory held |
| ChkImage.FieldsFit | chk/chk_mem_mgr.h:18-27 | under the invariant no header field and no manager counter wraps around in its bits |
| ChkImage.UsedBelowVirgin | chk/chk_base.cpp:426-427 | the words in use in a chunk lie below its bump pointer |
| ChkImage.TightIsLeast | chk/chk_base.cpp:127-136 | the tight capacity is the least that holds the words below the bump pointer |
| ChkImage.RelocateKeeps | chk/chk_base.cpp:127-163 | a relocated heap keeps the invariant and every block, live or free, with its contents |
| ChkImage.ShrinkRelocates | chk/chk_base.cpp:127-163 | both copy strategies of `shrink` relocate the heap and leave the tight capacity |
| ChkImage.EnlargeRelocates | chk/chk_base.cpp:79-122 | enlarging the last chunk relocates the heap, whatever the gained memory holds |
| ChkImage.SplitRelocates | chk/chk_base.cpp:525-555 | splitting a shared block relocates the heap |
| ChkImage.FlattenRoundTrip | chk/chk_base.cpp:708-781 | walking the flat image gives back the same chunks, order, counters, contents and non-last capacities, the last capacity tight and the total their sum |
| ChkOwnership.ReleaseAllExactly | chk/chk_base.cpp:491-515 | from the last chunk down every block is released exactly once and no released header is read |
| ChkOwnership.OwnersCover | chk/chk_base.cpp:205-216 | every outstanding block is owned by some chunk |
| ChkOwnership.ForwardIff | chk/chk_base.cpp:508-512 | the other direction is free of faults if and only if no two chunks share a block |
| ChkOwnership.ContinuousIff | chk/chk_base.cpp:517-523 | the test says exactly that all of several chunks share one block |
| ChkOwnership.AllocCapsAddUp | chk/chk_base.cpp:768-775 | the block sizes in the headers sum to the total capacity |
| ChkOwnership.SplitLayout | chk/chk_base.cpp:525-555 | after a split every chunk owns a block of its own and the shared block is back |
| ChkOwnership.RestoredLayout | chk/chk_base.cpp:743-770 | after the header walk all chunks lie end to end in the block of chunk 0 |
| ChkOwnership.NonOwnerInside | chk/chk_base.cpp:205-216 | a chunk that owns no block lies in the middle of the outstanding block of chunk 0 and ends within its recorded size |
| ChkOperations.DirectIffSingle | chk/chk_base.cpp:725-729 | with a pool an image is unpacked straight into a pool chunk if and only if it is that of one chunk |
| ChkOperations.UncompressKeeps | chk/chk_base.cpp:708-781 | `uncompress` fails only for want of memory and then changes nothing; otherwise it relocates the heap that was compressed |
| ChkOperations.SplitIxKeeps | chk/chk_base.cpp:525-555 | the split keeps the invariant and afterwards the last chunk owns its block |
| ChkOperations.EnlargeLastKeeps | chk/chk_base.cpp:236-262 | growing the last chunk keeps the invariant and ends at full size |
| ChkOperations.ShrinkKeeps | chk/chk_base.cpp:315-334 | where it is safe, `shrink` keeps the invariant and every block and ends at the tight capacity |
| ChkOperations.ShrinkFaultsIff | chk/chk_base.cpp:144-157 | it is safe exactly when the last chunk owns its block or has nothing to give back |
| ChkOperations.CompressKeeps | chk/chk_base.cpp:675-705 | `compress` stores the image and gives all chunk blocks back, or leaves the heap alone; it stores exactly when the packed length meets the target |
| ChkOperations.DestructIff | chk/chk_base.cpp:491-515 | everything is given back exactly when the index is not compressed |
| ChkOperations.AllocIxKeeps | chk/chk_base.cpp:375-433 | on an open index `alloc` gives a fresh block, or changes no block and no counter, and exactly when |
| ChkOperations.FreeIxKeeps | chk/chk_base.cpp:436-461 | `free` keeps the invariant of the index and all other blocks |
| ChkOperations.StoreKeeps | chk/chk_list.h:114-121 | a store through a handle inside a live block, such as a list link, disturbs nothing else |
| ChkOperations.EnlargeOpKeeps | chk/chk_base.cpp:336-345 | `enlarge` keeps the invariant and every block, and on success the last chunk is at full size (its return codes: `EnlargeCodes`) |
| ChkCapacity.RecompressTight | chk/chk_base.cpp:743-770 | compression and decompression leave the last chunk at its tight capacity and no other changed |
| ChkCapacity.ShrinkAgrees | chk/chk_base.cpp:127-163 | `shrink` ends with the same capacities as compression and decompression |
| ChkCapacity.ShrinkThenEnlarge | chk/chk_base.cpp:315-345 | `enlarge` after `shrink` restores full capacity with every block in place |
| ChkExact.PopNulls | chk/chk_list.h:31-49 | a popped block keeps its link with the chunk number of a null handle, and the head becomes the old link |
| ChkExact.TakenFromList | chk/chk_mem_mgr.cpp:24-57 | if a list serves, the block is the front of that list's first one, its first cell is a null handle and its others are untouched; the rest is carved onto the lists and no bump pointer moves |
| ChkExact.TakenFromLast | chk/chk_base.cpp:395-399 | otherwise, if the last chunk has room, the block starts at its bump pointer; lists and memory stay |
| ChkExact.TakenFromNew | chk/chk_base.cpp:401-423 | otherwise it starts behind the header of a new chunk and all words left in the last one go to the lists; without a new chunk nothing changes |
| ChkExact.FreedWhere | chk/chk_base.cpp:436-461 | a topmost block lowers the bump pointer to its start, any other goes to the lists as a whole |
| ChkExact.AllocRefuses | chk/chk_base.cpp:360-365 | a size above 4088 is refused with the index left as it is, even compressed |
| ChkExact.AllocWantsEnlarge | chk/chk_base.cpp:379-384 | so is any size while the last chunk owns its block and is below full size |
| ChkExact.AllocFromChunks | chk/chk_base.cpp:386-433 | any other open index allocates from its chunks |
| ChkExact.AllocUnpacks | chk/chk_base.cpp:367 | a compressed index allocates as it would unpacked, or fails and stays as it is |
| ChkExact.BootCases | chk/chk_base.cpp:464-477 | on an open index there is no block, or it is the one behind the manager, exactly in the cases listed: first block, head of the serving list, or one empty chunk |
| ChkExact.BootOnlyOnce | chk/chk_base.cpp:464-477 | while a block lives behind the manager no second one is delivered there |
| ChkExact.EnlargeCodes | chk/chk_base.cpp:336-345 | -1 exactly when it cannot unpack, -3 exactly when a last chunk below full size gets no memory, else 0, also with nothing to do |
| ChkExact.EnlargeLeaves | chk/chk_base.cpp:263-267 | with nothing to unpack, split or enlarge it returns 0 and leaves the index as it is |
| ChkExact.EnlargeExactly | chk/chk_base.cpp:236-262 | a last chunk below full size grows in its pool chunk or moves, keeps every cell and shows zeroes or what the pool chunk held above |
| ChkExact.ShrinkExactly | chk/chk_base.cpp:127-163 | nothing changes if the capacity is tight or a needed block is refused; else it becomes tight, and the chunk stays where it is exactly with a pool and when it keeps more than it gives back |
| ChkExact.SplitExactly | chk/chk_base.cpp:532-551 | every chunk moves to a block of its own with all its cells, the last one with those below its bump pointer and zeroes above |
| ChkExact.SlotsExactly | chk/chk_base.cpp:276-284 | `_chk_addr` doubles, or gets its first slot, exactly when `alloc` asks for a chunk and all slots are taken |
| ChkRestore.UncompressBack | chk/chk_base.cpp:743-770 | decompression gives back every cell behind the overhead, and zeroes above the last bump pointer |
| ChkClasses.ClassesAfterRun | chk/chk_mem_mgr.h:32-34 | after every run the size classes are the presets, and list i leads through free blocks of preset i |
| ChkBlank.RunBlank | chk/chk_base.cpp:443-444 | over every run whose gained memory is zero, memory outside live blocks is zero but for the links of free blocks |
| ChkBlank.AllocAfterRun | chk/chk_base.cpp:356-433 | so a block from `alloc` is zero, but for a null handle in its first cell at most |
| ChkRuns.HandleRoundTrip | chk/chk_base.cpp:360-441 | a live block's handle fits its bits, is not null and names the block; with the byte count asked for it does if and only if that is a multiple of 8, and otherwise names all but the last word |
| ChkRuns.StepKeeps | chk/chk_base.cpp:315-515 | every operation, including the release of the front of a block, keeps the invariant, all blocks it should leave alone with their contents, and the lost-word count from going down |
| ChkRuns.RunKeeps | chk/chk_base.cpp:315-781 | so does every run of them, and no run releases a block that is not outstanding or reads a header that is gone |
| ChkRuns.RunKeepsBlock | chk/chk_base.cpp:315-781 | a live block that a run neither releases nor stores into stays live, and its handle leads to the same contents, whatever is moved, shrunk, enlarged, compressed or unpacked in between |
| ChkRuns.AllocExactly | chk/chk_base.cpp:356-433 | a successful `alloc` brings exactly one block to life, a failed one none |
| ChkRuns.FreeExactly | chk/chk_base.cpp:436-461 | `free`, on an index compressed or not, ends the life of exactly the block named; of a block of which it names the front the rest lives on |
| ChkRuns.FreeAsAsked | chk/chk_base.cpp:440-441 | released with the byte count asked for, a block is gone if that is a multiple of 8, and otherwise leaves its last word live, a block that was not there before |
| ChkRuns.FirstIsBoot | chk/chk_base.cpp:464-477 | the first allocation of an empty index starts right behind the manager |
| ChkRuns.EmptyInv | chk/chk_base.cpp:367-373 | an index without chunks, as its constructor leaves it (lines 169-173 of chk/chk_base.h), meets the invariant |
| ChkRuns.LayoutSpelledOut | chk/chk_base.cpp:491-515 | in every open state the outstanding blocks are exactly those the chunks lie in, a chunk that owns none lies within that of chunk 0, the recorded sizes add up to the total, `_chk_addr` has room; with a pool each chunk has its own block and all but the last are full-size |
| ChkRuns.InvSpelledOut | chk/chk_base.cpp:388-456 | the invariant in plain terms: disjoint blocks in their chunks, lists that hold exactly their class, and the sums of used, virgin, free and capacity |
| ChkSource.ReadsImage | chk/chk_base.cpp:561-646 | any Peek and Skip steps read the flat image from its start, with something to peek at until its end; `Available` is right throughout only in one block |
| ChkSource.SameInBothLayouts | chk/chk_base.cpp:593-627 | the layout of the chunks does not show in what is read |
| ChkSource.ReadsHeap | chk/chk_base.cpp:565-581 | for a heap in order the bytes first available are exactly the image that compression stores |
| ChkSource.ChkCompressSource.constructor | chk/chk_base.cpp:565-581 | the bytes left at first are those of the flat image |
| ChkSource.ChkCompressSource.Available | chk/chk_base.cpp:588-591 | what is left to read in one block, always the whole otherwise |
| ChkSource.ChkCompressSource.PeekBytes | chk/chk_base.cpp:593-606 | what is offered is not empty, continues the flat image, and is all that is left in one block or the rest of the chunk |
| ChkSource.ChkCompressSource.SkipBytes | chk/chk_base.cpp:608-627 | skipping moves the reader on by as much |
| ChkMemory.ChkMetadata.Alloc | chk/chk_base.cpp:166-189 | a bump within the limit and the capacity, else the null handle and no change |
| ChkMemory.ChkMetadata.Free | chk/chk_base.cpp:192-203 | lowers the bump pointer exactly for the topmost block |
| ChkMemory.ChkMetadata.Enlarge | chk/chk_base.cpp:79-122 | the chunk at full size with its contents, in place or in a new block, or no change |
| ChkMemory.ChkMetadata.Shrink | chk/chk_base.cpp:127-163 | the chunk cut down, in place or moved, or no change |
| ChkMemory.ChkMetadata.Destruct | chk/chk_base.cpp:205-216 | one release for an owner, none for others |
| ChkMemory.WriteCells | chk/chk_base.cpp:443-444 | writing inside one chunk changes that chunk's cells and no other chunk, even one in the same block |
| ChkMemory.SplitAll | chk/chk_base.cpp:532-551 | the copying loop makes every chunk a copy of its own, the last up to its bump pointer |
| ChkMemory.DestructAll | chk/chk_base.cpp:508-512 | the loop from the last chunk down leaves the ledger of the specification |
| ChkMemory.WalkBlock | chk/chk_base.cpp:743-766 | the walk over a block finds the chunks of the specification, as views of that block |
| ChkMemory.ImageOf | chk/chk_base.cpp:601-605 | the chunk as it lies in memory |
| ChkMemMgr.ChkMemMgr.Push | chk/chk_list.h:25-28 | zero, link, new head: the list step of the specification |
| ChkMemMgr.ChkMemMgr.Pop | chk/chk_list.h:35-49 | the head moves to the link, which becomes null in its chunk number (`PopNulls`) |
| ChkMemMgr.ChkMemMgr.Free | chk/chk_mem_mgr.cpp:59-89 | the nested loops carve as specified |
| ChkMemMgr.ChkMemMgr.Alloc | chk/chk_mem_mgr.cpp:24-57 | the loop over the classes serves first fit as specified, or changes nothing |
| ChkIndex.ChkIndex.ChkEnlarge | chk/chk_base.cpp:231-312 | grows the last chunk, or adds the first one with a manager of the preset classes, or adds one more, or fails |
| ChkIndex.ChkIndex.BumpOrGrow | chk/chk_base.cpp:395-424 | the retry loop ends with the last chunk bumped, or with a new one bumped and the tail of the full one on the lists, or with no chunk added and the null handle |
| ChkIndex.ChkIndex.Alloc | chk/chk_base.cpp:356-433 | the index takes the step of the run model and keeps its invariant; the handle is that of the block delivered |
| ChkIndex.ChkIndex.Free | chk/chk_base.cpp:436-461 | likewise for a live block, with any byte count of at least a word and at most the block |
| ChkIndex.ChkIndex.Shrink | chk/chk_base.cpp:315-334 | likewise, where it is safe |
| ChkIndex.ChkIndex.Enlarge | chk/chk_base.cpp:336-345 | likewise, with the return code: -1 if it cannot unpack, -3 if a chunk that is not full gets no memory, else 0 |
| ChkIndex.ChkIndex.SplitContinuousChunk | chk/chk_base.cpp:525-555 | likewise; with a pool every chunk ends in a pool chunk of its own |
| ChkIndex.ChkIndex.Compress | chk/chk_base.cpp:675-705 | likewise, reading the chunks through the source |
| ChkIndex.ChkIndex.Uncompress | chk/chk_base.cpp:708-781 | likewise, by the header walk over memory, with the return code |
| ChkIndex.ChkIndex.Destruct | chk/chk_base.cpp:491-515 | likewise |
| ChkIndex.ChkIndex.StoreCell | chk/chk_list.h:114-121 | likewise for a store through a handle |
| ChkIndex.ChkIndex.InitBoot | chk/chk_base.cpp:464-477 | -1 if there is no block, 0 if it is the one right behind the manager, -2 if it is another one; after 0 it is live, otherwise the live blocks are as before; 0 on an index with one empty chunk, never while a boot block lives |
| ChkIndex.ChkIndex.BootAddr | chk/chk_base.cpp:479-489 | the first cell behind the manager, or none if unpacking fails or there is no chunk |
| ChkIndex.ReadThrough | chk/chk_base.cpp:649-658 | a reader that takes what is offered until the bytes first available are used up gets the flat image |
| ChkMemalign.SlotsApart | chk/chk_memalign.cpp:75-85 | cutting up a region gives that many more chunks, none overlapping |
| ChkMemalign.ChkMemalign.Init | chk/chk_memalign.cpp:45-72 | the pool starts with the configured chunks, and only once; that it also switches the allocation functions and UNCOMPRESS_SPLIT is `Env.pooled` |
| ChkMemalign.ChkMemalign.RefillChunks | chk/chk_memalign.cpp:75-85 | the region's chunks join the free ones |
| ChkMemalign.ChkMemalign.Alloc | chk/chk_memalign.cpp:87-114 | hands out the last free chunk, after a refill if there was none, and a refill always gives some |
| ChkMemalign.ChkMemalign.Dellocate | chk/chk_memalign.cpp:116-131 | takes back a chunk that was out |
| ChkMemalign.Balance | chk/chk_memalign.cpp:87-131 | used and free chunks are together the configured ones and a quarter of them per refill |
| ChkMemalign.ChkDefaultMemAlloc.Alloc | chk/chk_memalign.cpp:173-189 | the byte count stays exact |
| ChkMemalign.ChkDefaultMemAlloc.Dellocate | chk/chk_memalign.cpp:222-236 | the byte count stays exact |
| ChkMemalign.ChkDefaultMemAlloc.Reallocate | chk/chk_memalign.cpp:191-220 | the byte count stays exact if and only if the system grants the memory, the size is 0 or the sizes are the same |
| ChkAddress.Addr2Chk | chk/chk_base.cpp:784-802 | the nearest chunk whose header reaches the address, none if there is none |
| ChkAddress.ScanIs | chk/chk_base.cpp:789-800 | when the scan finds a given boundary |
| ChkAddress.ScanFindsIff | chk/chk_base.cpp:784-802 | for an address in a chunk the scan finds the chunk if and only if nothing in between passes for a header |
| ChkAddress.FoundExactly | chk/chk_base.cpp:784-802 | the chunk found is the nearest one whose magic, padding and capacity of at most 16 kilobytes make it reach the address |
| ChkAddress.NotFoundIff | chk/chk_base.cpp:801 | none is found if and only if none reaches it |
| ChkAddress.UnreachedIsNull | chk/chk_base.cpp:807-809 | and then the handle is null |
| ChkAddress.LookupAssertsIff | chk/chk_base.cpp:805-813 | the assertion of the conversion it ends in (lines 237-247 of chk/chk_base.h) fails for exactly the addresses that are unaligned or at or above the bump pointer |
| ChkAddress.BaseNotFound | chk/chk_base.cpp:786-791 | a chunk's own address never leads to the chunk |
| ChkAddress.AddressRoundTrip | chk/chk_base.cpp:805-813 | the address of any cell between a chunk's base and its bump pointer gives the handle of that cell, which gives the address again, if and only if nothing in between passes for a header |
| ChkAddress.BlockRoundTrip | chk/chk_base.cpp:805-813 | handle to address to handle is the identity for a live block on exactly that condition |
| ChkAddress.HandleInverts | chk/chk_base.cpp:805-813 | an address that a handle was made from is the handle's address |
| ChkFailures.ShrinkFaultsAfter | chk/chk_base.cpp:144-157 | on any index without a pool that has several chunks, after a compression that stores, a decompression and the release of the topmost block of the last chunk, `shrink` releases what is no block if and only if fewer kilobytes would do without that block |
| ChkFailures.ShrinkCanFault | chk/chk_base.cpp:315-334 | with every codec and all presets that fit, some run from the empty index leads to a `shrink` that does |
| ChkFailures.DecoyReached | chk/chk_base.cpp:784-813 | wherever the chunk lies, some run from the empty index leads to memory in which the address of a live block does not give its handle |
| ChkLookup.PlainHasNoDecoy | chk/chk_base.cpp:793-796 | a chunk in whose memory no cell but the header's own holds CHK_PADDING where a header could have it hides no boundary that passes the test |
| ChkLookup.RunPlain | chk/chk_base.cpp:315-781 | memory without such a cell stays so over every run whose stores and gained memory bring none in |
| ChkLookup.LookupAfterRun | chk/chk_base.cpp:784-813 | after every such run from the empty index the address of every cell between a chunk's base and its bump pointer gives the handle of that cell |
| ChkRings.RunKeepsRing | chk/chk_list.h:86-92 | a circular list threaded by handles through live blocks survives every run that spares the blocks, whatever is moved, shrunk, enlarged, compressed or unpacked |
| ChkRings.InitLeads | chk/chk_list.h:100-103 | the two stores of an initialisation are a legal run and leave an empty list in memory |
| ChkRings.InsertLeads | chk/chk_list.h:114-121 | the four stores of an insertion are a legal run and leave the list with the node between its neighbours |
| ChkRings.DelLeads | chk/chk_list.h:150-161 | the four stores of a deletion are a legal run and leave the list without the node, which ends unlinked |
| ChkPooled.RunTrades | chk/chk_base.cpp:315-781 | whatever a run does to the blocks of the system it does by obtaining and releasing one at a time |
| ChkPooled.Serve | chk/chk_memalign.cpp:87-131 | the pool can serve any such sequence, and puts the outstanding chunk blocks at different addresses |
| ChkPooled.ServeRun | chk/chk_memalign.cpp:87-131 | after a run over a pool of its own every chunk of the index lies at a pool address of its own and as many pool chunks are in use as the index has chunks |
| ChkList.Init | chk/chk_list.h:100-103 | a list of no nodes |
| ChkList.Empty | chk/chk_list.h:105 | tells whether there are nodes |
| ChkList.Insert | chk/chk_list.h:114-121 | puts the node between two neighbours and keeps the rest |
| ChkList.Add | chk/chk_list.h:124-131 | prepends |
| ChkList.AddTail | chk/chk_list.h:134-141 | appends |
| ChkList.Del | chk/chk_list.h:150-161 | takes out exactly the entry and leaves it unlinked; changes neither an unlinked node nor its neighbours |
| ChkList.Splice | chk/chk_list.h:163-180 | appends one list to another and leaves it empty |
| ChkList.RingIsUnique | chk/chk_list.h:86-92 | memory holds only one list at a head |
| ChkList.Merge | chk/chk_list.h:282-338 | for every comparator and order the loop ends within 2r + l passes, leaves the merged list, an empty right list and the dropped nodes unlinked |
| ChkList.MergeConserves | chk/chk_list.h:298-331 | merged and dropped nodes are exactly the nodes of both lists |
| ChkList.MergeIsSortedUnion | chk/chk_list.h:280-338 | of strictly ascending lists the merge is strictly ascending, holds every left node and the right nodes that tie with none, and drops the others |
| ChkSlist.Push | chk/chk_list.h:25-28 | puts the node in front |
| ChkSlist.Pop | chk/chk_list.h:35-49 | takes the first node off, or nothing off an empty list |
| ChkSlist.Erase | chk/chk_list.h:68-85 | takes the node out wherever it is; fails and changes nothing exactly when it is not there |

## Left out

- Compression itself: the codec is a parameter; that it reads just the bytes first reported available is how `ReadThrough` models it.
- The system allocator: a ledger of blocks, each granted or refused; addresses are block numbers and kilobytes, fresh memory is zeroed.
- ChkHeap.Alloc: the retry inside the growth mode `CHK_MEM_ALLOC_NEED` (chk/chk_base.cpp:93-100) is not modelled; that mode reads the capacity of a chunk that does not exist when it creates the first one.
- ChkMemory.ChkSystem.Allocate: stands for the pool as well as for the system and hands out a new block number each time; which pool address stands behind a number is the matter of `ChkPooled`, over the requests of a run and not inside the class.
- ChkIndexSpec.Uncompress: an image shorter than a header and a manager, or whose walk meets a header of capacity 0, is refused; the program would read past it or not return. No heap has such an image.
- ChkIndex.LoadChunks: with a pool the raw block of an image is as long as its rounded length; the program's is as long as the image, and copies no further.
- ChkIndex.ChkIndex.SplitContinuousChunk: the program asserts that it gets its blocks, so a refusal there is not a case.
- Header and manager cells: the values live in fields while a chunk is open and are written out where an image is read, so a client that overwrites them is not modelled.
- ChkRuns.StepKeeps: `free` is given a handle to the start of a live block and a size of at least a word and at most the block, as by every call in the repository, and `alloc` a positive size; a release of the middle of a block, of a released block or of foreign memory, and the failed assertions of chk/chk_base.cpp:194 and 358, are not steps of a run.
- Integer widths of lengths: the compressed length and the target are unbounded; at the sizes an index can have they do not overflow.
- ChkIndexSpec.AllocOp: sizes above 0x7fff_fff8, for which the rounding up of `alloc(int)` overflows before the limit is tested (chk/chk_base.cpp:360-361), are refused like all others above the limit.
- `ChkIndex::swap`, the destructor's release of `_chk_addr`, and the width of `_chk_addr_size`.
- Threads and the monitor callback of the pool; each operation is one step. Logging and stream operators.
- Iterators other than as the merge uses them, and the traversal macros.
- chk/chk_hash_list.h and chk/chk_string.h: containers on top of the above, which would add easier members.
- chk/chk_testor.h and yf_coroutine_testor.cpp: test drivers.
