# babyOSv: file system, memory management and kernel containers

A Dafny model of the parts of the babyOSv kernel whose correctness depends on
bit arithmetic, linked structures and state that several operations share. The
imperative parts of the kernel are imperative here: classes with the same
fields, methods with the same loops and branches, proved against functions and
predicates whose properties are stated as lemmas.

- **FAT12 volume** (`Fat*.dfy`). The 12-bit table packed into shared bytes
  (`FatTable`), its cluster chains (`FatChains`), the regions of the partition
  (`FatLayout`), and the mounted volume with its cluster cache (`FatVolume`).
  The invariant of `Info` ties them together: the decoded table is well-formed,
  there is at most one cache object per cluster, and `view` - the cached buffer
  if there is one, else the sectors - is what every reader sees. On top of it
  are files with their lagging cursor (`FatFile`), directories as sequences of
  32-byte slots (`FatSlots`, `FatDirectory`) and 8.3 names (`FatName`). The
  layout is that of Microsoft's FAT32 File System Specification (fatgen103),
  sections "FAT Type Determination", "FAT Data Structure" and "FAT Directory
  Structure".
- **Kernel heap** (`Heap`, `HeapBlocks`). Headers in a map from addresses; the
  ghost state says which blocks are free, live, or lost, and that they exactly
  tile the memory obtained. `SortEntries` is the sort of the BIOS memory map.
- **Page allocators** (`PhysicalMemory`, `LogicalMemory`, `Runs`). The
  frame bitmap refines a set of frames; two-level page tables, kept in the
  frames they occupy, refine one flat map from pages to frames.
- **Containers** (`LinkedList`, `DynArray`, `Dictionary`). Nodes with `prev`
  and `next`; a growing array; a sorted array that refines a map.
- **Two small machines** (`Signals` with `ThreadQueue`, `SplitParameters`). A
  wake-up protocol over atomic steps, on a run queue that is the linked list,
  and an in-place tokenizer.

Some laws that one would expect do not hold of the code. The model keeps the
code and states when they do hold: the sector mapping of fatgen103
(`AgreesWithFatgen`), what Mount reads (`MountReadsFirstCopyIff`), clusters that
are linked from behind the data area (`AddExtendsIff`, `AddKeepsWellFormedIff`),
reads that skip a cluster (`CursorAfterRead`), positioning (`PointerLoopEnds`,
`FileSetPointer`), extending a directory (`ExtensionSearchNeverEnds`), names that
fit (`NameRoundTrip`), freeing into an empty list (`Heap.Free`, `AllocAndFree`),
empty blocks (`Heap.Alloc`, `EmptyFreeBlock`), root directories whose last entries
are cut off (`RootHoldsEntries`),
sorting equal bases (`TerminatesIffDistinct`), frames announced and reserved
(`AddedIsAllIff`, `ReservedIsAllIff`), null results (`NullIsFailureIff`), the
joined address (`JoinedIsRunIff`), back links (`InsertAt`, `PushFront`,
`PopBack`) and removals that rely on them (`RemoveAt`, `RemovableIff`,
`SwitchTo`, `SleepAfterSwitch`), the underflowing bound of the dictionary
(`FaultIff`), doubled keys (`HitIffExamined`, `Insert`) and threads set back to
Created (`SetState`).

`dafny verify dfyconfig.toml` checks the whole project.

## Model

| member | source | states |
|---|---|---|
| FatTable.EntryInTable | kernel/FS/FAT.cpp:319-331 | the word of every entry that the scan of AddCluster reads (table bytes * 8 / 12 entries) lies inside the table |
| FatTable.EntryBytes | kernel/FS/FAT.cpp:319-331 | two entries share three bytes: the even one has the first and the low half of the second, the odd one the high half of the second and the third |
| FatTable.PackedNibbles | kernel/FS/FAT.cpp:285-291 | which bits of the two bytes a store replaces: an even entry the first byte and the low nibble of the second, an odd one the high nibble of the first and the second |
| FatTable.StoreKeepsUpper | kernel/FS/FAT.cpp:285-291 | storing an even entry leaves the odd neighbour that shares its second byte unchanged |
| FatTable.StoreKeepsLower | kernel/FS/FAT.cpp:285-291 | storing an odd entry leaves the even neighbour that shares its first byte unchanged |
| FatTable.EntryAfterStore | kernel/FS/FAT.cpp:222-234 | reading any entry after a store gives the stored value for that entry and the old value for every other one |
| FatTable.EntriesAfterStore | kernel/FS/FAT.cpp:278-310 | for every table size and entry, a store changes the decoded table in exactly one place |
| FatChains.ChainUnique | kernel/FS/FAT.cpp:212-249 | a chain is determined by its first cluster |
| FatChains.ChainEntries | kernel/FS/FAT.cpp:232-233 | a chain, entry by entry: every entry is the number of the next cluster, and 0xFF8 or above ends it |
| FatChains.ChainNoDuplicates | kernel/FS/FAT.cpp:212-249 | a terminated chain never visits a cluster twice, so chains are acyclic |
| FatChains.WalkTerminates | kernel/FS/FAT.cpp:212-249 | following GetNextCluster from any live cluster visits only live clusters and reaches the end after at most as many steps as there are data clusters |
| FatChains.HeadsAreDisjoint | kernel/FS/FAT.cpp:212-249 | chains that start at different heads share no cluster |
| FatChains.NoFreeMeansFull | kernel/FS/FAT.cpp:319-334 | free data clusters are counted right: one is free exactly if the count is positive; the scan of AddCluster stays in the data area if one is free or no entry behind the data area is zero |
| FatChains.ScanStaysInside | kernel/FS/FAT.cpp:319-334 | the scan covers the whole table, and the cluster it finds lies in the data area exactly if a data cluster is free |
| FatChains.AddGrowsOneChain | kernel/FS/FAT.cpp:336-338 | linking the free cluster f behind parent appends f to every chain that contains parent and leaves all other chains as they are |
| FatChains.AddStartsChain | kernel/FS/FAT.cpp:336-338 | the new cluster is a chain of its own |
| FatChains.AddKeepsTerminated | kernel/FS/FAT.cpp:312-349 | after a data cluster has been linked every live cluster still starts a terminated chain |
| FatChains.AddKeepsWellFormed | kernel/FS/FAT.cpp:312-349 | linking the lowest free data cluster keeps the table well-formed: links stay among live clusters, no two clusters share a successor, all chains end |
| FatChains.AddTakesOneFree | kernel/FS/FAT.cpp:312-349 | linking a data cluster uses up exactly one free data cluster |
| FatChains.AddKeepsHeads | kernel/FS/FAT.cpp:312-349 | heads stay heads, and without a parent the new cluster is a head |
| FatChains.AddExtendsIff | kernel/FS/FAT.cpp:312-349 | a chain that ends in the parent is extended to a chain exactly if the cluster that the scan found lies in the data area |
| FatChains.AddKeepsWellFormedIff | kernel/FS/FAT.cpp:312-349 | AddCluster keeps the table well-formed exactly if the cluster found lies in the data area or is linked to no parent |
| FatChains.FormattedIsWellFormed | kernel/FS/FAT.cpp:489-503 | a table with only the two reserved entries is well-formed for every data area, all of which is free, whatever lies behind it |
| FatLayout.SectorToReadExact | kernel/FS/FAT.cpp:251-271 | for every cluster of a volume with at most 65536 sectors the 16-bit sector number is the untruncated one and the cluster lies inside the partition |
| FatLayout.RegionsDisjoint | kernel/FS/FAT.cpp:251-271 | every cluster lies behind all FAT copies and different clusters, and the root directory, occupy different sectors |
| FatLayout.FatCopiesApart | kernel/FS/FAT.cpp:301-307 | the sectors of different FAT copies do not overlap |
| FatLayout.AgreesWithFatgen | kernel/FS/FAT.cpp:263-271 | the cluster-to-sector mapping is the one of fatgen103 exactly for one sector per cluster, because 2 is subtracted as a sector count |
| FatLayout.RootHoldsEntries | kernel/FS/FAT.cpp:257-261 | the fixed root directory has room for all its entries exactly if their number is a multiple of 16; otherwise the last ones are cut off |
| FatLayout.DiskByteAt | kernel/FS/FAT.cpp:387-407 | byte i of a cluster is byte i % 512 of its sector i / 512 |
| FatLayout.ClusterWritten | kernel/FS/FAT.cpp:413-426 | writing the sectors of one cluster makes the partition hold its buffer there and changes no FAT copy |
| FatLayout.OtherClusterKept | kernel/FS/FAT.cpp:413-426 | writing the sectors of one cluster changes no byte of any other cluster |
| FatLayout.FatAreaWritten | kernel/FS/FAT.cpp:301-307 | writing in front of the root directory changes no cluster |
| FatLayout.MountReadsFirstCopyIff | kernel/FS/FAT.cpp:635-638 | what Mount reads is the first FAT copy for every partition exactly if there are no hidden sectors |
| FatVolume.Info.constructor | kernel/FS/FAT.cpp:615-682 | mounting reads the table and establishes the volume invariant with an empty cache, so that every cluster reads as it is on the partition |
| FatVolume.FormattedMounts | kernel/FS/FAT.cpp:489-503 | the table that FormatFAT writes is well-formed, as mounting requires, for every size and data area, and all data clusters are free |
| FatVolume.FloppyFits | kernel/FS/FAT.cpp:489-503 | a 2880-sector floppy is such a volume: 2847 data clusters and no more, and a table of 3072 entries, those behind the data area zero |
| FatVolume.FloppyLayout | kernel/FS/FAT.cpp:251-271 | on the floppy, FAT copy k is the 9 sectors from 1 + 9k on, the root directory the 14 sectors from 19 on, and cluster c is sector 31 + c |
| FatVolume.Info.Load | kernel/FS/FAT.cpp:387-407 | a new cache buffer is filled with the bytes of its cluster on the partition |
| FatVolume.Info.GetCache | kernel/FS/FAT.cpp:370-411 | returns the one cache object of the cluster, an existing one with its count increased or a new clean one; the volume as a map from clusters to bytes does not change |
| FatVolume.Info.WriteCluster | kernel/FS/FAT.cpp:417-422 | writes the buffer to exactly the sectors of its cluster |
| FatVolume.Info.FlushCache | kernel/FS/FAT.cpp:413-426 | a dirty cluster is on the partition afterwards and no other cluster or FAT copy changes; the map of the volume is unchanged |
| FatVolume.Info.FreeCache | kernel/FS/FAT.cpp:428-440 | counts down in 32 bits and writes exactly a dirty cache whose count reaches zero; the map of the volume does not change |
| FatVolume.Info.Flush | kernel/FS/FAT.cpp:701-711 | afterwards no cache is dirty, exactly the dirty clusters have been written, and the FAT copies still equal the table |
| FatVolume.Info.WriteFat | kernel/FS/FAT.cpp:302-307 | one FAT copy becomes the table; the copies before it and everything behind the FATs stay |
| FatVolume.Info.PutEntry | kernel/FS/FAT.cpp:285-291 | the two bytes of an entry are replaced as the packing prescribes |
| FatVolume.Info.SetCluster | kernel/FS/FAT.cpp:278-310 | exactly one entry of the decoded table changes, every FAT copy on the partition equals the table, and no cluster changes; GetNextCluster then returns what was stored, and 0 for 0xFF8 and above |
| FatVolume.Info.GetNextCluster | kernel/FS/FAT.cpp:212-249 | reads the successor in the decoded table: 0 for an entry of 0xFF8 or above, and for the clusters 0 and 1 |
| FatVolume.Info.AddCluster | kernel/FS/FAT.cpp:312-349 | succeeds exactly if the parent ends its chain and the table has a free entry; the lowest one becomes 0xFF8, the parent's entry its number, and no other entry changes; the result is a data cluster exactly if one was free, and then all chains stay well-formed; all FAT copies equal the table; otherwise nothing changes |
| FatVolume.Info.Copy | kernel/FS/FAT.cpp:1311 | a store into a cache buffer changes the bytes of that cluster and of no other |
| FatVolume.Info.WriteSlot | kernel/FS/FAT.cpp:1323-1331 | size and, if it was zero, cluster of a directory slot are replaced and the cache becomes dirty |
| FatContent.ContentPut | kernel/FS/FAT.cpp:1311 | storing a byte at position o of a chain overwrites or appends exactly byte o of the content |
| FatContent.ContentExtend | kernel/FS/FAT.cpp:1300-1305 | extending a chain keeps the content |
| FatContent.ContentAt | kernel/FS/FAT.cpp:1311 | byte i of a file is byte i % cs of cluster i / cs of its chain |
| FatContent.OverwriteAt | kernel/FS/FAT.cpp:1337-1355 | what overwriting makes of each byte |
| FatContent.CopiedIsContent | kernel/FS/FAT.cpp:1245-1256 | bytes copied out of a file's own chain are a slice of its content |
| FatContent.CopiedBoth | kernel/FS/FAT.cpp:1220-1236 | copies one behind the other are one copy |
| FatContent.NewSlotFields | kernel/FS/FAT.cpp:1326-1328 | the slot reads back the new size and the kept or new cluster, and all other bytes are untouched |
| FatContent.SlotBytes | kernel/FS/FAT.cpp:109-123 | the cluster of a slot is the word at byte 26, the size the double word at byte 28, low byte first |
| FatContent.SlotAfterWrite | kernel/FS/FAT.cpp:1326-1328 | byte by byte: bytes 28 to 31 become the size, bytes 26 and 27 the cluster if they were zero, and no other byte changes |
| FatFile.File.LinkCluster | kernel/FS/FAT.cpp:1281-1302 | the chain of the file grows by the new cluster or stays; chains disjoint from it survive and stay disjoint |
| FatFile.File.FirstCluster | kernel/FS/FAT.cpp:1278-1294 | the first write caches the first cluster, allocating and clearing it for an empty file; fails exactly if that needs a cluster and none is free |
| FatFile.File.StartChain | kernel/FS/FAT.cpp:1280-1289 | the cluster allocated for an empty file becomes its chain and is all zeros; fails exactly if no data cluster is free |
| FatFile.File.NextCluster | kernel/FS/FAT.cpp:1296-1309 | a cursor on a cluster boundary moves to the next cluster, allocating one, which is not cleared, at the end of the chain; fails exactly if none is free |
| FatFile.File.StoreByte | kernel/FS/FAT.cpp:1311-1318 | one byte of the chain is stored and offset and size move on |
| FatFile.File.UpdateParent | kernel/FS/FAT.cpp:1320-1332 | bytes 26 to 31 of the directory slot are the cluster and the size of the file afterwards, no other byte of it changes, and it is on the partition or waits for the next flush |
| FatFile.File.FilePutByte | kernel/FS/FAT.cpp:1269-1335 | overwrites the content by one byte at the cursor; succeeds exactly if the cluster exists or a data cluster is free, and otherwise changes nothing a caller can observe |
| FatFile.File.FileWrite | kernel/FS/FAT.cpp:1337-1355 | turns content c into c[..p] + bytes + c[p+n..], makes the chain exactly as long as needed, keeps the parent slot in agreement and everything else on the volume unchanged; succeeds exactly if the free clusters suffice; bytes 26 to 31 of the slot are the cluster and the size of the file |
| FatFile.OtherContentKept | kernel/FS/FAT.cpp:1337-1355 | after a write the content of every other file, and its chain, is unchanged |
| FatFile.WriteOutcome | kernel/FS/FAT.cpp:1345-1352 | all bytes are written exactly if the chain and the free clusters together hold them |
| FatFile.PutByteContent | kernel/FS/FAT.cpp:1269-1335 | the content through cluster switch, store and parent update is the old content overwritten by one byte |
| FatFile.SizeBound | kernel/FS/FAT.cpp:1328 | no file of a volume with 16-bit sector numbers needs more than 32 bits of size |
| FatFile.File.ReadSeek | kernel/FS/FAT.cpp:1170-1198 | makes the cluster of the cursor the cached one, or reports the end of the chain |
| FatFile.File.CopyOut | kernel/FS/FAT.cpp:1245-1256 | copies min(request, remaining) bytes out of the cached cluster and keeps the lagging cursor |
| FatFile.File.FileRead | kernel/FS/FAT.cpp:1154-1267 | delivers the bytes at the cursor up to min(request, what file and chain hold), moves the cursor by as much and terminates; `NextChain` says which chain the cursor follows afterwards |
| FatFile.File.SubReads | kernel/FS/FAT.cpp:1219-1242 | the sub-reads of a long request deliver consecutive bytes |
| FatFile.File.CursorAfterRead | kernel/FS/FAT.cpp:1170-1186 | after a read the cursor is right exactly if the read did not start on a non-zero cluster boundary with a request of 0 or of more than a cluster |
| FatFile.File.ReadToEnd | kernel/Shell.cpp:159-171 | reading sector by sector until the end delivers exactly the rest of the content |
| FatFile.PointerLoopEnds | kernel/FS/FAT.cpp:1370-1387 | the loop of FileSetPointer, which goes on in the buffer of the root directory behind the last cluster, ends exactly for offset 0 and for offsets off the boundaries of the buffer it arrives in: of the clusters up to the end of the chain, of the root directory behind it |
| FatFile.File.FileSetPointer | kernel/FS/FAT.cpp:1357-1392 | where its loop ends, the cursor is right exactly for offset 0 and offsets whose cluster the chain has; for an offset behind the chain the file is left caching the root directory |
| FatName.StrFindLastOf | kernel/FS/FAT.cpp:141-153 | finds the last occurrence, or -1 |
| FatName.LFNToF83 | kernel/FS/FAT.cpp:155-182 | fills the 11-byte field with the packed name |
| FatName.PackedUpper | kernel/FS/FAT.cpp:155-182 | the field holds the bytes of base and extension with every letter a to z replaced by its capital and every other byte kept |
| FatName.DotPosIs | kernel/FS/FAT.cpp:157-159 | the extension begins at the last dot, unless nothing follows it |
| FatName.PrintName | kernel/FS/FAT.cpp:833-856 | prints base and extension up to their first space, in lower case |
| FatName.LowerIs | kernel/FS/FAT.cpp:838-850 | only the capital letters change |
| FatName.ExtensionPrinted | kernel/FS/FAT.cpp:170-181 | an extension of fewer than three bytes is followed by a NUL, which is printed |
| FatName.ShownName | kernel/FS/FAT.cpp:155-182 | what a directory shows, as a C string, for any name without spaces: eight bytes of the base and three of the extension, in lower case |
| FatName.NameRoundTrip | kernel/FS/FAT.cpp:833-856 | a directory shows the lower-cased name exactly if it has at most eight bytes before the extension and three in it |
| FatSlots.StoreSlot | kernel/FS/FAT.cpp:986-987 | storing a slot changes exactly that slot of the directory |
| FatSlots.CursorSlot | kernel/FS/FAT.cpp:823 | the cursor position is a slot number of the whole directory, with exactly the slots behind it still to come |
| FatSlots.ListingAfterStore | kernel/FS/FAT.cpp:968-996 | taking the first free slot adds one entry behind the leading ones and moves none |
| FatSlots.FirstFreeUnique | kernel/FS/FAT.cpp:977-982 | the search loop stops at the first free slot |
| FatSlots.FirstFreeBytes | kernel/FS/FAT.cpp:351-354 | that is the first slot whose first byte is 0, a space or 0xE5 |
| FatSlots.ListingIs | kernel/FS/FAT.cpp:861-875 | the listing keeps, in order, exactly the slots whose first byte is none of these |
| FatSlots.DecodedBytes | kernel/FS/FAT.cpp:823-832 | what a slot is reported as, by its bytes: validity by byte 0, the directory attribute by bit 4 of byte 11, the size by bytes 28 to 31 |
| FatSlots.SlotInCluster | kernel/FS/FAT.cpp:823 | slot i of a cluster is its 32 bytes from 32 * i on |
| FatDirectory.Directory.constructor | kernel/FS/FAT.cpp:729-742 | the root directory is opened in front of its first slot |
| FatDirectory.Directory.Advance | kernel/FS/FAT.cpp:764-821 | the cursor moves to the next slot of the fixed root or of the chain, or reports the end of file |
| FatDirectory.Directory.DirectoryReadInternal | kernel/FS/FAT.cpp:759-859 | delivers the next slot, decoded |
| FatDirectory.Directory.DirectoryRead | kernel/FS/FAT.cpp:861-875 | delivers the next slot whose first byte is not 0, a space or 0xE5, once, passing over just the others, or the end of file |
| FatDirectory.Directory.DirectoryRewind | kernel/FS/FAT.cpp:877-897 | all slots are still to come |
| FatDirectory.Directory.ListAll | kernel/Shell.cpp:93-112 | rewinding and reading to the end delivers exactly the valid slots in order |
| FatDirectory.Directory.FindFree | kernel/FS/FAT.cpp:976-982 | the search of the extension and of the insertion ends on the first free slot, or finds none exactly if all are taken |
| FatDirectory.Directory.ExtendDirectoryIfNoFreeEntries | kernel/FS/FAT.cpp:924-966 | reports a full root directory and otherwise changes nothing |
| FatDirectory.ExtensionSearchNeverEnds | kernel/FS/FAT.cpp:940-947 | on every chain the loop that is to find the last cluster of a full subdirectory waits for a value that GetNextCluster never returns |
| FatDirectory.Directory.DirectoryAddEntry | kernel/FS/FAT.cpp:968-996 | the template replaces the first free slot and no other, and waits for the next flush; no cluster outside the directory changes |
| FatDirectory.Directory.FileCreate | kernel/FS/FAT.cpp:1079-1103 | the new slot takes the first free place; success is reported even if there is none |
| FatDirectory.CreatedEntry | kernel/FS/FAT.cpp:1086-1099 | the created slot lists as an empty file under its lower-cased name, if that fits 8.3, and counts as free exactly for an empty base or a name starting with 0xE5 |
| FatDirectory.NewFileBytes | kernel/FS/FAT.cpp:1086-1099 | the bytes of the created slot: no attributes, no times, three dates, cluster 0 and size 0 |
| FatDirectory.CreateInEmpty | kernel/FS/FAT.cpp:1079-1103 | a directory of zero bytes lists nothing; FileCreate there takes slot 0, and the listing is then exactly that entry, or still empty for a name that makes the slot count as free |
| FatDirectory.Directory.FileOpen | kernel/FS/FAT.cpp:1113-1133 | the opened file stands at offset 0; its first cluster is byte 26 plus 256 times byte 27 of the slot, its size bytes 28 to 31, whatever the uninitialised flag holds |
| FatDirectory.CreateAndOpen | kernel/FS/FAT.cpp:1079-1133 | FileCreate followed by FileOpen gives a valid empty file without a cluster |
| FatDirectory.DirectoryKept | kernel/FS/FAT.cpp:1337-1355 | a write to a file leaves a directory that shares no cluster with it valid |
| FatDirectory.WriteAndReopen | kernel/FS/FAT.cpp:1113-1355 | writing, opening the same slot again and reading to the end delivers exactly the overwritten content |
| HeapBlocks.TilesReplace | kernel/Core/Memory.cpp:275-399 | replacing blocks by blocks that cover the same bytes keeps the exact cover of the obtained memory |
| HeapBlocks.TilesSplit | kernel/Core/Memory.cpp:301-310 | splitting a block keeps the exact cover, headers included |
| HeapBlocks.TilesJoin | kernel/Core/Memory.cpp:351-355 | joining adjacent blocks keeps the exact cover |
| HeapBlocks.TilesSum | kernel/Core/Memory.cpp:275-399 | blocks that exactly cover the obtained memory have lengths plus headers that add up to its size |
| HeapBlocks.MergedCoalesced | kernel/Core/Memory.cpp:345-362 | merging a sorted list leaves no two free blocks adjacent and keeps the number of free bytes, headers included |
| HeapBlocks.MergedPair | kernel/Core/Memory.cpp:345-362 | merging joins exactly the one adjacent pair of an otherwise coalesced list |
| HeapBlocks.TakeTotal | kernel/Core/Memory.cpp:294-320 | the list loses exactly the block handed out, which is at least as long as requested |
| HeapBlocks.TakenLength | kernel/Core/Memory.cpp:298-310 | the block handed out starts where the free block starts and is as long as requested, or longer by at most 16 bytes |
| HeapBlocks.TakeNoneEmpty | kernel/Core/Memory.cpp:301-310 | taking a block leaves a block of length 0 exactly for a request of 0 bytes that is split off, so a remainder of exactly 16 bytes is not |
| HeapBlocks.TakeOrder | kernel/Core/Memory.cpp:294-320 | taking a block keeps the list sorted and coalesced |
| HeapBlocks.InsertOrder | kernel/Core/Memory.cpp:377-396 | inserting a block that overlaps none keeps the list sorted |
| HeapBlocks.FreeUndoesAlloc | kernel/Core/Memory.cpp:275-399 | freeing what a request without growth has been given restores the coalesced free list |
| HeapBlocks.RegionFits | kernel/Core/Memory.cpp:238-242 | a new region holds the request and its header and is the smallest multiple of 4096 bytes, at least 16384, that does |
| Heap.Heap.MallocAddPage | kernel/Core/Memory.cpp:236-273 | writes the header of the new region |
| Heap.Heap.MallocMerge | kernel/Core/Memory.cpp:345-362 | terminates and relinks the headers to the merged list |
| Heap.Heap.Take | kernel/Core/Memory.cpp:298-321 | relinking the headers takes the front of the block off the list, or the whole block, and hands it out |
| Heap.Heap.Grow | kernel/Core/Memory.cpp:326-333 | the new region becomes the last free block |
| Heap.Heap.Alloc | kernel/Core/Memory.cpp:275-343 | first fit: grows exactly if no free block is long enough, hands out, from the start of the first block that fits, at least the requested length and at most 16 bytes more, overlapping no live block; free, live and lost blocks stay an exact cover of the obtained memory, and no block becomes empty exactly if the request is not 0 bytes or nothing is split off |
| Heap.Heap.Insert | kernel/Core/Memory.cpp:377-395 | relinking the headers puts the block at its place by address |
| Heap.Heap.Free | kernel/Core/Memory.cpp:364-399 | a used block returns to the list, which is sorted and coalesced afterwards, and no block becomes empty; exactly if the list is empty the block is lost; a double free changes nothing |
| Heap.Heap.Conserved | kernel/Core/Memory.cpp:275-399 | at every point of a run the free, live and lost blocks with their headers add up to the memory obtained |
| Heap.AllocAndFree | kernel/Core/Memory.cpp:275-399 | Alloc followed by Free restores the coalesced free list, without growth, exactly if a block was left on it in between; with growth, exactly if the list was empty and the request takes the whole new region, which is lost |
| Heap.EmptyFreeBlock | kernel/Core/Memory.cpp:275-399 | after a request of 0 bytes the free list can hold a block of length 0 |
| SortEntries.SwapRemovesInversion | kernel/Core/Memory.cpp:55-61 | swapping neighbours in the wrong order removes exactly one inversion |
| SortEntries.PassKeeps | kernel/Core/Memory.cpp:53-62 | a pass permutes the entries and reduces the inversions whenever it swaps, for distinct bases |
| SortEntries.QuietIffSorted | kernel/Core/Memory.cpp:53-65 | a pass swaps nothing exactly on a strictly sorted table |
| SortEntries.TerminatesIffDistinct | kernel/Core/Memory.cpp:47-67 | the outer loop ends exactly for tables with pairwise distinct bases |
| SortEntries.Sort | kernel/Core/Memory.cpp:47-67 | for pairwise distinct bases it terminates with a strictly sorted permutation |
| SortEntries.SortPass | kernel/Core/Memory.cpp:53-62 | the inner loop performs one pass and reports whether it swapped |
| Runs.ScanFree | kernel/Core/Memory_Physical.cpp:189-199 | a scan that has found `count` free places in a row stands on the lowest such run |
| Runs.ScanUsed | kernel/Core/Memory_Physical.cpp:201-204 | no run reaches across a used place |
| Runs.ScanEnd | kernel/Core/Memory_Physical.cpp:208-209 | a scan that reaches the end has shown that there is no run |
| Runs.ScanFreeBlock | kernel/Core/Memory_Logical.cpp:82-88 | a whole block of free places can be scanned at once |
| PhysicalMemory.OneBitChanges | kernel/Core/Memory_Physical.cpp:49 | setting or clearing a bit of a byte changes that bit and no other |
| PhysicalMemory.BitsAfterWrite | kernel/Core/Memory_Physical.cpp:49 | setting or clearing a bit of the bitmap adds or removes exactly one frame of the set |
| PhysicalMemory.PageCount | kernel/Core/Memory_Physical.cpp:181 | the pages counted for a size hold it, and one less would not, up to 2^32 - 4096; beyond, the rounding wraps and none is counted |
| PhysicalMemory.BitmapSize | kernel/Core/Memory_Physical.cpp:5-10 | the bitmap stands for 32 MB |
| PhysicalMemory.AddedInside | kernel/Core/Memory_Physical.cpp:28-40 | every frame that is counted in lies wholly inside the announced memory; of the frames that do, and whose bit the loop reaches, at most the last one is left out |
| PhysicalMemory.AddedIsAllIff | kernel/Core/Memory_Physical.cpp:28-50 | no whole frame of the announced memory is lost exactly if its two cut-off ends do not make up a page and none lies behind the frames that the loop reaches |
| PhysicalMemory.ReservedOverlap | kernel/Core/Memory_Physical.cpp:60-67 | only frames that the memory reaches into are reserved |
| PhysicalMemory.ReservedIsAllIff | kernel/Core/Memory_Physical.cpp:60-72 | all of them are reserved exactly if the memory reaches into no more frames than its length counts, the 32-bit rounding does not wrap and the last frame is reached by the loop |
| PhysicalMemory.Bitmap.constructor | kernel/Core/Memory_Physical.cpp:13-19 | no frame is free at first |
| PhysicalMemory.Bitmap.AddFreeMemory | kernel/Core/Memory_Physical.cpp:21-51 | the set of free frames grows by the frames counted in, up to and including the eight of the byte behind the bitmap |
| PhysicalMemory.Bitmap.ReserveMemory | kernel/Core/Memory_Physical.cpp:53-73 | the set of free frames shrinks by the frames counted in |
| PhysicalMemory.Bitmap.Alloc | kernel/Core/Memory_Physical.cpp:178-210 | takes the lowest run of just as many frames as hold the size, of one for size 0 and for sizes whose rounding wraps, and only those; returns 0 and changes nothing if there is no run |
| PhysicalMemory.Bitmap.AllocPage | kernel/Core/Memory_Physical.cpp:212-231 | takes the lowest free frame, or returns 0 and changes nothing |
| PhysicalMemory.Bitmap.FreePage | kernel/Core/Memory_Physical.cpp:233-240 | makes exactly one frame free |
| PhysicalMemory.RunConserves | kernel/Core/Memory_Physical.cpp:178-240 | over every run in which only held frames are freed, free and held frames stay apart and their union does not change |
| PhysicalMemory.TakeIsDetermined | kernel/Core/Memory_Physical.cpp:178-231 | the outcome of an allocation is determined by the free frames, and it never hands out a held frame |
| PhysicalMemory.NullIsFailureIff | kernel/Core/Memory_Physical.cpp:198-209 | a null result means failure exactly if no run of that length starts at frame 0 |
| LogicalMemory.LeafAfterWrite | kernel/Core/Memory_Logical.cpp:128-131 | writing a table entry changes the translation of that page and of no other, across both levels |
| LogicalMemory.LeafAfterTable | kernel/Core/Memory_Logical.cpp:110-125 | a new cleared table maps nothing and disturbs no other page |
| LogicalMemory.AbToAddrValue | kernel/Core/Memory_Logical.cpp:53-56 | joining slot and index with a bitwise or loses the carry of index 1024 exactly for odd slots |
| LogicalMemory.JoinedIsRunIff | kernel/Core/Memory_Logical.cpp:53-90 | the pages returned for the lowest run are free exactly if the run does not start at an even slot above the first |
| LogicalMemory.RunIsUnmapped | kernel/Core/Memory_Logical.cpp:45-92 | the pages of a run that the search finds have no translation |
| LogicalMemory.UnusedIs | kernel/Core/Memory_Logical.cpp:45-92 | the pages searched are those from 0x80000000 on that have no translation |
| LogicalMemory.BytesMapped | kernel/Core/Memory_Logical.cpp:143-155 | mapping the pages counted from a length maps every byte of the range if its end does not run into another page |
| LogicalMemory.BytesTranslated | kernel/Core/Memory_Logical.cpp:143-155 | with consecutive frames, from aligned addresses, byte k of the range translates to byte k of the physical memory |
| LogicalMemory.MissingStep | kernel/Core/Memory_Logical.cpp:110-116 | mapping the first page of a range provides the one table it may be missing |
| LogicalMemory.TakeOne | kernel/Core/Memory_Logical.cpp:112-113 | while frame 0 is in use and a frame is free, a request for one page yields a non-null free frame |
| LogicalMemory.Paging.GetPhysicalFromLogical | kernel/Core/Memory_Logical.cpp:22-30 | gives the start of the mapped frame for every mapped page; the offset in the page is dropped |
| LogicalMemory.Paging.FindFreeLogicalSpace | kernel/Core/Memory_Logical.cpp:45-92 | searches the lowest run of just as many unmapped kernel pages as hold the size and returns it with the lost carry, or null exactly if there is none |
| LogicalMemory.Paging.MapPage | kernel/Core/Memory_Logical.cpp:94-132 | the page translates to the frame and every other translation is unchanged; a frame leaves the free set exactly if the table was missing |
| LogicalMemory.Paging.MapPages | kernel/Core/Memory_Logical.cpp:143-155 | each page of the range translates to the frame at its place and every other translation is unchanged |
| LogicalMemory.Paging.MapRange | kernel/Core/Memory_Logical.cpp:134-158 | the same for a given address or for the lowest free run; every byte of the range is mapped if its end does not run into another page, and to its place in the physical memory for aligned addresses |
| LogicalMemory.Paging.Alloc | kernel/Core/Memory_Logical.cpp:192-232 | every byte of the block is mapped: the lowest run of just as many unmapped pages as hold the size gets pairwise distinct frames that were free and serve as no page table; every other translation is unchanged |
| LinkedList.WithoutMultiset | kernel/Containers/List.hpp:247-259 | filtering drops exactly the elements equal to the argument and keeps the count of all others |
| LinkedList.List.constructor | kernel/Containers/List.hpp:67-70 | an empty list |
| LinkedList.List.PushBack | kernel/Containers/List.hpp:312-329 | appends and keeps head, tail, size, forward and back links |
| LinkedList.List.PopFront | kernel/Containers/List.hpp:287-297 | takes the first element; the new head may keep a stale back link |
| LinkedList.List.RemoveAt | kernel/Containers/List.hpp:204-245 | for any back links, the list is right afterwards exactly if the node is the head or points back to its predecessor; then it loses exactly that node, in each of the three cases, and returns the successor; a null pointer is dereferenced exactly for a node behind the head without a back link |
| LinkedList.List.Remove | kernel/Containers/List.hpp:247-259 | on data that occurs at most once, right exactly if the removal is (see RemovableIff), and then exactly the filter; it terminates in any case, and dereferences null exactly if the node behind the head has no back link |
| LinkedList.List.RemovableIff | kernel/Containers/List.hpp:204-259 | data that occurs at most once can be removed exactly if it is absent, at the head, or in a node that points back to its predecessor |
| LinkedList.List.Clear | kernel/Containers/List.hpp:261-273 | empties the list, and terminates |
| LinkedList.List.Contains | kernel/Containers/List.hpp:361-373 | finds an element exactly if it is there |
| LinkedList.List.InsertAt | kernel/Containers/List.hpp:149-184 | inserts in front of the position, or at the end; back links stay right exactly at the head and at the end |
| LinkedList.List.PushFront | kernel/Containers/List.hpp:275-285 | prepends with right forward links; the list is whole afterwards exactly if it was empty, because the old head never gets a back link; a list with wrong forward links stays wrong |
| LinkedList.List.PopBack | kernel/Containers/List.hpp:331-346 | takes the last element; the list stays valid exactly if it had two nodes or its head no stale back link |
| LinkedList.PopBothEnds | kernel/Containers/List.hpp:287-346 | on two elements PopFront and then PopBack leave an invalid list |
| DynArray.Array.Resize | kernel/Containers/Array.hpp:275-289 | doubles the capacity, from 0 to 8, and keeps the contents |
| DynArray.Array.InsertAt | kernel/Containers/Array.hpp:146-169 | inserts in front of the index, clamped to the size |
| DynArray.Array.RemoveAt | kernel/Containers/Array.hpp:180-196 | removes the indexed element; the index just behind the end drops the last one, a larger one nothing |
| DynArray.Array.Remove | kernel/Containers/Array.hpp:207-216 | is exactly the filter |
| DynArray.Array.PushBack | kernel/Containers/Array.hpp:250-253 | appends |
| Dictionary.MapOfInsert | kernel/Containers/Dictionary.hpp:132-138 | putting a tuple where its key belongs keeps the keys strictly sorted and updates the map |
| Dictionary.MapOfRemove | kernel/Containers/Dictionary.hpp:63-71 | taking a tuple out keeps the keys sorted and removes the key from the map |
| Dictionary.SearchCorrect | kernel/Containers/Dictionary.hpp:89-105 | with an exclusive first bound and index - 1 steps the search still ends on the key or beside its place |
| Dictionary.LeadingOnesIff | kernel/Containers/Dictionary.hpp:94-95 | the sizes at which the bound underflows lie between 3 and 4 times a power of two |
| Dictionary.FaultIff | kernel/Containers/Dictionary.hpp:89-100 | the 32-bit bound underflows exactly for a key below the smallest, if size + 2 begins with the binary digits 11 |
| Dictionary.SearchFinds | kernel/Containers/Dictionary.hpp:84-106 | looking at the unexamined position decides whether the map has the key |
| Dictionary.MissInserts | kernel/Containers/Dictionary.hpp:132-138 | inserting beside an unexamined position is right exactly if the key is not there yet, and doubles it otherwise |
| Dictionary.HitIffExamined | kernel/Containers/Dictionary.hpp:118-130 | the loop stops on the key at a position exactly if the position is examined, which depends on the size alone |
| Dictionary.MissedInFrontOfMiddle | kernel/Containers/Dictionary.hpp:118-130 | at every size from 2 on, the position in front of the middle is not examined |
| Dictionary.DoubledKey | kernel/Containers/Dictionary.hpp:118-138 | with the keys 1 and 3, inserting 1 doubles it |
| Dictionary.Dictionary.FindTuple | kernel/Containers/Dictionary.hpp:84-106 | finds the key exactly if the map has it, with the value of the map |
| Dictionary.Dictionary.Insert | kernel/Containers/Dictionary.hpp:108-139 | keeps the keys sorted exactly if the key is not there or at a position that the loop examines, and then updates the map |
| Dictionary.Dictionary.Index | kernel/Containers/Dictionary.hpp:28-36 | looks the key up and inserts the default value if it is missing |
| Dictionary.Dictionary.Assign | kernel/Containers/Dictionary.hpp:28-36 | assigning through the returned reference updates the map |
| Dictionary.Dictionary.RemoveKey | kernel/Containers/Dictionary.hpp:63-71 | removes the key from the map, if it is there |
| ThreadQueue.WithoutKeepsDistinct | kernel/Core/Thread.cpp:440-450 | filtering keeps a queue free of duplicates and drops nobody else |
| ThreadQueue.RequeuedKeeps | kernel/Core/Thread.cpp:433-453 | on a queue without duplicates, a thread is queued after a change of state, other than to Created, exactly if the state is Running or Unstoppable, at the end if it was not queued; every other thread keeps its place, and no thread is queued twice |
| ThreadQueue.Scheduler.SetState | kernel/Core/Thread.cpp:425-454 | on the linked queue, with whatever back links: the list is right afterwards exactly if no removal is needed or the thread can be removed (see LinkedList.List.RemovableIff); null is dereferenced exactly for a removal behind the head without a back link; if the list is right, only runnable threads are queued exactly if the state is not Created or the thread was not queued; nothing happens for the same state |
| ThreadQueue.Scheduler.SwitchTo | kernel/Core/Thread.cpp:409-418 | a runnable thread moves to the front and the others keep their order, exactly if it can be removed; the list is whole afterwards exactly if no other thread is queued, and otherwise the second thread cannot be removed; a thread that is not runnable changes nothing |
| ThreadQueue.SleepAfterSwitch | kernel/Core/Thread.cpp:409-454 | two threads are queued and the second is switched to: putting the first to sleep dereferences null |
| Signals.RunAccounts | kernel/Core/Signal.cpp:14-52 | over every interleaving a raised signal has no waiters, threads are woken in the order in which they went to sleep, and every raise has woken one, was consumed, reset or coalesced, or is still pending |
| Signals.Signal.Wait | kernel/Core/Signal.cpp:14-29 | one Wait step; the queue is right afterwards exactly if the latch was set or the current thread can be removed from it, and then the thread that goes to sleep has left the run queue and waits once |
| Signals.Signal.Raise | kernel/Core/Signal.cpp:31-45 | one Raise step, which never fails: the longest waiting thread becomes runnable at the end of the queue, or the latch stays set |
| Signals.Signal.Reset | kernel/Core/Signal.cpp:47-52 | one Reset step |
| SplitParameters.Split | kernel/Shell.cpp:212-259 | the loop over the buffer performs the scan, in place |
| SplitParameters.MarkTogglesIff | kernel/Shell.cpp:221-240 | a byte opens or closes a quotation exactly if it is a quotation mark without a backslash in front of it |
| SplitParameters.SplitOk | kernel/Shell.cpp:212-259 | for every line the pointers increase strictly and stay inside, and only spaces and quotation marks are overwritten, by NUL |
| SplitParameters.ScanTokens | kernel/Shell.cpp:218-256 | scanning a printed line yields one pointer per word and a NUL behind each |
| SplitParameters.SplitUndoesPrinting | kernel/Shell.cpp:212-259 | for every list of bare or quoted words, with escaped quotation marks and backslashes in them, printed with spaces between, the pointers read as exactly those words, as C strings, in increasing positions; only the backslash at the start of a bare word that begins with an escaped mark is lost |
| SplitParameters.ExampleWords | kernel/Shell.cpp:212-259 | what a quoted word with a space and a bare word with an escaped mark are in bytes |

## Left out

- FatVolume.Info.Flush: writes dirty clusters only, and storing file bytes never marks a cache dirty, so file data is coherent while the volume is mounted but not claimed to be durable.
- FatVolume.Info.constructor: requires a volume whose table is well-formed, at most 65536 sectors and a FAT of at most 65536 bytes, so that 16-bit sector numbers and table offsets do not wrap; that the type is chosen by the number of sectors is not modelled.
- FatVolume.Info.FreeCache: the 32-bit reference count is exact per call, but not related to the number of users; cache objects are never evicted.
- FatVolume.Info.AddCluster: requires a live parent cluster, or none, and a lowest free entry, if there is one, whose number fits an entry of 12 bits.
- FatFile.File.FilePutByte: requires a cursor that is right and not behind the end, which FileOpen, FileWrite, reads that do not skip and FileSetPointer establish; when a cluster is needed, also a free data cluster or no zero entry behind the data area, because otherwise AddCluster links one from there.
- FatFile.File.FileWrite: requires enough free data clusters for the request or no zero entry behind the data area, for the same reason.
- FatFile.File.FileSetPointer: excludes an offset other than 0 without a cached cluster, which dereferences null, offsets for which the loop does not end (see FatFile.PointerLoopEnds), and overshooting 2^32 behind the chain.
- FatDirectory.Directory.FileOpen: requires a slot that names a terminated chain, apart from the directory, of at least the size of the file.
- FatDirectory.Directory.DirectoryAddEntry: requires a free slot in a subdirectory, because extending one does not terminate.
- FatDirectory.CreatedEntry: names with spaces or NUL bytes are not covered.
- FatDirectory.WriteAndReopen: requires the room that FatFile.File.FileWrite requires.
- Heap.Heap.Alloc: where Logical::Alloc puts a new region is a parameter, above all earlier regions; running out of memory and requests that wrap 32 bits are excluded.
- Heap.Heap.Free: requires a pointer behind a header; the code trusts any pointer.
- SortEntries.Sort: requires distinct bases, without which the loop does not end; FixEntries and CreateMemoryMap are not modelled.
- PhysicalMemory.Bitmap.FreePage: requires an aligned address inside the bitmap; maxMemoryIndex, which only the memory map printout reads, is not modelled.
- PhysicalMemory.Bitmap.AddFreeMemory: the byte behind the bitmap, which the bounds check lets through, is modelled as one more byte of the array.
- LogicalMemory.Paging.MapRange: requires enough free frames for the missing tables and frame 0 in use, since a null frame is taken for a failure; mapping through directory slot 1023, the window to the tables themselves, is excluded.
- LogicalMemory.Paging.Alloc: requires in addition that the first run is one that the search returns correctly (see LogicalMemory.JoinedIsRunIff) and a size from 1 to 2^32 - 4096; page attributes other than the address and the present bit, and refreshing the translation cache, are not modelled.
- LogicalMemory.Paging.GetPhysicalFromLogical: requires a present table; it ignores the present bit of the page, about which nothing is said for unmapped pages.
- LinkedList.List.RemoveAt: requires a node of the list, found by a ghost index; sizes are unbounded, element destructors are not modelled, and the memory of a deleted node is not used again, so that a stale back link never becomes right by chance.
- LinkedList.List.Remove: of data that occurs more than once, only lists in which every removal is right are covered.
- DynArray.Array.Resize: allocation succeeds, and sizes stay below 2^31; element constructors and destructors are not modelled.
- DynArray.Array.RemoveAt: index 0 of an empty array is excluded, because the size would wrap.
- Dictionary.Dictionary.FindTuple: requires a key for which the bound does not underflow (see Dictionary.FaultIff); keys are integers.
- ThreadQueue.Scheduler.SwitchTo: of a queue whose list is no longer right nothing else is claimed, and calls on it are not modelled.
- Signals.Signal.Wait: the waiting threads are a sequence, because they are only pushed at the back and popped in front, which the linked list does right with any back links (see LinkedList.List.PushBack and PopFront); the switch to another thread after the step is not modelled, and no liveness or fairness is claimed.
- SplitParameters.SplitUndoesPrinting: a quoted word that ends in a backslash is excluded, because it escapes the closing mark (see SplitParameters.MarkTogglesIff), and so are bare words without a space behind them; for those only SplitOk is claimed.
- FAT16 and FAT32, Unmount, delete and label operations, formatting, DirectoryCreate and DirectoryFollow.
- Freeing and unmapping logical pages: the assertion in Unmap fails for every mapped page.
- Block drivers, ports, interrupts, timers, video, keyboard and terminal: the partition is an array of 512-byte sectors whose accesses succeed.
- Context switches, thread creation and stacks, Mutex, String, Path, RingBuffer and the VFS glue.
