# LBoot in Dafny

A model of the hard parts of LBoot, a freestanding x86 boot loader, and proofs about it. The code that
works in place (allocator, FAT reader, XMODEM receiver, ring buffer, configuration parser, tag builder,
ELF loader) is written as classes and loops over arrays; each method is proved equal to a function on
values, and what the code is for is proved about those functions: invariants over whole runs, round
trips, and the exact conditions under which the code does what its documentation says.

`dafny verify dfyconfig.toml` checks everything.

| files | subject |
|---|---|
| AllocTable, AllocHeap, Alloc | the self-hosting best-fit allocator |
| SectorMap, SectorWalk, MapBytes, BootMap | the stage-2 sector map: built, linked, and walked by stage 1 |
| Fat12, FatCache, FatLru, FatReader, FatFile, FatChain, FatName, FatPath, FatLayout | FAT12 entries, the ranked cache, file reads, name comparison, path lookup, and the on-disk layout they are measured against |
| Xmodem, XmodemRun | the receiver, and whole transfers over a lossy channel |
| Fifo, FifoIsr | the ring buffer, and its receive interrupt interleaved with the reader |
| Numbers, Printing, Strtoul | 64-bit division, number printing and parsing |
| ConfigText, Config | what a configuration text says, and the parser that cuts it in place |
| Multiboot, MultibootReader, MultibootBuilder | the Multiboot 2 structure, what a kernel reads in it, and the code that writes it |
| Loader, DiskLoader | ELF segments and modules, and the same over FAT file reads |
| Wrappers, Arith, Bytes | shared types and arithmetic |

## Where the code differs from what it says

The model follows the code. Each point is a theorem, named behind it.

- The allocator treats the end of a memory range as exclusive, where `inc/mm/alloc.h:34` calls it inclusive: the last byte of each window is never used (AllocHeap.LastByteUnused).
- Freeing the address of one of the table's own blocks succeeds and breaks the heap (AllocHeap.FreeKeepsHeap, AllocHeap.FreedTableBlock).
- Stage 1 compares the drive register, not its cursor, with the end of a map chunk: only one-chunk maps load as documented (SectorWalk.AsmStopsAtOneChunk).
- The loader follows FAT entry 0xff0, the host tool does not (Fat12.LoaderAndToolAgree).
- A file read that starts inside a cluster and leaves it copies from the wrong place (FatFile.StraightIsExact, FatChain.StraightIsExactOnEnding).
- The FAT cache starts uninitialised: it is least recently used exactly from ranks of which at most k are below k, for k = 1, 2, 3 (FatLru.LruExact); from all-zero ones it replaces entry 0 every time (FatCache.ZeroRanksStay, FatCache.ZeroRanksThrash). An address that two entries start with upsets the order of addresses, not that of entries (FatCache.SameAddressTwice).
- The name comparison can run past the 11-byte name into the attribute byte (FatName.TailExact), and takes `..` for an entry of eleven spaces only (FatName.ParentExact).
- A path that ends in a separator is reported as found without a file (FatPath.FindFileAnswers).
- The XMODEM receiver rewinds before it validates a repeated block: a rejected repetition of the second or a later block loses a block for good (XmodemRun.TransferExact, XmodemRun.RejectedRepetitionBreaks, XmodemRun.BrokenForGood).
- isalnum knows no lower-case letters, and strtoul lets a digit equal to the base through (Strtoul.SpanExact).
- 64-bit division of a dividend below 2^32 cuts the divisor to 32 bits (Numbers.UdivExact); its only caller passes an 8-bit base (`src/io/output.c:137`), so none is cut today.
- A carriage return without a later line feed does not end a configuration line (ConfigText.LoneCrExact).
- The configuration version is cut to eight bits, so CFGVER=257 is accepted (ConfigText.VersionLine).
- The Multiboot header's length is added to a structure pointer and so counts units of 16 bytes (Multiboot.HeaderLengthExact); the result has no terminating tag (Multiboot.OnlyRequested), and nothing checks that it fits the preallocation (MultibootBuilder.RoomExact, MultibootBuilder.LongCommandLine).
- The loader checks a segment's virtual address against 1 MiB and then loads at the physical one (Loader.LowExact, Loader.CheckMisses).
- Nothing checks that a segment has no more bytes in the file than in memory; one that has can be overwritten by a module (Loader.HarmlessExact).
- ALIGN is inverted: it moves exactly the addresses that are aligned (Loader.AlignNeverAligns).

## Model

| member | source | states |
|---|---|---|
| AllocHeap.ReachableOk | src/mm/alloc.c:13-270 | Every state reached from alloc_init by any run of alloc and free that hands back only client blocks: VALID entries tile the heap, free ones are coalesced, USED ones are exactly the live client blocks and the grown table blocks, at least 88 slots stay invalid, and the no-slot panic never happens |
| AllocHeap.RunKeeps | src/mm/alloc.c:81-270 | The same invariant is kept by every run from any state that has it |
| AllocHeap.AllocStepOk | src/mm/alloc.c:186-201 | One alloc by a client keeps the invariant and adds one live block |
| AllocHeap.FreeStepOk | src/mm/alloc.c:266-270 | One free by a client keeps the invariant and removes one live block |
| AllocHeap.LiveDisjoint | src/mm/alloc.c:81-201 | No byte is handed out twice: live blocks and table blocks are pairwise disjoint |
| AllocHeap.OneOwner | src/mm/alloc.c:81-264 | Every heap byte belongs to exactly one used or free range: nothing is lost |
| AllocHeap.AllocOk | src/mm/alloc.c:81-201 | alloc from any good heap panics exactly when the table must grow and cannot, or no aligned room is left in the window; otherwise the block is aligned, inside the window (end exclusive), clear of all used ranges and cut from a smallest entry that fits |
| AllocHeap.AllocAsAsked | src/mm/alloc.c:81-201 | What the flags mean: a block asked for below 64 KiB ends at 0xFFFF at the latest, any other starts at 0x10000 or above, it is a multiple of 2^n as asked or of 4, and free; alloc panics if and only if no such place is free, or fewer than 90 slots are left and no place for a table block is |
| AllocHeap.GrowAsAsked | src/mm/alloc.c:137-148 | A table block is 1540 bytes from a place at or above 0x10000 that is a multiple of 4 and free; growing fails if and only if there is none |
| AllocHeap.FlagWords | inc/mm/alloc.h:45-48 | The flag words for alignments and for memory below 64 KiB ask for just that |
| AllocHeap.AllocUnfolds | src/mm/alloc.c:137-148 | After one growth the table is no longer low, so the recursive call selects without growing: the recursion nests once |
| AllocHeap.GrowOk | src/mm/alloc.c:137-148 | Growing cuts a table block out of the heap, keeps the heap canonical, leaves more than a block of invalid slots, and fails exactly when there is no room for a block |
| AllocHeap.TakeOk | src/mm/alloc.c:150-180 | The selection fails exactly when there is no room; otherwise one used range is added and at most two slots are used up |
| AllocHeap.CarveOk | src/mm/alloc.c:156-178 | Cutting a block out of a free entry keeps the tiling and the coalescing and adds exactly that range |
| AllocHeap.ScanFailsIffNoRoom | src/mm/alloc.c:93-152 | On a canonical table the scan finds nothing exactly when no aligned placement exists anywhere in the window |
| AllocHeap.LastByteUnused | src/mm/alloc.c:101-116 | Where the documented window, end included, has room the scan fails nevertheless if and only if every place in it needs the window's last byte |
| AllocHeap.LastByteInput | src/mm/alloc.c:101-116 | Sixteen free bytes at the end of the 16-bit window are such a case |
| AllocHeap.BestIsSmallest | src/mm/alloc.c:118-129 | The entry chosen is a smallest one among all that fit |
| AllocHeap.AlignUpIsLeast | src/mm/alloc.c:109-111 | The adjusted start is the least aligned address not below the entry's start |
| AllocHeap.NothingWraps | src/mm/alloc.c:98-111 | On a good heap below the limit none of the 32-bit sums wraps |
| AllocHeap.FreeOk | src/mm/alloc.c:211-264 | free succeeds exactly on the start of a used range, removes exactly that range, and leaves the table tiled and coalesced |
| AllocHeap.FreeKeepsHeap | src/mm/alloc.c:211-270 | A successful free keeps the heap good if and only if it was not given the address of one of the table's own blocks |
| AllocHeap.FreedTableBlock | src/mm/alloc.c:211-270 | On every good heap whose table has grown, free accepts the address of each grown block and breaks the heap |
| AllocHeap.AllocThenFree | src/mm/alloc.c:81-264 | Freeing the block just allocated restores the used and free ranges the selection started from, whatever the slot order |
| AllocHeap.InitExact | src/mm/alloc.c:13-35 | The heap alloc_init sets up, its 32-bit subtraction included, is a good one if and only if the size goes beyond the first table block and its padding; then nothing is used |
| AllocTable.FreeEntriesAreTheGaps | src/mm/alloc.c:211-264 | In a coalesced tiling the free entries are exactly the maximal gaps between used ranges |
| AllocTable.UsedDeterminesFree | src/mm/alloc.c:211-264 | Two canonical tables with the same used ranges have the same free ranges |
| AllocTable.UsedXorFree | src/mm/alloc.c:13-35 | A heap address is in a used range or in a free entry, never in both |
| AllocTable.SplitKeepsTiling | src/mm/alloc.c:156-178 | Splitting an entry in two keeps the tiling |
| AllocTable.JoinKeepsTiling | src/mm/alloc.c:251-259 | Merging two neighbouring entries keeps the tiling |
| AllocTable.SlotAvailable | src/mm/alloc.c:42-57 | A slot can be filled exactly when the count of invalid slots is positive |
| Alloc.Allocator.Init | src/mm/alloc.c:13-35 | alloc_init in place gives the initial heap |
| Alloc.Allocator.AddAlloc | src/mm/alloc.c:42-57 | The first invalid slot in chain order is overwritten, or there is none |
| Alloc.Allocator.AddAllocBlock | src/mm/alloc.c:64-70 | The chain grows at its end; the old slots keep their content and order |
| Alloc.Allocator.Scan | src/mm/alloc.c:91-135 | The loops over the chain find the best entry, where the request starts in it, and the number of invalid slots |
| Alloc.Allocator.Consider | src/mm/alloc.c:96-129 | One entry's place in the selection |
| Alloc.Allocator.Finish | src/mm/alloc.c:150-180 | The part behind the growth test turns the heap into the one of AllocHeap.Take, or ends in the same panic |
| Alloc.Allocator.GrowTable | src/mm/alloc.c:139-144 | A table block is allocated, cleared and linked |
| Alloc.Allocator.FindFree | src/mm/alloc.c:81-181 | _find_free with its recursion equals AllocHeap.Alloc: same address, same heap, same panic |
| Alloc.Allocator.Allocate | src/mm/alloc.c:186-201 | alloc equals AllocHeap.Alloc, the zero-byte panic included |
| Alloc.Allocator.Search | src/mm/alloc.c:219-245 | The loops find the entry to free and its neighbours |
| Alloc.Allocator.DoFree | src/mm/alloc.c:211-264 | _do_free equals AllocHeap.DoFree on the slots in place, and changes nothing when it fails |
| Alloc.Allocator.Free | src/mm/alloc.c:266-270 | free equals AllocHeap.Free, its panic included |
| BootMap.BootLoadsStage2 | tools/sector_mapper/src/main.c:97-213 | End to end: for an image holding stage 2 and, on disjoint clusters, the bytes round 1 writes for it, after round 2 both files are unchanged as chains, the map read from the boot sector's pointer visits the map clusters in order and ends, and the sectors it loads are the stage-2 clusters in file order with their old bytes |
| BootMap.WrittenIsMapFile | tools/sector_mapper/src/main.c:97-145 | The file round 1 writes, copied to the image, decodes cluster by cluster to the chunks of the map with zero links |
| MapBytes.Round1File | tools/sector_mapper/src/main.c:97-145 | From the clusters of stage 2 to the bytes of the map file |
| MapBytes.ChunkReadBack | tools/sector_mapper/inc/sector_map.h:9-23 | A chunk read back from its bytes holds its part of the map, and its link is zero |
| MapBytes.ChunkWords | tools/sector_mapper/inc/sector_map.h:9-23 | Word by word: sector and count of each of the 127 entries, zeros behind the last, a zero link and a reserved word |
| BootMap.LinkedMapLoads | tools/sector_mapper/src/main.c:202-213 | The linked map walked from the boot sector yields the sectors of the mapped clusters and the map's own sectors, in order |
| BootMap.LinkingLinks | tools/sector_mapper/src/main.c:202-214 | Round 2 makes the chunks of the map file a list in file order, the last link staying 0 |
| BootMap.LinkWords | tools/sector_mapper/src/main.c:202-214 | Byte 506 of the boot sector names the first map sector, byte 508 of each map cluster the next |
| BootMap.OutsideKept | tools/sector_mapper/src/main.c:202-213 | Round 2 changes nothing below the data area but the boot sector's pointer, and no byte outside the map file's clusters |
| BootMap.GetFileClusters | tools/sector_mapper/src/fat.c:73-127 | The cluster list is the chain of the file, or an error when the chain is too short |
| BootMap.ListIsChain | tools/sector_mapper/src/fat.c:99-127 | Element i of the list is the i-th cluster of the chain |
| BootMap.ChainHasList | tools/sector_mapper/src/fat.c:99-127 | The list exists if and only if the chain has that many clusters |
| BootMap.ToolNextIsNext | tools/sector_mapper/src/fat.c:99-127 | The tool's successor of a cluster is the chain's |
| SectorMap.ExpandExtents | tools/sector_mapper/src/main.c:118-134 | Expanding the run-length entries gives the cluster list back |
| SectorMap.ExtentsMaximal | tools/sector_mapper/src/main.c:97-134 | The entries are maximal runs: none could be joined with its neighbour |
| SectorMap.CountChunks | tools/sector_mapper/src/main.c:97-108 | The first pass counts the entries, and the chunks they fill |
| SectorMap.Round1 | tools/sector_mapper/src/main.c:97-134 | The chunk table holds the entries in order and zeros behind; the second pass never leaves the counted chunks, also when the entries fill the last chunk |
| SectorMap.PutCluster | tools/sector_mapper/src/main.c:123-133 | One cluster starts an entry or lengthens the last one |
| SectorWalk.WalkLinked | tools/sector_mapper/inc/sector_map.h:9-23 | Following a linked map from any of its chunks yields the rest of the map and stops behind the last chunk |
| SectorWalk.DecodeIsExpand | tools/sector_mapper/inc/sector_map.h:9-23 | Reading a chunk gives the sectors of its entries, and the end mark exactly when the chunk is not full |
| SectorWalk.LinkField | tools/sector_mapper/src/main.c:202-213 | After round 2 each link field holds the sector of its map cluster |
| SectorWalk.LinkOther | tools/sector_mapper/src/main.c:202-213 | Round 2 changes only the link fields |
| SectorWalk.Round2 | tools/sector_mapper/src/main.c:202-213 | The loop in place equals the linking function |
| SectorWalk.AsmExact | stage1/inc/read_sector_map.inc:14-46 | The coded walk of one chunk stays inside it and loads what the format says exactly when no chunk follows, because its bound test compares the wrong register |
| SectorWalk.AsmStopsAtOneChunk | stage1/inc/read_sector_map.inc:5-46 | A map is loaded by the code as documented if and only if it has one chunk |
| Fat12.EntryOfPack | src/storage/fs/fat.c:170-190 | Reading entry n of a packed FAT12 table gives the n-th packed value, for odd and even n |
| Fat12.ToolEntryIsEntry | tools/sector_mapper/src/fat.c:73-90 | The tool's entry is the table's entry n |
| Fat12.LoaderAndToolAgree | src/storage/fs/fat.c:192-223 | The loader's and the tool's successors of a cluster agree if and only if its entry is not 0xff0 |
| FatLayout.VolumeParts | src/storage/fs/fat.c:56-71 | On a volume of reserved sectors, table copies, root directory and data area the offsets taken from the boot sector are where the first table, the root directory and the data area start |
| FatLayout.MapSectorPlace | inc/storage/fs/fat.h:20-71 | The boot sector's word for the map is the one behind the boot code |
| FatLayout.RootChain | src/storage/fs/fat.c:195-210 | The chain of the root directory is contiguous from its first cluster and ends where the data area starts, for the loader and for the tool |
| FatLayout.DataNext | src/storage/fs/fat.c:212-217 | The successor of data cluster n is the cluster whose number the packed table holds for n, if it is 2 to the last one followed |
| FatLayout.ChainOfTable | src/storage/fs/fat.c:192-223 | A chain of cluster numbers in the packed table is the chain the loader follows, and it ends with it |
| FatLayout.StoredIsRead | src/storage/fs/fat.c:225-292 | A straight read of a file stored in such a chain gives its content |
| FatCache.AccessCoherent | src/storage/fs/fat.c:110-144 | Hit, miss and eviction serve the disk's bytes and keep the cache coherent |
| FatCache.RunCoherent | src/storage/fs/fat.c:110-156 | From any coherent cache with arbitrary ranks, every lookup of every run is served with the disk's bytes |
| FatCache.TouchMovesToFront | src/storage/fs/fat.c:90-100 | Touching an entry makes it the most recent and keeps the order of the others |
| FatCache.OldestIsLast | src/storage/fs/fat.c:131-139 | The entry evicted is the least recently used |
| FatCache.AccessIsLru | src/storage/fs/fat.c:110-144 | One lookup in a cache with pairwise distinct ranks and addresses does to the order of the addresses what textbook LRU does |
| FatCache.RunIsLru | src/storage/fs/fat.c:90-144 | From pairwise distinct ranks, whatever they are, and pairwise distinct addresses every run keeps both and keeps exactly the LRU order of the addresses |
| FatCache.SameAddressTwice | src/storage/fs/fat.c:110-122 | With an address held twice the order of the addresses after a hit is not the one LRU leaves |
| FatCache.DistinctRanksOrder | src/storage/fs/fat.c:90-139 | Ranks put the entries in a strict order if and only if they are pairwise distinct |
| FatCache.ZeroRanksStay | src/storage/fs/fat.c:90-144 | From all-zero ranks no run ever ranks an entry: entries 1 to 3 keep their blocks and entry 0 takes every other one |
| FatCache.ZeroRanksThrash | src/storage/fs/fat.c:90-144 | So from there two blocks in turn displace each other, where LRU keeps both |
| FatLru.LruExact | src/storage/fs/fat.c:90-144 | Whatever addresses and ranks the cache starts with, in every run what a miss gives up is an entry not used yet or the one whose last use is longest ago, if and only if at the start at most k ranks are below k, for k = 1, 2, 3 |
| FatLru.SpreadIsLru | src/storage/fs/fat.c:90-144 | From such ranks, after every run, the ranks of the used entries are their places in the order of use and no unused entry has one of these |
| FatLru.SpreadExact | src/storage/fs/fat.c:90-100 | The ranks can be made pairwise distinct by using entries if and only if they are such |
| FatLru.RunSpread | src/storage/fs/fat.c:90-144 | No run of lookups leads from such ranks to others or from others to such |
| FatLru.CrowdedGoesWrong | src/storage/fs/fat.c:131-144 | From all other ranks one of ten misses in a row gives up a wrong entry |
| FatReader.FatReader.TouchEntry | src/storage/fs/fat.c:90-100 | _fat_cache_touch in place |
| FatReader.FatReader.TryCache | src/storage/fs/fat.c:110-122 | A hit copies the cached cluster and counts as a use; a miss changes nothing |
| FatReader.FatReader.AddCache | src/storage/fs/fat.c:131-144 | The oldest entry is replaced by the block read, coherently |
| FatReader.FatReader.ReadFatData | src/storage/fs/fat.c:146-168 | The bytes returned are the disk's, whatever the cache held; for a block beyond the disk they are those of the cache entry that claims it, or all ones with the cache unchanged |
| FatReader.FatReader.GetFatEntry | src/storage/fs/fat.c:170-190 | The cached entry equals entry n on disk, for every n whose block lies on the disk, odd and even and split across a cluster boundary, and the cache stays coherent |
| FatReader.FatReader.NextCluster | src/storage/fs/fat.c:192-223 | The next cluster is the chain's successor, 0 at its end and for clusters below the root directory |
| FatReader.FatReader.Seek | src/storage/fs/fat.c:241-255 | Skipping clusters reaches the right one and the offset in it, or reports the end of the chain |
| FatReader.FatReader.FileRead | src/storage/fs/fat.c:225-292 | _fat_file_read in place equals FatFile.Read: same buffer, same success, the read-past-end panic included |
| FatFile.ReadStraight | src/storage/fs/fat.c:241-291 | A read that is cluster-aligned or inside one cluster succeeds exactly when the chain has all clusters it touches, and then the buffer holds bytes [off, off+sz) of the file and nothing else changed |
| FatFile.StraightIsExact | src/storage/fs/fat.c:37-82 | Whatever the sectors and clusters a boot sector gives, reads of this size and offset are right for every file on every image if and only if they are cluster-aligned or stay inside one cluster |
| FatFile.EndlessBad | src/storage/fs/fat.c:268-287 | On an image where a data cluster is its own successor, every read that is not straight, however long, delivers a wrong first byte |
| FatChain.StraightIsExactOnEnding | src/storage/fs/fat.c:225-292 | On files whose chains end, too, reads within the longest chain there can be are always right if and only if they are straight |
| FatFile.CopyCrossing | src/storage/fs/fat.c:271-286 | A read that starts inside a cluster and leaves it delivers the first byte of the cluster instead of the one asked for |
| FatFile.CopyStraight | src/storage/fs/fat.c:258-287 | The copy loop of such a read, for every chain and buffer |
| FatName.FatStrcmp | src/storage/fs/fat.c:301-326 | The comparison loops accept exactly what the cursor function accepts |
| FatName.PaddedAccepted | src/storage/fs/fat.c:301-326 | Every 8.3 name is accepted by its own padded encoding, whatever follows in the entry |
| FatName.AcceptedAgrees | src/storage/fs/fat.c:301-326 | An accepted name is the entry's own up to dots and padding, when the byte behind the name field cannot be one of its characters |
| FatName.TailExact | src/storage/fs/fat.c:306-323 | No name is ever accepted by an entry with another name if and only if the first non-space byte behind the name field is NUL or a dot: the cursor can run past the 11 bytes |
| FatName.ParentExact | src/storage/fs/fat.c:301-326 | The name .. is accepted by an entry of eleven spaces and by no other |
| FatName.ParentNeverFound | src/storage/fs/fat.c:305-311 | The parent entry is not found by its name |
| FatPath.FindFromFirst | src/storage/fs/fat.c:377-402 | The search returns the first matching entry in directory order that is no label, device or reserved entry, and fails exactly when there is none |
| FatLayout.EntryRead | src/storage/fs/fat.c:328-350 | An encoded directory entry is matched unless it is a label, device or reserved, and gives the place of its start cluster, its size, and a directory exactly when that flag is set |
| FatLayout.RootFind | src/storage/fs/fat.c:352-406 | A lookup in the root directory returns the first of all its 32-byte entries that accepts the name and is no label, device or reserved entry, or fails when there is none |
| FatLayout.StoredIsFound | src/storage/fs/fat.c:328-406 | An 8.3 entry that nothing before it matches is found by its name, with start, size and kind |
| FatLayout.StoredIsFoundAndRead | src/storage/fs/fat.c:225-406 | End to end: a file laid out on disk as specified, entry, chain and clusters, is found by its name in the root directory with its size, and read through the handle it gives back its bytes |
| FatLayout.KernelBin | src/storage/fs/fat.c:301-326 | KERNEL.BIN is accepted by its padded entry, byte by byte |
| FatPath.ScanEntries | src/storage/fs/fat.c:385-399 | The inner loop finds the first match of one cluster |
| FatPath.FsFind | src/storage/fs/fat.c:352-406 | _fat_fs_find in place, the name . included, and the result written over the directory's own handle; it ends on every acyclic directory |
| FatPath.WalkIsDescend | src/storage/fs/fs.c:28-55 | Walking a path of nonempty components equals looking each up in the directory the one before names |
| FatLayout.WhereItStarts | src/storage/fs/fs.c:8-27 | A path with a leading separator is looked up from the root directory, any other from the one given |
| FatPath.WalkAnswers | src/storage/fs/fs.c:28-61 | For every path and image: with a separator at the end a walk never sets the file, and without one it never succeeds without setting it |
| FatPath.FindFileAnswers | src/storage/fs/fs.c:8-61 | fs_findfile, when it succeeds, has set the file if and only if the path does not end in a separator |
| FatPath.TrailingSeparator | src/storage/fs/fs.c:28-61 | The input: any existing directory's name and a separator succeed without a file |
| FatPath.FindFile | src/storage/fs/fs.c:8-67 | fs_findfile with its two swapped handles and the path cut in place answers as the recursive walk does, and leaves the file's handle alone when the path ends in a separator |
| FatPath.WalkLoop | src/storage/fs/fs.c:28-66 | The loop of fs_findfile, for any caller's directory |
| Xmodem.Receiver.Packet | src/storage/protocol/xmodem.c:155-229 | One packet in place: offset, last block, buffer and result are those of RxPacket, the rewind before validation included |
| Xmodem.Receiver.Checksum | src/storage/protocol/xmodem.c:119-136 | The checksum passes exactly when the byte read is the sum of the block modulo 256 |
| Xmodem.Receiver.Run | src/storage/protocol/xmodem.c:256-317 | The packet loop in place, with the byte sent for every packet (Xmodem.Answers), ends at EOT or a fatal error |
| Xmodem.PacketOutcome | src/storage/protocol/xmodem.c:155-229 | A packet ends the transmission, is accepted, or is too large for the buffer exactly under these conditions on its bytes |
| Xmodem.Answers | src/storage/protocol/xmodem.c:287-309 | Every packet is answered by one byte, 0x06 if it starts with EOT or is accepted and 0x15 if it is rejected or missing; only a block without room is not answered |
| Xmodem.RxPacketAligned | src/storage/protocol/xmodem.c:203-228 | The offset stays a multiple of the block size |
| XmodemRun.TransferExact | src/storage/protocol/xmodem.c:193-228 | For every run over a lossy channel: last_block is the number of accepted blocks modulo 256, writes stay inside the buffer, and the file so far is right if and only if no repetition of the second or a later block was rejected and a rejected repetition of the first was made good |
| XmodemRun.TransferSafe | src/storage/protocol/xmodem.c:193-316 | Without rejected repetitions the buffer is exactly the accepted blocks throughout, and the whole file once the last block is acknowledged |
| XmodemRun.RunIsReceiver | src/storage/protocol/xmodem.c:256-317 | The receiver's loop on what arrives in a run ends in the run's state and has sent just the bytes the sender acts on |
| XmodemRun.TransferReceived | src/storage/protocol/xmodem.c:256-317 | When the sender has heard 0x06 for all blocks and sends EOT, the loop ends, answers 0x06, and has the file in its buffer |
| XmodemRun.RejectedRepetitionBreaks | src/storage/protocol/xmodem.c:203-222 | For every file of two blocks or more there is such a rejected repetition, after which the file is wrong |
| XmodemRun.BrokenForGood | src/storage/protocol/xmodem.c:203-222 | A file that is broken stays wrong whatever arrives later |
| XmodemRun.StepKeeps | src/storage/protocol/xmodem.c:193-228 | Every sending, delivered, lost or corrupted, keeps the protocol invariant |
| Fifo.RingWrite | src/data/fifo.c:22-27 | Writing a byte appends it to the queue the slots represent |
| Fifo.RingRead | src/data/fifo.c:37-43 | Reading takes the queue's first byte, also before the head wraps |
| Fifo.RingBounds | src/data/fifo.c:77-91 | One slot stays empty, and used and free slots add up to the rest |
| Fifo.Queue.GetFree | src/data/fifo.c:77-83 | The free count is the room left in the queue |
| Fifo.Queue.GetUsed | src/data/fifo.c:85-91 | The used count is the queue's length |
| Fifo.Queue.Write | src/data/fifo.c:45-56 | All bytes are appended in order, or none when there is no room |
| Fifo.Queue.Read | src/data/fifo.c:58-75 | The first bytes leave in order, or none when there are too few |
| FifoIsr.InterruptKeeps | src/io/serial.c:397-403 | The receive interrupt between any two small steps keeps the invariant, loses its byte exactly when the queue is full, and never writes the slot being read |
| FifoIsr.MainKeeps | src/io/serial.c:313-327 | Every small step of the copy loop keeps the invariant, the one that moves the head included |
| FifoIsr.DeliveredInOrder | src/io/serial.c:313-403 | In every interleaving the bytes delivered are a prefix of those accepted, and both counts agree with the queue also while the head stands at size |
| Numbers.Udiv64 | src/io/output.c:45-85 | For all 64-bit a and b: a = q*b + rem and rem < b, where b is cut to 32 bits when a is below 2^32 and must not become zero |
| Numbers.UdivExact | src/io/output.c:49-55 | It divides by what it is given if and only if the divisor is not cut or the dividend is below even the cut one |
| Numbers.ShiftFits | src/io/output.c:62-69 | The shifted divisor stays below 2^64 and twice it exceeds the dividend |
| Numbers.ShiftSubtract | src/io/output.c:71-84 | The shift-subtract loop divides |
| Printing.DigitsFit | src/io/output.c:131-139 | No 64-bit number in base 8 to 16 needs more than 22 digits: the 25-byte buffer is never overrun |
| Printing.FillDigits | src/io/output.c:133-140 | The digit loop fills the buffer with the digits, least significant first |
| Printing.PrintInt | src/io/output.c:122-162 | The output is sign, padding and digits; nothing behind it is touched |
| Strtoul.Strtoul | src/stdlib/stdlib.c:16-40 | The result is the positional value of the longest readable prefix modulo 2^32, and the end is where it stops |
| Strtoul.SpanExact | src/stdlib/stdlib.c:16-40 | It stops where a standard strtoul does if and only if the first character that is no plain digit of the base is neither a digit one too large nor a lower-case digit |
| Strtoul.SpanInputs | src/stdlib/stdlib.c:19-28 | The inputs: A in base 10 is read as 10, and a in base 16 is not read |
| Strtoul.ValueOfDigits | src/stdlib/stdlib.c:16-40 | Parsing the digits of n gives n |
| Strtoul.PrintThenParse | src/stdlib/stdlib.c:16-40 | Parsing what was printed unsigned and in upper case gives every n below 2^32 back if and only if the padding is zeros, or none, or n is 0 |
| Strtoul.PrintMeans | src/io/output.c:122-162 | What is printed is a sign if the number is negative or one is asked for, fill up to the width, and the absolute value's digits in the case asked for without leading zeros, in every base and case, signed and unsigned |
| Config.Settings.Parse | src/config/config.c:79-130 | The destructive parser ends on every NUL-terminated text and leaves exactly the settings the lines say, every line taking effect once, the revisited last line included |
| Config.Settings.Line | src/config/config.c:91-124 | One line: its first = splits key and value in place, and nothing behind the line is touched |
| Config.Settings.Set | src/config/config.c:98-123 | What each key changes, and when it is refused |
| Config.GetLine | src/config/config.c:61-77 | The line is cut at its end, all line-end characters behind it become NUL, and next is moved, cleared, or left stale when the text ends there |
| Config.LineEnd | src/config/config.c:62-64 | A carriage return ends a line only if a line feed follows somewhere |
| ConfigText.ParseMeaning | src/config/config.c:98-123 | A text is accepted if and only if every CFGVER is 1 and there are at most four modules; then the last KERNEL and CMDLINE hold and the modules are in file order |
| ConfigText.FileMeaning | src/config/config.c:79-130 | A whole file: at most four modules, and the settings it leaves |
| ConfigText.LineSays | src/config/config.c:91-97 | The key is the text before the first equals sign, the value all that follows it |
| ConfigText.VersionLine | src/config/config.c:98-103 | CFGVER and a decimal number is accepted if and only if the number is 1 modulo 256 |
| ConfigText.LinesAreSplit | src/config/config.c:61-77 | With LF or CR LF line ends the lines are those of plain splitting at LF, empty ones apart |
| ConfigText.LoneCrExact | src/config/config.c:61-77 | Every carriage return ends a line as a line feed does, empty lines apart, if and only if none is left behind the last line feed and its run of line ends |
| ConfigText.EmptyLinesSayNothing | src/config/config.c:91-124 | Empty lines have no effect |
| ConfigText.LineEndsDoNotMatter | src/config/config.c:61-130 | Texts that differ only in LF against CR LF configure the same |
| MultibootBuilder.Parse | src/exec/multiboot.c:23-126 | The build in place fails exactly when the reference does; otherwise the preallocation holds size, tags and zeros, and a reader stepping with NEXT_TAG from offset 8 lands on size and meets the tags in request order, each at a multiple of 8 |
| MultibootBuilder.RoomIsFit | src/exec/multiboot.c:11-35 | For a successful build the space needed on the way is there if and only if the finished structure fits |
| MultibootBuilder.RoomExact | src/exec/multiboot.c:11-216 | Every build, successful or not, stays inside the preallocation if and only if the sizes of what is asked for, up to the first request refused, add up to no more: strings, module names, memory regions and ACPI tables, each rounded up to 8 |
| MultibootBuilder.LongCommandLine | src/exec/multiboot.c:11-60 | A command line of 1008 bytes makes a successful build overrun it |
| MultibootBuilder.Builder.HonourHeader | src/exec/multiboot.c:41-116 | The loop over the header's tags |
| MultibootBuilder.Builder.HonourAll | src/exec/multiboot.c:47-105 | The loop over the requests of one header tag |
| MultibootBuilder.Builder.Honour | src/exec/multiboot.c:50-104 | One request: its tags are written, or the build fails |
| MultibootBuilder.Builder.Advance | src/exec/multiboot.c:13-15 | NEXT_TAG over the tag just written, from its stored size, turns it into the next finished tag with zero padding |
| MultibootBuilder.Builder.EmitModule | src/exec/multiboot.c:128-144 | The module tag: start, end and name |
| MultibootBuilder.Builder.EmitMeminfo | src/exec/multiboot.c:146-185 | The memory tag, 640 KiB assumed when the lower size is unknown, failing when the upper one is |
| MultibootBuilder.Builder.EmitMmap | src/exec/multiboot.c:200-256 | The map tag holds every region up to the last answer, its size word growing with each |
| MultibootBuilder.Builder.EmitAcpiOld | src/exec/multiboot.c:288-317 | The old RSDP is copied when its checksum holds and passed over otherwise |
| MultibootBuilder.Builder.EmitAcpiNew | src/exec/multiboot.c:319-366 | The new RSDP is copied when revision and both checksums hold and passed over otherwise |
| Multiboot.WalkFindsTags | src/exec/multiboot.c:13-15 | Walking any finished structure from offset 8 finds exactly its tags and ends on its size |
| Multiboot.ProcessOk | src/exec/multiboot.c:46-113 | A build succeeds if and only if every request is known, no mandatory header tag is unknown, and upper memory is known when memory is asked for |
| Multiboot.OnlyRequested | src/exec/multiboot.c:46-118 | Only requested kinds are reported, so the terminating tag of type 0 is never written |
| Multiboot.HeaderLengthExact | src/exec/multiboot.c:40-41 | The loop, whose bound counts units of 16 bytes, asks for the same as one bounded by the length in bytes, if and only if the tags between the bounds up to the END tag ask for nothing |
| Multiboot.CoveredIsSilent | src/exec/multiboot.c:40-44 | That is so for every header whose length covers its END tag |
| Multiboot.ShortHeaderRefused | src/exec/multiboot.c:40-116 | The input: a header of 16 bytes by its length is refused for the tag behind it |
| Multiboot.ModuleTagAt | src/exec/multiboot.c:71-78 | Every module gets its tag, in configuration order |
| MultibootReader.KernelReads | src/exec/multiboot.c:46-118 | A kernel that walks the finished structure reads, in the order of its requests, tags whose words and strings are what the specification gives them: command line, loader name, modules with start and end address, memory sizes, memory map entries, ACPI tables; and nothing else |
| MultibootReader.AnswerIsSeen | src/exec/multiboot.c:49-107 | The same for one request, on the bytes of its tags |
| MultibootReader.ModulesAreRead | src/exec/multiboot.c:128-144 | When modules are asked for the kernel finds all of them in order: start, start plus size, and the name with its NUL |
| MultibootReader.HeaderAsks | src/exec/multiboot.c:23-48 | The requests of a standard header are found, in order |
| MultibootReader.AskedIsRead | src/exec/multiboot.c:23-118 | From the header's bytes to the structure's: a kernel that asks for what can be answered reads just the answers |
| Loader.SegmentsLoaded | src/exec/fmt/elf.c:118-153 | Whatever the order of the headers, every one of pairwise disjoint segments ends up as its file bytes followed by zeros |
| Loader.LoadsIff | src/exec/fmt/elf.c:134-142 | Loading succeeds if and only if the file holds every nonempty segment |
| Loader.OutsideUntouched | src/exec/fmt/elf.c:118-153 | Memory outside the segments is left alone |
| Loader.BoundsExact | src/exec/fmt/elf.c:127-132 | data_begin and data_end are the exact bounds of the segments |
| Loader.CheckPhdrs | src/exec/fmt/elf.c:40-54 | The check passes exactly when every loadable segment has a virtual address at or above 1 MiB |
| Loader.LowExact | src/exec/fmt/elf.c:118-153 | Loads leave the first megabyte alone, whatever file and memory, if and only if no segment with memory has a physical address in it |
| Loader.CheckEnough | src/exec/fmt/elf.c:40-54 | The check ensures that when segments are linked where they are loaded |
| Loader.CheckMisses | src/exec/fmt/elf.c:40-54 | Otherwise it does not: a header that passes and is loaded at 4 KiB |
| DiskLoader.StraightRead | src/storage/fs/fat.c:241-291 | A straight read into memory delivers the file's bytes, or fails when they are not all there |
| DiskLoader.StraightLoad | src/exec/fmt/elf.c:134-142 | When every segment is read straight, loading from the FAT disk is loading the file's bytes |
| DiskLoader.SegmentsRead | src/exec/fmt/elf.c:118-153 | Then pairwise disjoint segments all end up in memory from the disk |
| Loader.ModulesStacked | src/exec/exec.c:69-98 | Every module lies unharmed at its recorded address, behind the image and behind the module before it |
| Loader.ModuleAddresses | src/exec/exec.c:67-96 | Where each module goes: eight bytes behind the end of what is before it if that is a multiple of eight, else right there |
| Loader.ModulesIff | src/exec/exec.c:80-88 | Loading modules succeeds if and only if all are found and readable |
| Loader.EverythingLoaded | src/exec/exec.c:69-98 | After image and modules are loaded, every segment and every module is intact and all ranges are disjoint |
| Loader.HarmlessExact | src/exec/exec.c:69-96 | Modules, whatever they are, leave a loaded image alone if and only if no segment reaches the place of the first module |
| Loader.FilesFitMemory | src/exec/fmt/elf.c:127-149 | Segments no larger in the file than in memory never do |
| Loader.AlignNeverAligns | src/exec/exec.c:67 | ALIGN yields an aligned address if and only if it was given one, which it then moves by a whole unit |
| Loader.Exec.LoadPhdrs | src/exec/fmt/elf.c:118-153 | The loop in place equals Loader.Load on memory and bounds; failed or not, it changes no byte outside the segments, and the bounds include the segment that failed |
| Loader.Exec.LoadSegment | src/exec/fmt/elf.c:123-149 | One segment in place, and nothing outside it |
| Loader.Exec.LoadModules | src/exec/exec.c:69-98 | The module loop in place equals Loader.PlaceModules, recorded addresses included; failed or not, it changes nothing below the end of the image |

## Left out

- BIOS calls, port I/O, interrupt controller and timer set-up, mode switching and all assembly but the map walk: effects of the machine. Disk, serial line, BIOS answers and the RSDP are parameters.
- Screen output, status bar, printf's format dispatch, panic printing. A panic is a final result.
- _xmodem_crc16 and the YMODEM path: the polynomial branch is inverted and the type is rejected at start-up.
- XMODEM transfers that mix 128-byte and 1K blocks, and whether a transfer ever ends: there is no retry limit.
- The transmit FIFO: main line and interrupt both consume from it.
- fifo_getused read while the interrupt moves the tail: interrupts fall between the steps of the copy loop, after the availability check.
- Handles that are closed and buffers that are freed around lookups, reads and builds.
- A storage driver's own alignment panic: FAT reads are sector-aligned.
- fs_offset other than 0, root directories that are no multiple of the cluster size, and sector maps with more than one sector per cluster.
- Directory buffers hold NUL behind their last entry, where the source reads on into whatever memory follows.
- The contents of the FAT cache at start-up, which the source leaves uninitialised: a parameter that holds what the disk holds for every block it claims.
- FAT32-width reads: _fat_read_fat_data loads four bytes and masks; only the bytes that survive are modelled.
- The configuration text is NUL-terminated, which config_load does not ensure.
- Lower-case hexadecimal numbers, which strtoul does not read.
- ELF header checks, the flat loader, URI parsing, RSDP scanning, LBA-to-CHS arithmetic and the host tool's file handling: easy, or plumbing.
- AllocHeap.ReachableOk: does not cover a size within the first table block, from which no good heap arises (AllocHeap.InitExact), a heap end above 0xFFFF8000, clients that set the internal no-growth flag, or clients that free a table block; the caller of alloc_init passes an end below 1 MiB.
- AllocHeap.NothingWraps: does not cover heaps above 0xFFFF8000, where the alignment sum can wrap.
- FatFile.ReadStraight: does not cover reads that cross a cluster boundary from inside a cluster, which deliver the wrong bytes (FatFile.StraightIsExact).
- FatPath.FindFile: does not cover cyclic directories, on which the search never ends, or the name `.` looked up into the directory's own handle, where the source copies from the block it has just allocated.
- FatReader.FatReader.GetFatEntry: does not cover entries whose block lies beyond the disk.
- FatReader.FatReader.NextCluster: does not cover clusters with numbers above 0xff0, which only a damaged directory entry names.
- FatReader.FatReader.Seek: does not cover files that start below the root directory or at such a cluster.
- FatReader.FatReader.FileRead: does not cover them either.
- Xmodem.Receiver.Packet: does not cover headers that announce the other block size.
- Xmodem.Receiver.Run: does not cover input with such headers.
- SectorWalk.AsmExact: takes the drive number register to be below the chunk's end address, as it is at boot.
- XmodemRun.TransferExact: does not cover corruption that the checksum cannot see.
- MultibootBuilder.Parse: does not cover results larger than the preallocation, which overrun it, or headers without an END tag, behind which the source reads on.
- Loader.EverythingLoaded: does not cover 32-bit wrap-around of addresses.
- DiskLoader.SegmentsRead: does not cover segments whose bytes start inside a file cluster and leave it, which are read wrong (FatFile.StraightIsExact).
- Loader.Exec.LoadPhdrs: what a failed load leaves inside the segments is not stated.
- Loader.Exec.LoadModules: what a failed load leaves behind the image is not stated.
