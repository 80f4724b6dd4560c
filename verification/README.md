# Ts_OS verification

A Dafny model of the parts of the Ts_OS kernel whose correctness spans several
functions and whole runs. To check the whole project, use
`dafny verify dfyconfig.toml`.

| part | files | what is modelled |
|---|---|---|
| kernel heap | HeapModel, HeapTheorems, HeaderMemory, KernelHeap, HeapRuns | `kernel/malloc.c` on the raw bytes of the heap: 12-byte headers stored in place, the size-sorted free list threaded through the free headers, back links in the allocated ones |
| FAT16 | FatVolume, FatChains, FatFile, FatFree, FatTree | `fs/fat16.c`: FAT access by sector arithmetic, free-cluster search, appending and reading, freeing chains, recursive directory deletion |
| console | ConsoleLayout, Console | the output window of `kernel/console.c` over its ring buffer, down to the cells drawn |
| scheduler | Scheduler | `kernel/task.c` and `drivers/timer.c` as a step system over 32 slots |
| frames | Frames | the frame bitmap of `kernel/frame.c` |
| strings | Tokens, Numbers | `strfd`, `no_leading`, `strtok`, `itoa`, `atoi` of `lib/string.c` |
| shared | Arith, Bytes, Options | division facts, the byte type, optional values |

The heap, the FAT and the console are modelled in two layers. The lower layer is
a class that does what the C code does, on bytes, sectors or character cells.
The upper layer is a value: physical regions and free-list order, flat FAT and
cluster arrays, the text written so far. Each method of the class states its
effect on that value, and the theorems are about the value over any run.

Things the proofs show about the code that its comments do not say:

- kmalloc is only right when `size + 12` does not wrap a 32-bit word. When it
  wraps, the new header always spills over the end of the chosen region
  (`HeapTheorems.CarveFitsIffNoWrap`); in the initial heap a request for
  2^32 - 12 bytes puts it at the end of the heap (`HeapTheorems.WrapAtBoot`).
- The frame search finds the lowest idle frame in every bitmap exactly when the
  first frame of the range is not 0 and is a multiple of 8
  (`Frames.CorrectIffAligned`).
- atoi undoes itoa exactly on the ints that are not negative
  (`Numbers.RoundTripIff`).
- The comment at fs/fat16.c:664-676 says that a write adjusts the file size when
  it grows the file; the code sets the size to the cursor after every write
  (fs/fat16.c:762). So a write does what the comment says exactly when it reaches
  the old end of the file, and any other write cuts off what is behind it
  (`FatFile.FatFile.Write`, `FatFile.PromiseKeptIff`). The first write through a
  plain `fat_open` starts at offset 0: one byte written to a file of two leaves a
  file of one (`FatFile.FirstWriteCuts`).
- A read that asks for more than is left leaves `current_cluster` where the copying
  stopped. The cursor and its cluster agree afterwards exactly when both lie in the
  same cluster (`FatFile.FatFile.Read`); in a file of two bytes, reading eight makes
  the next write through the same handle return end of file
  (`FatFile.WriteAfterReadRefused`).
- `fat_get_free_cluster` looks past the FAT when its length is not a whole number
  of clusters. A full FAT is reported as full on every disk exactly when
  `sectors_fat` is a multiple of `sectors_per_cluster`
  (`FatVolume.FullReportedIffWhole`); otherwise it can return a cluster that the FAT
  does not have (`FatVolume.FullFatMissed`). When the FAT has a free entry with a
  16-bit number, the answer is always the first one.
- fat16_find copies each path component into 16 characters
  (fs/fat16.c:1002): the copies fit exactly when every component has at most 15
  (`Tokens.SegmentFits`).
- The console counts characters in 32-bit words. Up to 2^32 characters the counts
  are those of the model; the write that makes the count wrap leaves the start of
  the window above the count (`Console.OrderKeptIff`), and from then on ring
  positions agree exactly when the ring size divides 2^32, which 100 does not
  (`Console.RingWordIff`).

Preconditions stand for what the kernel does by `panic` or `ASSERT`: enough free
clusters for a write, a present task to switch to, a free task slot. A heap or
console object starts from memory that its constructor zeroes; the C console
does not zero its window buffer itself (kernel/console.c:102-107), so its first
state is the one after `console_clear`.

## Model

| member | source | states |
|---|---|---|
| `HeapModel.InitWf` | kernel/malloc.c:241-254 | the initial heap is one free region and satisfies the whole invariant |
| `HeapModel.MallocWf` | kernel/malloc.c:348-377 | kmalloc keeps the invariant: regions tile the heap, the lowest is free, no two free neighbours, the list is size-ascending, duplicate-free and holds exactly the free regions |
| `HeapModel.MallocMembers` | kernel/malloc.c:367-376 | kmalloc replaces the chosen region by its head and the new block and keeps every other region |
| `HeapModel.FreeWf` | kernel/malloc.c:386-447 | kfree of any live block keeps the invariant, through all four cases of free neighbours |
| `HeapModel.FreeRegions` | kernel/malloc.c:429-446 | kfree replaces the block and its free neighbours by one region over their whole extent and keeps every other region |
| `HeapModel.RegionsDisjoint` | kernel/malloc.c:24-31 | headers and payloads of different regions never overlap and lie inside the heap |
| `HeapTheorems.BestFit` | kernel/malloc.c:355-371 | kmalloc returns NULL iff no free region has size n + 12, and otherwise carves from a smallest one that has |
| `HeapTheorems.LayoutCanonical` | kernel/malloc.c:386-447 | the physical layout is a function of the set of live blocks: coalescing leaves no trace of the order of operations |
| `HeapTheorems.MallocThenFree` | kernel/malloc.c:327-447 | kfree of a kmalloc result restores regions, sizes and free-list order exactly, also among equal sizes |
| `HeapTheorems.BytesConserved` | kernel/malloc.c:249-252 | headers and payloads of all regions add up to the size of the heap |
| `HeapTheorems.Drained` | kernel/malloc.c:429-446 | a heap without live blocks is the initial heap |
| `HeapTheorems.StepGood` | kernel/malloc.c:348-447 | every operation a caller may make succeeds and keeps heap and callers' table of live blocks in step |
| `HeapTheorems.RunGood` | kernel/malloc.c:348-447 | every run whose operations are each legal where they are applied succeeds and keeps heap and table in step |
| `HeapTheorems.RunDefinedIff` | kernel/malloc.c:348-447 | a run succeeds iff each of its operations is legal where it is applied: stores and frees only of what the caller holds |
| `HeapTheorems.AnyRun` | kernel/malloc.c:241-447 | every legal run from boot succeeds; live blocks are inside the heap and pairwise disjoint with their headers, bytes are conserved, and freeing everything in any order gives the initial heap |
| `HeapTheorems.RunsConverge` | kernel/malloc.c:386-447 | two runs that leave the same blocks live leave the same layout |
| `HeapTheorems.CarveFitsIffNoWrap` | kernel/malloc.c:356-373 | in 32-bit arithmetic the carved block stays inside its region iff size + 12 does not wrap |
| `HeapTheorems.WrapAtBoot` | kernel/malloc.c:356-373 | in the initial heap a request for 2^32 - 12 bytes passes the size test and its header lands at the end of the heap |
| `HeapTheorems.BootFits` | kernel/malloc.c:249-356 | the initial heap serves a request of n bytes iff it has n + 24 bytes |
| `HeaderMemory.WordRoundTrip` | kernel/malloc.h:13-20 | a 32-bit field written little endian is read back |
| `HeaderMemory.StoreKeeps` | kernel/malloc.c:5-9 | storing one header keeps every other header and changes no byte outside its 12-byte slot |
| `HeaderMemory.HeaderBytes` | kernel/malloc.h:13-20 | type at offset 0, size at 4 and link at 8 of a header, low byte first |
| `HeaderMemory.Memory.Create` | kernel/malloc.c:5-9 | CREATE_HEADER at a slot that overlaps no header in use, with magic 0x87 |
| `KernelHeap.KernelHeap.constructor` | kernel/malloc.c:241-254 | init_heap leaves the bytes of the initial heap |
| `KernelHeap.KernelHeap.RegionBytes` | kernel/malloc.h:13-20 | the bytes at every region's address: type 0 if free and 1 if allocated, its size, and in an allocated one the address of its physical predecessor |
| `KernelHeap.KernelHeap.ListBytes` | kernel/malloc.h:13-20 | the link bytes at every free region's address: the next region of the list or 0 |
| `KernelHeap.KernelHeap.AddFreeRegion` | kernel/malloc.c:297-309 | exact header stores of add_free_region |
| `KernelHeap.KernelHeap.DelFreeRegion` | kernel/malloc.c:311-325 | exact header stores of del_free_region; a null region changes nothing |
| `KernelHeap.KernelHeap.AddAllocRegion` | kernel/malloc.c:266-279 | the next header, if allocated, points back to the new block |
| `KernelHeap.KernelHeap.SearchAndAddFreeRegion` | kernel/malloc.c:327-341 | terminates, and the list becomes the old one with the region inserted before the first node not smaller; only links of free headers change |
| `KernelHeap.KernelHeap.FindFit` | kernel/malloc.c:350-365 | the first node of size at least size + 12 in 32-bit arithmetic, NULL iff there is none, for every size |
| `KernelHeap.KernelHeap.KMalloc` | kernel/malloc.c:348-377 | on bytes: the new state is exactly the model's, NULL leaves everything unchanged, the payload of every live block keeps every byte |
| `KernelHeap.KernelHeap.FreeNeighbours` | kernel/malloc.c:388-402 | both neighbour headers may be dereferenced, and each result is that neighbour iff it exists and is free |
| `KernelHeap.KernelHeap.FindAndUnlink` | kernel/malloc.c:407-426 | the unbounded list search terminates at its target and unlinks it |
| `KernelHeap.KernelHeap.Unify` | kernel/malloc.c:429-438 | one header takes over the extent of the run |
| `KernelHeap.KernelHeap.Relink` | kernel/malloc.c:442-446 | after the last store every allocated header points to its physical predecessor again |
| `KernelHeap.KernelHeap.KFree` | kernel/malloc.c:386-447 | on bytes: the new state is exactly the model's, and no payload byte of any block changes |
| `KernelHeap.StoreMissesPayload` | kernel/malloc.c:367-446 | a header store of kmalloc or kfree falls inside no live payload |
| `KernelHeap.KernelHeap.StoreByte` | kernel/malloc.c:13-31 | a store by the holder of a block changes that byte alone and keeps the heap valid |
| `HeapRuns.Perform` | kernel/malloc.c:348-447 | any legal run of requests, frees and stores by the holders reaches on the bytes the state the model predicts, and every block not freed in it keeps its place, its size and every byte its holder did not overwrite |
| `FatVolume.EntrySector` | fs/fat16.c:333 | cluster * 2 / bytes_per_sector is the sector of the cluster's entry, and the remainder its offset, for every even sector size |
| `FatVolume.WriteEntryViews` | fs/fat16.c:316-329 | storing a FAT entry in its sector updates that entry of the flat FAT, no other entry and no cluster |
| `FatVolume.WriteClusterViews` | fs/fat16.c:244-258 | writing a cluster's sectors updates that cluster, no other cluster and no FAT entry |
| `FatVolume.ReadBack` | fs/fat16.c:244-312 | sectors written from a buffer are read back as that buffer |
| `FatVolume.Volume.ReadFat` | fs/fat16.c:331-344 | the sector read is the one that holds the entry, for every cluster number whose sector is on the disk and has a 16-bit number |
| `FatVolume.Volume.NextOnDisk` | fs/fat16.c:348-352 | the word found is the entry of that cluster number, also past the end of the FAT: the two bytes at byte 2 * cluster from the start of the FAT, low byte first |
| `FatVolume.Volume.GetNextCluster` | fs/fat16.c:348-352 | lookup in the flat FAT, and the two bytes on the disk it comes from |
| `FatVolume.Volume.WriteFat` | fs/fat16.c:316-329 | update of the flat FAT, clusters unchanged; on the disk exactly the two bytes at byte 2 * cluster from the start of the FAT change, low byte first |
| `FatVolume.Volume.ReadCluster` | fs/fat16.c:305-312 | lookup in the cluster array; byte i is byte i of the sectors from data_start + (cluster - 2) * sectors_per_cluster on |
| `FatVolume.Volume.WriteCluster` | fs/fat16.c:244-258 | update of the cluster array, FAT unchanged; the buffer is in the sectors from data_start + (cluster - 2) * sectors_per_cluster on and no other sector changes |
| `FatVolume.ByteOrder` | fs/fat16.c:348-352 | a FAT with the bytes 05 00 at entry 3: cluster 5 follows cluster 3 |
| `FatVolume.ScanChunk` | fs/fat16.c:646-654 | one buffer of the scan, with the 16-bit count |
| `FatVolume.HitIsFirst` | fs/fat16.c:643-658 | the search stops at the least free entry above 2 if it has a 16-bit number, and in a full FAT only past its end |
| `FatVolume.Volume.GetFreeCluster` | fs/fat16.c:628-661 | finds something iff one of the words it looks at is zero and has a 16-bit number above 2, and returns the number of the first; that is the least free entry whenever there is one with a 16-bit number, and nothing in a full FAT of whole chunks |
| `FatVolume.FullReportedIff` | fs/fat16.c:643-661 | a full FAT is reported as full on every disk iff no word behind it that the search looks at has a number above 2 |
| `FatVolume.FullReportedIffWhole` | fs/fat16.c:643-661 | the same iff sectors_fat is a multiple of sectors_per_cluster, for FATs of fewer than 2^16 entries or sectors of at least 8 bytes |
| `FatVolume.FullFatMissed` | fs/fat16.c:643-661 | a disk on which the search returns cluster 4 of a full FAT of 4 entries |
| `FatChains.ChainAcyclic` | fs/fat16.c:402-416 | a chain that ends visits no cluster twice |
| `FatChains.ChainUnique` | fs/fat16.c:402-416 | a start cluster has at most one chain |
| `FatChains.ChainExtend` | fs/fat16.c:750-759 | linking a free cluster behind the last one gives a chain with one more cluster |
| `FatChains.ContentUnique` | fs/fat16.c:575-625 | chain and size determine the bytes of a file |
| `FatFile.PieceWritten` | fs/fat16.c:744-749 | patching the cursor's cluster replaces the bytes at the cursor and keeps all others of the file, before and behind |
| `FatFile.PromiseKeptIff` | fs/fat16.c:664-762 | file and size after a write are those the documentation promises iff the write reaches the old end of the file |
| `FatFile.PromiseBroken` | fs/fat16.c:664-762 | one byte written over the first of two: the promised file has two bytes, the file left has one |
| `FatFile.FirstWriteCuts` | fs/fat16.c:714-766 | a disk on which writing one byte to a file of two leaves a file of one, with both bytes on the disk |
| `FatFile.OtherFileKept` | fs/fat16.c:743-763 | every other file keeps its chain and its bytes, holds no others, and stays disjoint from the grown chain |
| `FatFile.FatFile.StorePiece` | fs/fat16.c:744-749 | one read-modify-write of the cursor's cluster |
| `FatFile.FatFile.Extend` | fs/fat16.c:753-757 | at the end of the chain the first free cluster is linked and marked 0xFFFF, and no other entry changes; clusters owned plus clusters free are conserved |
| `FatFile.FatFile.LinkNext` | fs/fat16.c:750-759 | at a boundary the cursor goes to the next cluster of the chain; the chain grows by one exactly when there is none, and else the FAT is unchanged |
| `FatFile.CapacityIs` | fs/fat16.c:643-658 | the clusters a write can count on are those of the file and the free normal ones on the disk |
| `FatFile.FatFile.Write` | fs/fat16.c:714-766 | with the cursor anywhere in the file: bytes up to the cursor are kept, the buffer follows and the file ends there; the old tail stays on the disk but not in the file; the size is the larger of old size and new cursor iff the write reaches the old end; the chain has as many clusters as before or just enough for the cursor; directories, read-only files and an end-of-chain cluster are refused and nothing changes; nothing outside the file's chain changes |
| `FatFile.FatFile.WriteAll` | fs/fat16.c:714-766 | any sequence of writes is one write of the data joined |
| `FatFile.FatFile.AppendAll` | fs/fat16.c:714-766 | at end of file any sequence of writes appends the data joined, keeps size / cluster_bytes + 1 clusters and the cursor in the last of them |
| `FatFile.FatFile.Read` | fs/fat16.c:575-625 | for files and directories: EOF iff the cursor has reached file_size, or the end of a directory's chain; otherwise min(buf_size, rest) bytes from the cursor, at most buf_size copied; the cluster left behind is the cursor's iff the copying stopped in that cluster |
| `FatFile.WriteAfterReadRefused` | fs/fat16.c:575-738 | a file of two bytes on which a read of eight returns both and makes the next write return end of file |
| `FatFile.FatFile.ReadAll` | fs/fat16.c:575-625 | successive reads of any sizes concatenate to the file from the cursor on |
| `FatFile.WriteThenRead` | fs/fat16.c:575-766 | what was written in any pieces is read in any pieces by a reader that starts on the same chain with the size the last write left in memory |
| `FatFree.MeasureFalls` | fs/fat16.c:789-797 | the number of entries in use falls in every round, so freeing terminates on every FAT, cyclic ones included |
| `FatFree.FreeWalkChain` | fs/fat16.c:789-797 | on a chain exactly the chain's entries are zeroed |
| `FatFree.FreeWalkReach` | fs/fat16.c:789-797 | on any FAT exactly the entries reachable from the start are zeroed |
| `FatFree.ZeroedCount` | fs/fat16.c:789-797 | the count of free entries grows by exactly the number of clusters freed |
| `FatFree.FreeChain` | fs/fat16.c:789-797 | fat_free_clusters_until_end computes that walk and touches no cluster data |
| `FatTree.LiveSlots` | fs/fat16.c:813-827 | on the bytes of a directory cluster, the entries to be freed are, in order, those of the slots whose start cluster at offset 26 is in 3..0xFFEF and whose 8 name bytes are neither "." nor "..", whatever lies between; each is a directory iff bit 0x10 of the byte at offset 11 is set |
| `FatTree.StoredKept` | fs/fat16.c:800-851 | a subtree depends on the FAT only at the clusters it owns |
| `FatTree.OtherTreeKept` | fs/fat16.c:800-851 | deleting a directory leaves every file or tree that shares no cluster with it intact |
| `FatTree.FreeNode` | fs/fat16.c:829-838 | a file entry's chain or a directory entry's whole subtree is freed |
| `FatTree.FreeEntries` | fs/fat16.c:813-841 | one directory cluster: exactly the subtrees of its live entries are freed; unused entries, "." and ".." are skipped |
| `FatTree.FreeBlock` | fs/fat16.c:811-845 | the next pointer read after the children were freed is the original one |
| `FatTree.FreeChildsUnderDir` | fs/fat16.c:800-851 | recursive deletion terminates and zeroes exactly the entries of the directory's chain and of all descendants' chains |
| `FatTree.OwnedIsWithin` | fs/fat16.c:800-851 | the clusters a well-formed tree owns are exactly those that can be reached on the disk from its start, by next clusters and by the live slots of directory clusters |
| `FatTree.DeleteDirectory` | fs/fat16.c:800-851 | after the deletion exactly the entries of the clusters that could be reached from the directory are zero, and no other entry has changed |
| `FatTree.DeleteWitness` | fs/fat16.c:800-851 | a directory with ".", "..", an unused slot and a file of two clusters: its cluster and both of the file are freed, the one that ".." names is not |
| `ConsoleLayout.RowEnd` | kernel/console.c:186-190 | a newline ends at the next multiple of the row length |
| `ConsoleLayout.CellsSplit` | kernel/console.c:218-245 | text that fills whole rows can be laid out apart from what follows |
| `ConsoleLayout.RowCells` | kernel/console.c:130-147 | the text up to next_line_start fills exactly one row unless the output ends first |
| `ConsoleLayout.LineCells` | kernel/console.c:181-198 | a line shorter than a row is followed by blanks up to the end of its row and then by the layout of the text after the newline |
| `ConsoleLayout.NextFromStops` | kernel/console.c:130-147 | next_line_start stops behind the first newline, after a full row of characters, or at the end of the output |
| `ConsoleLayout.PrevFromStops` | kernel/console.c:114-127 | prev_line_start stops behind the nearest newline before the one that ends the line, after a full row, or at the oldest character kept |
| `ConsoleLayout.BackThenForward` | kernel/console.c:114-147 | next_line_start(prev_line_start(x)) >= x, with equality after a full row or a newline |
| `ConsoleLayout.ForwardThenBack` | kernel/console.c:114-147 | prev_line_start(next_line_start(x)) <= x |
| `Console.RingWrite` | kernel/console.c:325 | the ring still holds the latest output after wrap-around |
| `Console.ScrollFits` | kernel/console.c:328-331 | on overflow the next line start drops exactly one full row and the rest fits |
| `Console.WindowDetermined` | kernel/console.c:218-245 | a window kept character by character and one rebuilt from the history draw the same cells and end at the same place |
| `Console.Console.NextLineStart` | kernel/console.c:130-147 | computed on the ring, reading retained characters only |
| `Console.Console.PrevLineStart` | kernel/console.c:114-127 | computed on the ring, reading retained characters only |
| `Console.Console.UpdateWindowBuffer` | kernel/console.c:218-245 | the window is the layout of the text from its start, to the latest output or until full, then zeros |
| `Console.Console.WindowMoveUp` | kernel/console.c:261-284 | the window starts one line earlier; window and screen agree with the rebuild |
| `Console.Console.WindowMoveDown` | kernel/console.c:248-296 | the window starts one line later; window and screen agree with the rebuild |
| `Console.Console.ConsoleClear` | kernel/console.c:356-366 | an empty window that follows the output, and a blank screen |
| `Console.Console.Scroll` | kernel/console.c:328-331 | the overflow path ends at the newest character |
| `Console.Console.Append` | kernel/console.c:334-342 | the fast path keeps window and screen equal to the rebuild although it draws one cell |
| `Console.Console.WriteConsoleOne` | kernel/console.c:305-348 | after each write window and screen show the layout that ends at the latest output; a window that followed the output keeps its start while the text fits and starts one line later when it does not; any other window starts at the new character |
| `Console.NothingLost` | kernel/console.c:305-348 | as long as the text from the start of the window fits, writes leave that start where it is |
| `Console.ScrollsOneRow` | kernel/console.c:328-331 | a write that scrolls leaves less than one row of the window unused |
| `Console.FollowingIff` | kernel/console.c:315 | a window follows the output iff all the text from its start on fits |
| `Console.OrderKeptIff` | kernel/console.c:325-326 | with 32-bit counts the window start stays at or below the count iff the count does not wrap |
| `Console.RingWordIff` | kernel/console.c:325 | a 32-bit count gives every character its ring position until it wraps, and ever after iff the ring size divides 2^32 |
| `Console.Console.Perform` | kernel/console.c:248-366 | the same after any sequence of writes, clears and moves: text and window start are a function of the commands, and with them every cell of window and screen |
| `Console.FirstLines` | kernel/console.c:305-348 | the 80 cells of a screen of 4 rows after "ab", a newline and "c" |
| `Scheduler.StepInv` | kernel/task.c:340-461 | every event keeps: the running slot is present, present slots carry their own index, 1 <= ttl <= 10 and no pending request between interrupts |
| `Scheduler.YieldExact` | kernel/task.c:346-363 | schedule gives the caller 10 ticks, touches no other slot and goes to the next present slot, cyclically |
| `Scheduler.TickExact` | drivers/timer.c:11-21 | a tick takes one from the running task's time and nothing else; the last one is a call of schedule |
| `Scheduler.ExitExact` | kernel/task.c:456-461 | the task that exits is gone, no other slot is touched, and the next present slot runs |
| `Scheduler.SpawnExact` | kernel/task.c:185-192 | the least free slot gets a present task with its own number and 10 ticks; no other slot and not the running task change |
| `Scheduler.ScheduleNearer` | kernel/task.c:346-363 | schedule passes over free slots only |
| `Scheduler.StepNearer` | kernel/task.c:346-461 | each call of schedule and each tick brings a waiting task nearer, whatever other slots do; it cannot disappear |
| `Scheduler.WaitBound` | kernel/task.c:346-363 | a present task d slots ahead runs within d calls of schedule and within 10 * d ticks |
| `Scheduler.NoStarvation` | kernel/task.c:346-363 | 310 ticks are enough for every present task |
| `Scheduler.SpawnedRuns` | kernel/task.c:185-192 | a new task runs within 310 ticks |
| `Scheduler.ExitedIsGone` | kernel/task.c:456-461 | over any run a task that has exited does not run again before a new task has taken its slot |
| `Scheduler.RunInv` | kernel/task.c:340-461 | the invariant over any run |
| `Scheduler.TaskTable.GetNextTid` | kernel/task.c:329-338 | the first free slot |
| `Scheduler.TaskTable.SpawnTask` | kernel/task.c:185-192 | the new task takes the first free slot with a full time slice |
| `Scheduler.TaskTable.DoSchedule` | kernel/task.c:346-363 | the loop finds the next present slot, and the running task's slice is renewed |
| `Scheduler.TaskTable.TimerInterrupt` | drivers/timer.c:11-21 | timer_handler followed by cond_schedule is the tick step |
| `Scheduler.TaskTable.TerminateProcess` | kernel/task.c:456-461 | the exit step |
| `Frames.FirstClrBit` | kernel/common.c:62-73 | the least clear bit of a byte, -1 if none |
| `Frames.BusyBit` | kernel/frame.c:5-10 | frame f is bit f % 8, from the lowest, of byte f / 8 |
| `Frames.RangeFrames` | kernel/frame.c:132-145 | the frames of a search are those of 4096 bytes that lie wholly inside [min_addr, max_addr) |
| `Frames.AlignedCorrect` | kernel/frame.c:126-155 | from a byte boundary above frame 0 the search finds the lowest idle frame of the range, or fails exactly when there is none, in every bitmap |
| `Frames.UnalignedWrong` | kernel/frame.c:138-148 | anywhere else there is a bitmap on which it does not |
| `Frames.CorrectIffAligned` | kernel/frame.c:126-155 | correct in every bitmap iff the first frame is non-zero and a multiple of 8 |
| `Frames.SetFrameBusy` | kernel/frame.c:7-8 | setting or clearing a bit adds or removes exactly one busy frame |
| `Frames.FrameMap.FrameStatus` | kernel/frame.c:98-101 | 1 iff the frame is busy, which is its bit in the bitmap |
| `Frames.FrameMap.GetIdleFrameAddr` | kernel/frame.c:126-155 | the loop computes the search for every range |
| `Frames.FrameMap.AllocFrame` | kernel/frame.c:105-116 | marks the returned frame and no other; in aligned ranges it is the lowest idle one and was not held |
| `Frames.FrameMap.ClearFrame` | kernel/frame.c:119-121 | releases that frame and no other |
| `Frames.FrameMap.Calls` | kernel/frame.c:105-155 | any run of alloc_frame and clear_frame on aligned ranges: each grant is the lowest frame of its range not busy at that moment, and the bitmap is the set of busy frames the results account for |
| `Frames.BusyIsHeld` | kernel/frame.c:105-121 | when callers give back only what they hold, the busy frames are those busy at the start and those held, and the two never meet |
| `Frames.NoDoubleGrant` | kernel/frame.c:105-121 | no frame is granted twice without having been given back in between |
| `Tokens.StrFd` | lib/string.c:91-107 | the leftmost occurrence, NULL exactly when there is none or the pattern is empty |
| `Tokens.NoLeading` | lib/string.c:202-208 | skips exactly the leading delimiters |
| `Tokens.StrTok` | lib/string.c:143-164 | the next token and where the following one starts, NULL when none follows |
| `Tokens.FieldsCut` | lib/string.c:143-164 | the reference cut: joining the pieces gives the text, no piece holds a delimiter |
| `Tokens.TokenStep` | lib/string.c:143-164 | each strtok call takes the first of the non-empty pieces still to come |
| `Tokens.PathTokens` | fs/fat16.c:1002-1015 | the path loop visits exactly the non-empty pieces in order, and the copies fit a buffer of n cells iff every piece has fewer than n characters |
| `Tokens.SegmentFits` | fs/fat16.c:1002-1015 | the 16-character segment holds every copy iff every piece has at most 15 characters |
| `Numbers.TextCanonical` | lib/string.c:182-186 | digits only, and no leading zero except for 0 |
| `Numbers.PositiveValue` | lib/string.c:177-223 | the text of n reads as n |
| `Numbers.HexValue` | lib/string.c:211-223 | the hexadecimal text of n, with the digits 0-9 and A-F, reads as n in base 16 |
| `Numbers.NegativeValue` | lib/string.c:182-186 | what the text of a negative int reads as |
| `Numbers.RoundTripIff` | lib/string.c:177-223 | atoi undoes itoa iff the int is not negative |
| `Numbers.Itoa` | lib/string.c:177-198 | digit loop and in-place reversal leave the text followed by zeros, at most 10 characters for every int |
| `Numbers.ReverseCells` | lib/string.c:188-195 | in-place reversal |
| `Numbers.Atoi` | lib/string.c:211-223 | the value modulo 2^32, for every text and base |

## Left out

- `KernelHeap.KernelHeap.KMalloc`: requires that `size + 12` does not wrap; `HeapTheorems.CarveFitsIffNoWrap` says what happens otherwise.
- `KernelHeap.KernelHeap.KFree`: requires a live block, because the source checks nothing; its parameter k only names that block.
- `FatFile.FatFile.Write`: the directory entry on disk (fat_update_file_dirent) is not rewritten, only the size in memory; running out of clusters is a precondition; the cursor is at most file_size and its cluster is the right one or end-of-chain, which `FatFile.FatFile.Read` says exactly when a read leaves it.
- `FatFile.FatFile.Read`: the root directory, which has no chain, and the 32-bit wrap of byte_offset + buf_size are not modelled.
- `FatFile.WriteThenRead`: the reader takes size and chain from memory, not from the directory entry on the disk.
- `FatVolume.Volume.WriteFat`: requires a cluster number inside the FAT; past it the source overwrites whatever follows the FAT.
- `FatFree.FreeChain`: requires that no FAT entry points past the end of the FAT, which holds by itself when the FAT has an entry for every normal cluster number.
- `FatTree.FreeChildsUnderDir`: the clearing of the deleted entry in its parent directory and the temporary file object are not modelled.
- `Console.Console.WriteConsoleOne`: the count of characters is unbounded; `Console.OrderKeptIff` and `Console.RingWordIff` say what the 32-bit count of the source does. The height of the input area is fixed.
- `Tokens.StrTok`: delimiters of one character, which is how the kernel calls it; strfd is modelled for every pattern.
- `Scheduler.TaskTable.TerminateProcess`: requires another present task, because the source then switches to a null task.
- Creating files, opening in append mode, root-directory reads and writes: entangled with raw directory block layout.
- Paging, address spaces and task images (kernel/mem.c, most of kernel/task.c): hardware page tables.
- ATA, serial, keyboard, VGA registers, interrupt and segment tables, assembly and boot code: hardware access.
- Console input line, shell, printf: small and easy.
- The seconds counter of drivers/timer.c: a counter modulo 25.
