# A model of the systems-programming assignments

The repository holds the assignments of a course on computer systems: a Unix V6 file system and a search engine over it
(`1/`, `2/`), a shell (`3/`), a news aggregator with a thread pool (`5/`) and a caching HTTP proxy (`6/`). This project
models the parts whose correctness is hard to see and proves them, in Dafny 4.11. `dafny verify dfyconfig.toml` checks
everything.

Code that works by changing things step by step is modelled by classes and methods with loops, over heap nodes, arrays
and streams. Each such method is proved against a function or predicate on values, and what the code is for is proved
about that function or predicate, for all inputs, all runs or all reachable states.

## Thread pool: `ThreadPoolProtocol`, `ThreadPoolSafety`, `ThreadPoolTheorems`, `ThreadPool`

One dispatcher, up to N workers, the caller of `wait`, and any number of callers of `schedule` are a state machine. A step
is one critical section, or one access made outside every critical section: a worker runs its function and clears its
slot without its mutex, in four steps. A condition variable is a program counter at which a thread is blocked; a signal
moves the thread to the point where it looks at its condition again, and spurious wake-ups are steps of the environment.
The dispatcher's mutex on the free workers is explicit, since it is kept while workers are created. The class
`ThreadPool` executes any interleaving with the shared queues, the array of workers and the flags of the code, and is
proved to follow the state machine.

What is taken for granted: atomic critical sections, functions that return, a function pointer that is not NULL, and one
call of `wait`. No number of workers and no order of calls is excluded: `WaitReturnsIff` says when `wait` returns, and
two lemmas give the runs in which it does not.

## Sector cache: `ListHeads`, `LruModel`, `CacheParts`, `CacheSetor`, `DiskImg`

The intrusive circular lists are heap nodes with `next` and `prev`; each list operation is proved to be an edit of a
sequence. The cache keeps two such lists over the same descriptors, a hash table and an array cut into slots. It is proved to
hold the most recently read sectors, in order, and to change nothing but the number of disk reads.
The capacity is at least one sector, a sector is added only after a miss, and the run only reads. Reading beyond the end of the
image is where the cached disk and the raw disk part: a raw read there returns fewer bytes than a sector, but the buffer is
cached and the next read delivers it as a whole sector. `ReadAnyRun` states for every run exactly which reads agree.

## File system and search: `UnixFs`, `DiskLayout`, `DirEntries`, `Fileops`, `Pathname`, `Pathstore`, `Index`, `Words`, `ScanModel`, `TreeWalk`, `Scan`, `DiskSearch`, `ScanPaths`

Inodes, block addressing and the bytes of a file are functions of the disk image. Every sector is read through the cached disk
above, whose lists, table and slots change with each read; what is delivered is proved to be what the image holds.
`DiskLayout` says where that is, without the code's arithmetic: the inodes are an array from byte 1024 on, the addresses of a
file are its tables of addresses one after the other, and a file is the bytes of the sectors at these addresses. The
open-file table is an array of 64 slots. SHA-1 is an arbitrary function, so duplicate detection is proved without assuming
that it has no collisions.

The scan of a directory tree is proved to end and to make the calls of `Scan_File` of a walk, in order, each with so many free
slots. That walk is measured against the tree itself, `TreeWalk.Below`, which knows no slots and no lengths: a file is visited
exactly if a chain of names leads to it for which the slots suffice, and with names of at most 13 bytes slots run out before
any path is too long. What the calls leave is the fold `ScanModel.After`. Without discarding, the scan of a whole disk
indexes exactly the files that fewer than 64 names lead to (`DiskSearch.BuildDiskIndex`); a deeper file is passed over without
an error (`TooDeep`). The calls are one for each route of directory entries to a file, in the order of the entries
(`VisitInOrder`), so on a disk without equal names in a directory no path is scanned, and no place of a word found, twice
(`WordsFoundOnce`). With discarding, `Adds` says by paths, slots and contents which calls index their file, and
`DiscardingWorksIff` when that is one file for all contents: so it is if at most 62 names lead to each file, and
`TwinIsIndexedAgain` and `TwinIsHidden` show the two ways in which it fails.

For the scan, path lookup is an arbitrary fixed function to well-formed inodes, so it is proved to end even where directories are
cyclic. `Pathname` proves what `pathname_lookup` computes for every path, with whatever the memory of its directory entry holds
at first as a parameter. `ScanPaths` joins the two: the lookup of the code is such a function, the path that the scan makes for
an entry opens the inode of the first entry of that name, and on a tidy image the files of the tree are exactly those whose
paths resolve, each by its own components; so without discarding a file is indexed exactly if its path has fewer than 64.

The image is well formed in this sense: inode numbers are at least 1, the sectors that a file's size calls for are in the
image, a small file has at most 4096 bytes, and the names in directories end with a NUL.

Where code and documentation disagree, the code is followed:

- 2/README.txt says that `inode_iget` uses the inode cache; 2/assign1/inode.c does not.
- 2/assign1/pathname.h asks for a negative number when a path has no inode; 2/assign1/pathname.c ignores the result of the
  directory search. The promise is kept if and only if every component is found (`Pathnames.PromiseKeptIff`). Otherwise the
  result is the inode of the path without the components that are missing (`MissingArePassedOver`), unless the first one
  is, where uninitialised memory decides (`FirstComponentDecides`). `PromiseIsBroken` gives a disk image and a path.

## HTTP messages: `Text`, `Numbers`, `Streams`, `HttpHeader`, `HttpPayload`, `HttpResponse`

Input streams are a string and a flag that is lost at the end, as `getline`, `read` and `operator>>` use them. Header lines,
continuation lines, the status line, chunked and counted payloads are read and printed as the code does, down to the
conversions of `strtol` and from `long` to `int`. The order in which headers are printed is left open, so the round trip
holds for every order. The round trip is exact, for whole responses (`Rehydration`) and for their parts: each lemma gives a
necessary and sufficient condition. `ContinuedValueIsLost` shows a header that is read but not kept, and `LeadingZeroIsOctal` the
lengths that are misread. Letters, digits and white space are pinned to the literal alphabets: names are found in any case of
their letters (`FoundInAnyCase`), and numbers printed with the digits of base 8, 10 and 16 are read back. Allocation fails only for a size that no vector has.

## Command line: `TshParse`

The tokenizer writes NULs into the command and indices into the array of arguments. It is proved against a scan of the
command as it was given.

## Model

| member | source | states |
|---|---|---|
| ThreadPoolTheorems.HandOverIsFifo | 5/thread-pool.cc:41-73 | in every reachable state the functions handed to workers, the dispatcher's one and the queue are, in order, what was scheduled |
| ThreadPoolTheorems.EveryFunctionInOnePlace | 5/thread-pool.cc:103-134 | every scheduled function is in exactly one of queue, dispatcher's hand, a slot, execution, or done, as often as it was scheduled |
| ThreadPoolTheorems.HandOverNeverOverwrites | 5/thread-pool.cc:63-73 | a worker is in the free queue at most once, with an empty slot, so no pending function is overwritten although slots are cleared without the lock |
| ThreadPoolTheorems.WorkersCreatedTogether | 5/thread-pool.cc:46-66 | whenever the dispatcher is outside its critical section, no worker or every worker has been created |
| ThreadPoolTheorems.JoinLoopMeetsStartedWorkers | 5/thread-pool.cc:195-204 | the join loop locks an uninitialised mutex exactly when nothing was ever handed over; never if something was scheduled before wait |
| ThreadPoolTheorems.ShutdownIsComplete | 5/thread-pool.cc:184-205 | when wait has returned all threads have ended, all slots are empty, and everything scheduled before wait was handed over and has finished |
| ThreadPoolTheorems.NoFunctionIsAbandoned | 5/thread-pool.cc:112-134 | no worker ends with a function in its slot, and no slot is filled after the exit flag is raised |
| ThreadPoolTheorems.SomeThreadMoves | 5/thread-pool.cc:26-73 | in any state that keeps the invariant some thread can move until wait returns: no lost wake-up |
| ThreadPoolTheorems.NoDeadlock | 5/thread-pool.cc:184-205 | with a worker and a function scheduled before wait, the pool is at rest if and only if wait has returned |
| ThreadPoolTheorems.WaitReturnsIff | 5/thread-pool.cc:184-205 | in any run, a pool at rest has returned from wait if and only if it has workers and the dispatcher took a function, or neither |
| ThreadPoolTheorems.WaitReturnsByScheduled | 5/thread-pool.cc:184-205 | so when nothing is scheduled after wait: if and only if it has workers and something was scheduled, or neither |
| ThreadPoolTheorems.OwnStepWorks | 5/thread-pool.cc:21-76 | every step of a thread lowers a measure of the work left |
| ThreadPoolTheorems.OwnStepsAreFew | 5/thread-pool.cc:101-135 | in any run the steps of the threads are bounded by the fall of that measure and what calls of schedule and spurious wake-ups add to it |
| ThreadPoolTheorems.OwnRunsAreShort | 5/thread-pool.cc:101-135 | a run without new functions and spurious wake-ups is no longer than that measure |
| ThreadPoolTheorems.WaitTerminates | 5/thread-pool.cc:184-205 | from any state after the call of wait, in every interleaving, also with spurious wake-ups and later calls of schedule, the threads take no more steps than that; they are at rest if and only if wait has returned, with all earlier functions finished |
| ThreadPoolTheorems.WaitOnUnusedPool | 5/thread-pool.cc:195-201 | the run in which wait is called on a pool that was never used |
| ThreadPoolTheorems.WaitOnPoolWithoutWorkers | 5/thread-pool.cc:48-61 | the run in which a function is scheduled on a pool of no workers |
| ThreadPoolSafety.InitialInv | 5/thread-pool.cc:141-162 | a new pool keeps the invariant |
| ThreadPoolSafety.StepKeepsInv | 5/thread-pool.cc:17-138 | every step of every thread and of the environment keeps it |
| ThreadPoolSafety.RunKeepsInv | 5/thread-pool.cc:17-138 | so does every run |
| ThreadPoolCode.ThreadPool.constructor | 5/thread-pool.cc:141-162 | the new pool is the initial state of the protocol |
| ThreadPoolCode.ThreadPool.Schedule | 5/thread-pool.cc:173-181 | the state after schedule is the protocol's |
| ThreadPoolCode.ThreadPool.DispatcherTakesFunction | 5/thread-pool.cc:26-44 | the state after the dispatcher's look at the queue is the protocol's |
| ThreadPoolCode.ThreadPool.DispatcherLooksForThread | 5/thread-pool.cc:48-66 | the same for a turn of its loop over the free workers |
| ThreadPoolCode.ThreadPool.DispatcherHandsOver | 5/thread-pool.cc:68-73 | the same for filling a slot and signalling its worker |
| ThreadPoolCode.ThreadPool.DispatcherMoves | 5/thread-pool.cc:21-74 | whatever the dispatcher does next is a step of the protocol |
| ThreadPoolCode.ThreadPool.WorkerAnnounces | 5/thread-pool.cc:103-108 | the same for a worker that offers itself |
| ThreadPoolCode.ThreadPool.WorkerTestsSlot | 5/thread-pool.cc:110-123 | the same for its look at slot and flag |
| ThreadPoolCode.ThreadPool.WorkerMoves | 5/thread-pool.cc:101-135 | whatever a worker does next is a step of the protocol |
| ThreadPoolCode.ThreadPool.CallerMoves | 5/thread-pool.cc:184-205 | the same for the caller of wait |
| ThreadPoolCode.ThreadPool.Execute | 5/thread-pool.cc:17-205 | any interleaving of the threads is a run of the protocol |
| ListHeads.InsertBetween | 2/utilidades/list.h:82-90 | the node comes between its two neighbours, also when these are one |
| ListHeads.ListAdd | 2/utilidades/list.h:100-103 | a ring over s becomes a ring over the node and s |
| ListHeads.ListAddTail | 2/utilidades/list.h:113-116 | a ring over s becomes a ring over s and the node |
| ListHeads.Unlink | 2/utilidades/list.h:126-130 | the neighbours are linked to each other |
| ListHeads.ListDelInit | 2/utilidades/list.h:151-155 | the ring loses exactly its node k, which becomes a ring of its own |
| ListHeads.ListMove | 2/utilidades/list.h:162-166 | a node leaves one ring and comes first in another |
| ListHeads.ListEmpty | 2/utilidades/list.h:184-187 | the answer is whether the sequence is empty |
| ListHeads.ListSpliceInit | 2/utilidades/list.h:221-228 | all nodes of one ring come, in order, before those of another, and the first is left empty |
| LruModel.RecentIsRecencyOrder | 2/CacheSetor.c:75-91 | the model's order is that of the last read of each sector |
| LruModel.CacheIsRecentPrefix | 2/CacheSetor.c:75-127 | after every read sequence the cache holds exactly the most recently read distinct sectors, up to its capacity, in recency order |
| LruModel.LruInclusion | 2/CacheSetor.c:94-127 | a cache is contained in every larger one after the same reads |
| LruModel.MissesNeverGrow | 2/diskimg.c:38-60 | the number of disk reads never grows with the capacity |
| CacheParts.ListsPartition | 2/CacheSetor.c:50-66 | every descriptor is in exactly one of the free list and the LRU list |
| CacheParts.KeysDistinct | 2/CacheSetor.c:75-127 | the hash table has exactly the sectors of the descriptors in the LRU list, each once |
| CacheParts.Listas.constructor | 2/CacheSetor.c:50-66 | all descriptors are free, both lists are rings |
| CacheParts.Listas.MoveToFront | 2/CacheSetor.c:87-88 | unlinking and adding moves one descriptor to the front of the LRU list and keeps both rings |
| CacheParts.Listas.TakeFree | 2/CacheSetor.c:96-106 | the first free descriptor comes first in the LRU list |
| CacheParts.Listas.TakeLast | 2/CacheSetor.c:115-125 | the last descriptor of the LRU list comes first |
| CacheParts.Slots.Copia | 2/CacheSetor.c:69-72 | copying into a slot changes its 512 bytes and no other byte of the memory |
| CacheParts.Slots.Le | 2/diskimg.c:43-47 | copying out of a slot delivers what was copied in |
| CacheParts.RegionsApart | 2/disksearch.c:224-226 | the slots of inodes and of sectors lie in disjoint parts of the memory, and all fit |
| CacheSetores.CacheSetor.constructor | 2/CacheSetor.c:50-66 | the new cache is valid and empty |
| CacheSetores.CacheSetor.SectorsAreKeys | 2/CacheSetor.c:75-127 | a sector has cached bytes if and only if it is in the LRU order; no sector is there twice, and there are at most as many as slots |
| CacheSetores.CacheSetor.ObterSetor | 2/CacheSetor.c:75-91 | NULL exactly for a sector that is not cached; otherwise the slot with its bytes, and the sector becomes the most recent |
| CacheSetores.CacheSetor.AdicionarSetor | 2/CacheSetor.c:94-127 | the sector comes first with its bytes, the least recent goes if there is no room, all others keep their bytes |
| DiskImgs.DiskImg.DisksimReadSector | 2/disksim.c:72-106 | the raw read: a whole sector, a part of one, nothing, or -1 |
| DiskImgs.RawByte | 2/disksim.c:72-106 | byte k of the buffer after a raw read of sector n is byte 512 n + k of the image if there is one, and otherwise as before |
| DiskImgs.DiskImg.ReadSector | 2/diskimg.c:38-60 | a hit delivers the cached bytes without a disk read; a miss delivers what the disk does and caches it; -1 changes nothing; the count is that of the raw disk exactly for a sector inside the image or not cached |
| DiskImgs.DiskImg.ReadSound | 2/diskimg.c:38-60 | in a read-only run, a read inside the image returns 512 and the bytes of the image, and the cache stays sound |
| DiskImgs.DiskImg.ReadAll | 2/diskimg.c:38-60 | after any run of reads the LRU list of the code is the most recently read sectors, up to the capacity, in recency order; the bytes are those of the image |
| DiskImgs.ReadRun | 2/diskimg.c:38-60 | any sequence of such reads, with any capacity, returns the raw sectors and reads the disk once a miss |
| DiskImgs.ReadAnyRun | 2/diskimg.c:38-60 | in any run of reads, also outside the image, a count is that of the raw disk exactly if the sector is inside the image or the replacement policy does not hold it; otherwise it is 512 |
| DiskImgs.ReadTwice | 2/diskimg.c:51-58 | the second read returns what the raw disk would exactly for a negative sector or one inside the image |
| UnixFs.InodeRoundTrip | 2/assign1/ino.h:31-41 | an inode is read back from the bytes of its fields |
| UnixFs.AddressingInBounds | 2/assign1/inode.c:32-98 | for every size an inode can hold, all indices stay in their tables, and the doubly indirect one is at most 120 |
| UnixFs.AddressingInjective | 2/assign1/inode.c:32-94 | different blocks of a file use different pointers |
| UnixFs.InodesDoNotOverlap | 2/assign1/inode.c:8-29 | different inode numbers lie at different places, each within a sector |
| DiskLayout.InodesAreAnArray | 2/assign1/inode.c:8-29 | inode n is at byte 1024 + 32 (n - 1) of the image, and is decoded from there |
| DiskLayout.SizeHas24Bits | 2/assign1/inode.c:97-99 | a size below 2^24 is put together from its high 8 and low 16 bits |
| DiskLayout.ModeBits | 2/assign1/ino.h:44-49 | which bits of the mode mean allocated, large, regular and directory |
| DiskLayout.BlockAddress | 2/assign1/inode.c:32-94 | block b of a file is at the b-th entry of its address tables put one after the other: the inode itself, or seven sectors of addresses and then those that the eighth lists |
| DiskLayout.FileIsItsSectors | 2/assign1/file.c:9-38 | the bytes of a file are those of the sectors at its addresses, one after the other, up to its size |
| DiskLayout.UnallocatedIsEmpty | 2/fileops.c:107-111 | reading delivers these bytes if the highest bit of the mode is set, and nothing otherwise |
| UnixFs.BlocksMakeContents | 2/assign1/file.c:9-38 | block b cut to the count that file_getblock returns is the part of the file's bytes at 512 b |
| UnixFs.ByteOfFile | 2/fileops.c:119-131 | byte c of a file is byte c % 512 of block c / 512, and below the count returned |
| UnixFs.DiskimgReadSector | 2/diskimg.c:38-60 | a sector of the image is delivered through the cache, which stays sound |
| UnixFs.InodeIget | 2/assign1/inode.c:8-29 | delivers the inode at its place in the image (`DiskLayout.InodesAreAnArray`), through the cache |
| UnixFs.InodeIndexLookup | 2/assign1/inode.c:32-94 | delivers the sector that the pointer of the block leads to (`DiskLayout.BlockAddress`), through the cache |
| UnixFs.FileGetBlock | 2/assign1/file.c:9-38 | delivers the block and how many of its bytes belong to the file, through the cache |
| UnixFs.ChksumByInumber | 2/assign1/chksumfile.c:16-51 | the hash is fed exactly the bytes of the file; -1 exactly for an inode that is not allocated |
| UnixFs.ChksumCompare | 2/assign1/chksumfile.c:70-78 | 1 exactly for equal checksums |
| FileopsTable.Fileops.Open | 2/fileops.c:60-82 | fails exactly when no slot is free; otherwise the first free slot gets the path, the inode that the lookup gives (`ScanPaths` for that of the code) and cursor 0, one less is free, the others are as they were |
| FileopsTable.Fileops.GetChar | 2/fileops.c:87-132 | the byte under the cursor, or -1 at the end; only this cursor moves; the code's assertion holds |
| FileopsTable.Fileops.Read | 2/fileops.c:138-147 | delivers the file's bytes from the cursor to the length or the end of the file, and moves the cursor by as many |
| FileopsTable.Fileops.Tell | 2/fileops.c:152-156 | the cursor, or -1 for a free slot |
| FileopsTable.Fileops.Close | 2/fileops.c:162-168 | the slot is free, and no other slot changes |
| FileopsTable.Fileops.IsFile | 2/fileops.c:173-189 | whether the path leads to an allocated regular file |
| FileopsTable.SameOpenFree | 2/fileops.c:67-73 | tables with the same open files have as many free slots |
| Pathnames.FirstMatchIsFirst | 2/assign1/directory.c:47-54 | the search finds the entry that has the name and before which none has it |
| Pathnames.NoMatch | 2/assign1/directory.c:45-62 | and none if no entry has it |
| Pathnames.DirectoryRoundTrip | 2/assign1/directory.c:45-54 | entry k is read back from the bytes of a directory in which the entries were written one after the other |
| Pathnames.SearchOfDirectory | 2/assign1/directory.c:45-62 | the search in these bytes finds the first of the entries with the name, or none if there is none |
| Pathnames.EntryInBlock | 2/assign1/directory.c:40-43 | no entry straddles two blocks, so entries read in blocks and entries read 16 bytes at a time are the same |
| Pathnames.ReadBlocks | 2/assign1/directory.c:28-43 | the buffer that is filled block by block starts with the bytes of the directory |
| Pathnames.DirectoryFindname | 2/assign1/directory.c:11-62 | delivers the first entry with the name; otherwise -1, and the caller's entry is left alone |
| Pathnames.StrTok | 2/assign1/pathname.c:18-26 | delivers the next component |
| Pathnames.ComponentsOfJoin | 2/assign1/pathname.c:15-26 | components joined by any number of slashes are found again |
| Pathnames.PathnameLookup | 2/assign1/pathname.c:11-31 | the fold of the code over the components of any path, whatever its directory entry holds at first; for a path that resolves, its inode |
| Pathnames.LookupIsResolve | 2/assign1/pathname.c:20-25 | that fold is first-match search from directory to directory whenever every component resolves |
| Pathnames.PromiseKeptIff | 2/assign1/pathname.h:6-11 | the result is the inode of the path, or negative where there is none, if and only if the path has one |
| Pathnames.MissingArePassedOver | 2/assign1/pathname.c:20-25 | once the directory entry is set, the result is the inode of the path without the components that are not found, wherever these are; none is left out exactly when the path resolves |
| Pathnames.FirstComponentDecides | 2/assign1/pathname.c:16-25 | what the directory entry holds at first is irrelevant if the first component is found; otherwise it is the inode from which the rest is looked up |
| Pathnames.PromiseIsBroken | 2/assign1/pathname.h:6-11 | a disk image with only "a" in its root, on which looking up "/a/b" is allowed and gives the inode of "/a" and no negative number |
| Pathnames.LookUpWhatIsMissing | 2/assign1/pathname.c:11-31 | the call of the code on that image: the path has no inode, and 2 is returned |
| Pathstores.Pathstore.SameContents | 2/pathstore.c:163-177 | the comparison loop decides whether two open files have equal bytes |
| Pathstores.Pathstore.IsSameFile | 2/pathstore.c:119-184 | same path, or same checksum and, if two files can be opened, same contents; every file it opens is closed |
| Pathstores.Pathstore.SameFileIsInStore | 2/pathstore.c:99-114 | whether that holds for some stored file |
| Pathstores.Pathstore.Path | 2/pathstore.c:66-94 | with discarding on, NULL if and only if the path is stored, or two files can be opened and equal contents are stored, whatever the hash; as long as two files could be opened, stored files have pairwise different contents |
| Indexes.Index.StoreEntry | 2/index.c:47-90 | the entry is added to what was stored |
| Indexes.Index.RetrieveEntry | 2/index.c:92-102 | all the locations stored for the word, newest first |
| Indexes.FoundExactly | 2/index.c:87-102 | these are exactly the locations stored for the word |
| Words.PieceIsMaximal | 2/scan.c:62-69 | a piece holds 1 to 64 letters and stops short only where the letters stop |
| Words.LettersAreLetters | 2/scan.c:54 | the letters are those of the English alphabet, in both cases |
| Words.EntriesExactly | 2/scan.c:53-74 | the entries of a file are exactly its runs of letters cut every 64 letters, each with its offset |
| Words.EntriesInOrder | 2/scan.c:53-74 | they come in the order of the file |
| Words.WordsMakeLetters | 2/scan.c:53-74 | the words of a file, put together, are its letters |
| Scans.Scan.SkipToWord | 2/scan.c:54-58 | leads to the next letter or the end, past no word |
| Scans.Scan.ReadWord | 2/scan.c:59-71 | reads the piece that starts here |
| Scans.Scan.IndexWords | 2/scan.c:50-74 | the index gains exactly the entries of the file |
| Scans.Scan.ScanFile | 2/scan.c:33-78 | keeps the scan's invariant and the open files; what is stored and indexed afterwards is exactly what AfterFile says, for any number of free slots |
| Scans.Scan.IndexFile | 2/scan.c:44-77 | the words of the file are indexed, or -1 and nothing is when no slot is free |
| Scans.Scan.ScanRegular | 2/scan.c:82-84 | the same as an outcome, also after files that were stored without a checksum |
| Scans.Scan.TreeAndIndex | 2/scan.c:80-137 | ends for every image and leaves the open files as they were; it makes exactly the calls of Scan_File of the walk, in order, and leaves what these leave |
| Scans.Scan.ScanEntries | 2/scan.c:106-137 | the same for the directory loop, which walks all whole entries; -1 exactly for a part of one at the end |
| TreeWalk.DotsTest | 2/scan.c:122-128 | the test on the first three bytes is that for "." and ".." |
| TreeWalk.VisitedIff | 2/scan.c:80-137 | a file is handed to Scan_File with f free slots if and only if a chain of names of directory entries leads to it, one slot is gone for each, and no path on the way is too long |
| TreeWalk.VisitInOrder | 2/scan.c:106-137 | there is exactly one call of Scan_File for each route of directory entries, by their numbers, to a file that is reached, and the calls come in the order of the entries |
| TreeWalk.NeverTooLong | 2/scan.c:87-90 | below the root, no chain of up to 64 names makes a path too long |
| ScanModel.SearchExactly | 2/scan.c:50-74 | a search finds exactly the places in scanned files where the word is a piece, and the word stands there |
| ScanModel.SearchNewestFirst | 2/index.c:87-88 | files come newest first |
| ScanModel.FileLastFirst | 2/index.c:87-88 | and within a file the last place comes first |
| ScanModel.EveryWordIsFound | 2/pathstore.c:71-76 | no word of a file is lost by discarding it if its contents are indexed: it is found at its offset in an indexed file with the same contents |
| ScanModel.FirstsCover | 2/pathstore.c:66-76 | keeping the first file with each contents leaves pairwise different contents, and every contents is there |
| ScanModel.IndexedOfAll | 2/scan.c:33-48 | without discarding, the files indexed are those that could be opened |
| ScanModel.IndexedInOrder | 2/scan.c:33-48 | each call indexes its file once, in order |
| ScanModel.DiscardingIndexesOnce | 2/pathstore.c:131-133 | with discarding, no path is indexed twice, whatever the calls |
| ScanModel.FoundOnce | 2/index.c:87-102 | if no file was scanned twice, no place is found twice |
| ScanModel.ScannedNext | 2/pathstore.c:66-94 | with discarding, a call indexes its file if and only if it can be opened and is the first with its contents, or no second file can be opened and its own path is not stored |
| ScanModel.IndexedExactly | 2/pathstore.c:66-94 | contents are in the index if and only if some call adds them by this rule |
| ScanModel.DifferentExactly | 2/pathstore.c:66-94 | the indexed files differ if and only if no two calls add the same contents |
| ScanModel.DiscardingWorksIff | 2/pathstore.c:66-94 | there is one indexed file for the contents of every visited file if and only if exactly one call adds each contents |
| ScanModel.RoomKeepsFirsts | 2/pathstore.c:66-94 | with two free slots at every call, the first file with each contents is indexed |
| ScanModel.TwinIsIndexedAgain | 2/pathstore.c:150-161 | a duplicate reached with one free slot is indexed again |
| ScanModel.TwinIsHidden | 2/scan.c:44-48 | a file reached without a free slot is stored but not indexed, and hides an equal one that could be |
| DiskSearch.WholeDiskIff | 2/disksearch.c:278 | the calls of Scan_File are those for the files of the tree that fewer than 65 names lead to, with one slot gone for each name |
| DiskSearch.IndexedIff | 2/disksearch.c:278 | without discarding, a path is indexed if and only if fewer than 64 names lead to it as a file of the tree |
| DiskSearch.ContentsIndexed | 2/pathstore.c:66-76 | with discarding, if at most 62 names lead to each file, the contents of all files of the tree are indexed, each once |
| DiskSearch.BuildDiskIndex | 2/disksearch.c:253-285 | from an empty cache, store and index, the two results above hold, what is indexed is in all cases what the calls of Scan_File leave, and the index holds exactly its words |
| DiskSearch.SearchOfAll | 2/index.c:87-102 | without discarding, a search in that index finds exactly the places of the word in the files that fewer than 64 names lead to |
| DiskSearch.SearchOfFirsts | 2/pathstore.c:66-76 | with discarding, if at most 62 names lead to each file, every word of every file is found at its offset in an indexed file with the same contents |
| DiskSearch.TooDeep | 2/scan.c:93-97 | a file at depth d of nested directories is in the tree for every d, and indexed if and only if d is below 64 |
| ScanPaths.FoldDiskIsValid | 2/fileops.c:60-82 | the lookup of the code is one with which the scan may be run, if the inodes in use, which are closed under the names in directories, are well formed |
| ScanPaths.ComponentsOfChild | 2/scan.c:130-131 | a name behind a path is one more component of it |
| ScanPaths.ChildOpensFirstEntry | 2/scan.c:130-132 | the path that the scan makes for a name opens the inode of the first entry with the name in the directory |
| ScanPaths.BelowIff | 2/scan.c:80-137 | on a tidy image, names lead to a file of the scanned tree if and only if they resolve, by first-match search, to the inode of a regular file, and none is a dot name |
| ScanPaths.WholeDiskOfImage | 2/disksearch.c:278 | so for the tree below the root, where the names are the components of the path; without discarding a path is indexed if and only if it is such a file with fewer than 64 components |
| ScanPaths.VisitedHaveInodes | 2/scan.c:80-137 | on a tidy image every path handed to Scan_File has an inode |
| ScanPaths.VisitedOnce | 2/scan.c:80-137 | on a tidy image without equal names in a directory, no path is handed to Scan_File twice |
| ScanPaths.WordsFoundOnce | 2/disksearch.c:278 | so each place of a word is found once, with or without discarding |
| HttpHeaders.HTTPHeader.IngestHeader | 6/header.cc:17-37 | the headers and the rest of the stream are those of the model |
| Text.SpaceCodes | 6/string-utils.cc:13-24 | what is trimmed are the six characters of white space of the C locale |
| Text.LowerSameName | 6/string-utils.cc:27-31 | two names have the same lower-case form exactly if they differ at most in the case of the 26 letters |
| HttpHeaders.HTTPHeader.AddHeader | 6/header.cc:45-48 | the lower-case name gets the value, the others keep theirs |
| HttpHeaders.HTTPHeader.ExtendHeader | 6/header.cc:85-88 | the value grows by a space and the text |
| HttpHeaders.HTTPHeader.GetValueAsString | 6/header.cc:61-65 | the value under the name in any case, or nothing |
| HttpHeaders.FoundInAnyCase | 6/header.cc:45-65 | a value set or extended under a name is found under every name that differs only in the case of letters, and no other name is affected |
| HttpHeaders.HTTPHeader.Print | 6/header.cc:75-81 | every header is printed once |
| HttpHeaders.FieldsAreLines | 6/header.cc:75-81 | the printed text is one line for each field, in the order of the fields |
| HttpHeaders.FieldStep | 6/header.cc:28-34 | a printed field is read as its name and its trimmed value |
| HttpHeaders.IngestedIsClean | 6/header.cc:17-48 | whatever is read, names are lower case, trimmed and free of colons, and values are on one line |
| HttpHeaders.HeadersRoundTrip | 6/header.cc:17-81 | printed headers, in any order, read back as themselves if and only if names are lower case, trimmed, without colon, and values trimmed and on one line |
| HttpHeaders.EmptyValueContinued | 6/header.cc:24-26 | an empty value that is continued gets a leading space |
| HttpHeaders.ContinuedValueIsLost | 6/header.cc:24-33 | so this header, though read, does not come back |
| Numbers.NumberOfDecimal | 6/header.cc:67-73 | a printed length is read back |
| Numbers.LeadingZeroIsOctal | 6/header.cc:71-72 | decimal digits are read as their decimal value if and only if they do not start with 0 or are below 8 |
| Numbers.NumberOfOctal | 6/header.cc:67-73 | a number printed in octal behind 0 is read back, up to the largest long |
| Numbers.NumberOfHex | 6/header.cc:67-73 | and so is one printed in hex behind 0x, in lower or upper case |
| Numbers.NumberOfNegative | 6/header.cc:67-73 | and a negative number, down to the smallest long |
| Numbers.DecimalIsDecimal | 6/header.cc:39-43 | a number is printed with the digits 0 to 9 in base 10 |
| Numbers.ReadPrinted | 6/response.cc:23-25 | a printed number is read back if it fits an int, and otherwise as the nearest int |
| Numbers.NothingToRead | 6/response.cc:23-25 | from white space no status code is read |
| Numbers.SizeOfLine | 6/payload.cc:52-53 | the size of a chunk is that of its hex digits (`ChunkSizeOfHex`), whatever extension follows |
| Numbers.ChunkSizeOfHex | 6/payload.cc:52-53 | a size printed in hex, with any extension, is read as it is if it fits an int; above that it wraps around, and beyond a long it is -1 |
| Numbers.HexDigitsAre | 6/payload.cc:52-53 | the digits of base 16 are 0-9, a-f and A-F and no other characters; those of base 10 and 8 are 0-9 and 0-7 |
| HttpPayloads.HTTPPayload.IngestPayload | 6/payload.cc:20-27 | reads what the headers announce |
| HttpPayloads.HTTPPayload.IngestChunkedPayload | 6/payload.cc:46-61 | appends size lines and blocks up to the last chunk, and leaves the stream behind its line |
| HttpPayloads.BlockSizeWraps | 6/payload.cc:52-55 | a chunk has a block exactly if its size plus two, as an int that wraps around, is not negative |
| HttpPayloads.HTTPPayload.IngestCompletePayload | 6/payload.cc:63-67 | appends as many bytes as announced, with zeros for missing ones |
| Streams.BlockByte | 6/payload.cc:63-67 | byte k of a block is that of the stream if it is there, and otherwise NUL |
| Streams.NothingBehindTheEnd | 6/payload.cc:49-56 | once a read has run into the end of the stream, nothing more is read |
| HttpPayloads.HTTPPayload.SetPayload | 6/payload.cc:29-33 | the payload is the text, and Content-Length its length |
| HttpPayloads.FramingHeaders | 6/payload.cc:20-40 | which two headers frame a payload, by the lower-case names under which they are kept |
| HttpPayloads.LengthInAnyCase | 6/payload.cc:20-27 | a payload is read by its length whatever the case of the header's name was |
| HttpPayloads.ChunkedInAnyCase | 6/payload.cc:20-27 | a payload is read in chunks whatever the case of the header's name was, and whatever length is announced besides |
| HttpPayloads.ChunkedIsStable | 6/payload.cc:46-61 | what was read from any stream, even a broken one, reads back as itself |
| HttpPayloads.BodyIsKept | 6/payload.cc:46-61 | a well-formed chunked body without trailers (section 4.1 of RFC 7230) is kept verbatim, with its last line feed pair left unread |
| HttpPayloads.HexBodyIsKept | 6/payload.cc:46-61 | so are bodies of chunks whose sizes are printed with the digits 0-9 and a-f or A-F |
| HttpPayloads.SetPayloadIsConsistent | 6/payload.cc:29-33 | after setPayload the announced length is that of the payload, and good headers stay good |
| HttpResponses.ProtocolRoundTrip | 6/response.cc:66-68 | a printed protocol is read back if and only if it is a word |
| HttpResponses.StatusRead | 6/response.cc:16-25 | protocol and code of a printed status line are read back |
| HttpResponses.MessagesAreStandard | 6/response.cc:77-110 | the messages are the reason phrases of section 6.1 of RFC 7231, but for 301, 510 and the codes without one here |
| HttpResponses.PayloadRoundTrip | 6/payload.cc:20-67 | a printed payload is read back if and only if Content-Length is its length, or, for chunked headers, it is what the chunk reader makes of some stream |
| HttpResponses.Rehydration | 6/response.cc:66-73 | a printed response reads back as itself if and only if its protocol is a word, its headers are good and its payload agrees with them; with a good protocol the code always comes back |
| HttpResponses.HTTPResponse.IngestResponseHeader | 6/response.cc:16-27 | reads protocol, code and headers; a code that is not there is left undetermined |
| HttpResponses.HTTPResponse.Print | 6/response.cc:66-73 | status line, headers, blank line and payload |
| HttpResponses.SmallResponse | 6/response.cc:66-73 | the exact text of a small response |
| HttpResponses.StoreAndLoad | 6/cache.cc:96-136 | a response that is written to the cache and loaded from it is the same if and only if it meets these conditions |
| TshParse.SkipWhitespace | 3/tsh-parse.c:16-19 | the first position that holds no white space |
| TshParse.Parseline | 3/tsh-parse.c:21-55 | arguments, result and changed buffer are those of the scan of the command |
| TshParse.TokensInOrder | 3/tsh-parse.c:26-43 | tokens follow each other, each up to a blank or quote, and only the last may have none |
| TshParse.TokensAreMaximal | 3/tsh-parse.c:29-42 | each token starts where the code promises and reaches up to its first terminator |
| TshParse.OnlyWhiteIsSkipped | 3/tsh-parse.c:24-43 | whatever is in no token is white space |
| TshParse.ArgumentsAreTokens | 3/tsh-parse.c:31-42 | each argument, as a C string of the changed buffer, is its token; pointers increase; only blanks and quotes are overwritten |
| TshParse.CommandRoundTrip | 3/tsh-parse.c:21-55 | quoted tokens come back as the arguments exactly when they are fewer than the array's size, otherwise there are none; background exactly when the last starts with & |
| TshParse.UnmatchedQuote | 3/tsh-parse.c:34-38 | a quote without its mate, behind any quoted tokens, leaves no arguments |

## Left out

- Scans.Scan.TreeAndIndex: names that fill all 14 bytes without a NUL are excluded, since the code then reads behind them.
- HttpPayloads.BodyIsKept: trailers are not part of a well-formed body here; the code stops before them and does not keep them.
- DiskImgs.DiskImg.ReadSound: sectors must be inside the image; `ReadAnyRun` states what happens outside it. The overflow of the byte offset of a sector beyond 2^22 is not modelled.
- `diskimg_writesector`, `disksim_writesector`: the disk is opened for reading only; a write would not reach the cache.
- 2/CacheInode.c: the same lists and table as the sector cache with slots of 32 bytes; only its place in the memory is modelled.
- OpenSSL's hash tables and SHA-1: finite maps, and an arbitrary function of the bytes.
- `hlist_*` and the iteration macros of 2/utilidades/list.h: the caches do not use them.
- ScanPaths.WholeDiskOfImage: on a tidy image each inode that names lead to from the root is a regular file or an allocated directory without empty names or names with slashes; deleted entries, with inode number 0, are excluded, as the scan does not skip them.
- ScanPaths.FoldDiskIsValid: the memory of the directory entry holds the same inode in use at each lookup; for a path that has an inode it is irrelevant.
- DiskSearch.BuildDiskIndex: the cache memory has at least 2 KB, of which 1 KB is for inodes; command-line options, and the exit on an error, are not modelled.
- Latency, counters, debug output and failed allocation of small objects.
- Inode numbers below 1, inodes whose blocks lie outside the image, and failed sector reads.
- The linked lists of stored paths and of index locations are sequences: their nodes are never relinked.
- 3/tsh.c, 3/tsh-jobs.c: signals, processes and terminals.
- 4/ and the news part of 5/: network, XML and HTML libraries.
- 6/proxy.cc, 6/request.cc, 6/request-handler.cc, 6/cache.cc apart from writing and loading a response, 6/blacklist.cc, 6/scheduler.cc: sockets, files, clock and regular expressions.
- `permitsCaching`, `getTTL`, `removeHeader` and `containsName`: simple lookups.
- The copies of inode.c, file.c, directory.c, pathname.c and chksumfile.c in 1/, and of the thread pool in 6/: the same code.
- pthread internals: memory order, fairness of mutexes, and failed calls.
